/** The whole of main after the solver has run: read the graph, the names
    and the solver's result, analyse the cliques, and produce both output
    files and the two counts printed at the end. */
module Pipeline {
  import opened Outcomes
  import opened Sequences
  import opened Pairs
  import opened Adjacency
  import opened Names
  import opened ResultDecoder
  import opened MissingEdges
  import opened Report

  /** The two files and the counts behind cliques_written and
      predicted_missing_edges. */
  datatype Output = Output(cliqueLines: seq<string>, predictedLines: seq<string>, cliquesWritten: nat, predictedCount: nat)

  /** The outcome of main on the lines of the edge list, the mapping file
      and the result file, for the given k and q. */
  function Predict(edgeLines: seq<string>, mappingLines: seq<string>, resultLines: seq<string>, k: int, q: int): Result<Output> {
    match AdjacencyOf(edgeLines)
    case Err(e) => Err(e)
    case Ok(adj) =>
      var names := LoadMapping(mappingLines);
      match DecodeResult(resultLines)
      case Err(e) => Err(e)
      case Ok(cliques) =>
        match AnalysisOf(adj, k, q, cliques)
        case Err(e) => Err(e)
        case Ok(a) => Ok(Output(CliqueLines(names, a.reports), PredictedLines(names, a.edges), a.kept, |a.edges|))
  }

  /** main: the steps in the order main takes them. */
  method PredictMissingEdges(edgeLines: seq<string>, mappingLines: seq<string>, resultLines: seq<string>, k: int, q: int)
    returns (r: Result<Output>)
    ensures r == Predict(edgeLines, mappingLines, resultLines, k, q)
  {
    var loaded := LoadAdj(edgeLines);
    if loaded.Err? {
      return Err(loaded.error);
    }
    var adj := loaded.value;
    var names := LoadMapping(mappingLines);
    var parsed := ParseRes(resultLines);
    if parsed.Err? {
      return Err(parsed.error);
    }
    var analysed := Analyze(adj, k, q, parsed.value);
    if analysed.Err? {
      return Err(analysed.error);
    }
    var a := analysed.value;
    return Ok(Output(CliqueLines(names, a.reports), PredictedLines(names, a.edges), a.kept, |a.edges|));
  }

  /** When the graph and the result file read cleanly, main succeeds
      exactly when every clique of at least q nodes lacks at most k pairs;
      it then writes one line per such clique, in order, and one line per
      pair lacked by any of them, in ascending order. */
  lemma PredictSpec(edgeLines: seq<string>, mappingLines: seq<string>, resultLines: seq<string>, k: int, q: int,
                    adj: set<Pair>, cliques: seq<seq<int>>)
    requires AdjacencyOf(edgeLines) == Ok(adj)
    requires DecodeResult(resultLines) == Ok(cliques)
    ensures var ks, names := Kept(q, cliques), LoadMapping(mappingLines);
      Predict(edgeLines, mappingLines, resultLines, k, q) ==
        if WithinBound(adj, k, ks) then
          Ok(Output(CliqueLines(names, ReportsOf(adj, ks)), PredictedLines(names, UnionMissing(adj, ks)),
                    |ks|, |UnionMissing(adj, ks)|))
        else Err(AssertionError)
  {
    AnalysisSpec(adj, k, q, cliques, |cliques|);
  }

  /** When the graph and the result file read cleanly and every kept clique
      lacks at most k pairs, main succeeds; the first count it prints is then
      the number of cliques of at least q nodes in the result file, and the
      second the number of lines of the predictions file. */
  lemma PrintedCounts(edgeLines: seq<string>, mappingLines: seq<string>, resultLines: seq<string>, k: int, q: int,
                      adj: set<Pair>, cliques: seq<seq<int>>)
    requires AdjacencyOf(edgeLines) == Ok(adj)
    requires DecodeResult(resultLines) == Ok(cliques)
    requires WithinBound(adj, k, Kept(q, cliques))
    ensures var r := Predict(edgeLines, mappingLines, resultLines, k, q);
      && r.Ok?
      && r.value.cliquesWritten == |set i | 0 <= i < |cliques| && |cliques[i]| >= q|
      && r.value.predictedCount == |r.value.predictedLines|
  {
    PredictSpec(edgeLines, mappingLines, resultLines, k, q, adj, cliques);
    KeptCount(q, cliques);
  }

  /** The set of predicted edges is the union of the pairs the kept
      cliques lack. */
  lemma PredictedUnion(adj: set<Pair>, k: int, q: int, cliques: seq<seq<int>>, a: Analysis)
    requires AnalysisOf(adj, k, q, cliques) == Ok(a)
    ensures a.edges == UnionMissing(adj, Kept(q, cliques))
  {
    AnalysisSpec(adj, k, q, cliques, |cliques|);
  }

  /** A pair is predicted exactly when two nodes of one kept clique, the
      earlier one first, are not adjacent in the graph and the pair is
      those two written smaller id first. */
  lemma PredictedEdges(adj: set<Pair>, k: int, q: int, cliques: seq<seq<int>>, a: Analysis, p: Pair)
    requires AnalysisOf(adj, k, q, cliques) == Ok(a)
    ensures p in a.edges <==>
      exists i, x, y :: 0 <= i < |Kept(q, cliques)| && 0 <= x < y < |Kept(q, cliques)[i]| &&
        (Kept(q, cliques)[i][x], Kept(q, cliques)[i][y]) !in adj &&
        p == Canon(Kept(q, cliques)[i][x], Kept(q, cliques)[i][y])
  {
    var ks := Kept(q, cliques);
    PredictedUnion(adj, k, q, cliques, a);
    UnionMissingMembers(adj, ks, p);
    if p in a.edges {
      var i :| 0 <= i < |ks| && p in MissingOf(adj, ks[i]);
      MissingOfMembers(adj, ks[i], p);
    }
    if exists i, x, y :: 0 <= i < |ks| && 0 <= x < y < |ks[i]| && (ks[i][x], ks[i][y]) !in adj && p == Canon(ks[i][x], ks[i][y]) {
      var i, x, y :| 0 <= i < |ks| && 0 <= x < y < |ks[i]| && (ks[i][x], ks[i][y]) !in adj && p == Canon(ks[i][x], ks[i][y]);
      MissingOfMembers(adj, ks[i], p);
    }
  }

  /** Every predicted edge is written smaller id first and is an edge of
      neither orientation in the graph. */
  lemma PredictedNotInGraph(edgeLines: seq<string>, adj: set<Pair>, k: int, q: int, cliques: seq<seq<int>>, a: Analysis, p: Pair)
    requires AdjacencyOf(edgeLines) == Ok(adj)
    requires AnalysisOf(adj, k, q, cliques) == Ok(a)
    requires p in a.edges
    ensures p.0 <= p.1 && p !in adj && (p.1, p.0) !in adj
  {
    var ks := Kept(q, cliques);
    PredictedEdges(adj, k, q, cliques, a, p);
    var i, x, y :| 0 <= i < |ks| && 0 <= x < y < |ks[i]| && (ks[i][x], ks[i][y]) !in adj && p == Canon(ks[i][x], ks[i][y]);
    AdjacencySymmetric(edgeLines, adj);
    CanonSpec(ks[i][x], ks[i][y]);
    assert (ks[i][y], ks[i][x]) !in adj;
  }
}
