/** The two output files of main: one line per kept clique, and one line
    per predicted edge. Every line ends with a newline; a file is the
    concatenation of its lines. */
module Report {
  import opened Sequences
  import opened Pairs
  import opened Strings
  import opened Names
  import opened MissingEdges

  /** The names of the nodes of a clique, in order. */
  function NodeNames(names: seq<string>, clique: seq<int>): (r: seq<string>)
    ensures |r| == |clique|
    ensures forall i :: 0 <= i < |clique| ==> r[i] == IdToName(names, clique[i])
  {
    seq(|clique|, i requires 0 <= i < |clique| => IdToName(names, clique[i]))
  }

  /** A missing pair written name-name. */
  function PairName(names: seq<string>, p: Pair): string {
    IdToName(names, p.0) + "-" + IdToName(names, p.1)
  }

  function PairNames(names: seq<string>, ms: seq<Pair>): (r: seq<string>)
    ensures |r| == |ms|
    ensures forall i :: 0 <= i < |ms| ==> r[i] == PairName(names, ms[i])
  {
    seq(|ms|, i requires 0 <= i < |ms| => PairName(names, ms[i]))
  }

  /** The line of the cliques file for one kept clique: its node names
      separated by spaces, a tab, "missing:" and its missing pairs
      separated by commas. */
  function CliqueLine(names: seq<string>, rep: CliqueReport): (r: string)
    ensures |r| > 0 && r[|r| - 1] == '\n'
  {
    Join(" ", NodeNames(names, rep.nodes)) + "\tmissing:" + Join(",", PairNames(names, rep.missing)) + "\n"
  }

  function CliqueLines(names: seq<string>, reports: seq<CliqueReport>): (r: seq<string>)
    ensures |r| == |reports|
    ensures forall i :: 0 <= i < |reports| ==> r[i] == CliqueLine(names, reports[i])
  {
    seq(|reports|, i requires 0 <= i < |reports| => CliqueLine(names, reports[i]))
  }

  /** The line of the predictions file for one pair. */
  function PredictedLine(names: seq<string>, p: Pair): (r: string)
    ensures |r| > 0 && r[|r| - 1] == '\n'
  {
    IdToName(names, p.0) + " " + IdToName(names, p.1) + "\n"
  }

  /** The predictions file: the pairs in ascending order, one per line. */
  function PredictedLines(names: seq<string>, edges: set<Pair>): (r: seq<string>)
    ensures |r| == |edges|
  {
    var sorted := SortedPairs(edges);
    seq(|sorted|, i requires 0 <= i < |sorted| => PredictedLine(names, sorted[i]))
  }

  /** The predictions file lists every pair of the set once, in ascending
      order, one line per pair. */
  lemma PredictedLinesSorted(names: seq<string>, edges: set<Pair>)
    ensures var r := PredictedLines(names, edges);
      exists ps :: StrictlySorted(ps) && Distinct(ps) && Elems(ps) == edges && |ps| == |r| &&
        forall i :: 0 <= i < |r| ==> r[i] == PredictedLine(names, ps[i])
  {
    var ps := SortedPairs(edges);
    StrictlySortedDistinct(ps);
    assert forall i :: 0 <= i < |ps| ==> PredictedLines(names, edges)[i] == PredictedLine(names, ps[i]);
  }

  /** A name that cannot be confused with the separators of the cliques file. */
  predicate Plain(name: string) {
    '\t' !in name && ' ' !in name && ',' !in name
  }

  /** Every name a node id can get is plain when the mapping names are. */
  lemma IdToNamePlain(names: seq<string>, id: int)
    requires forall i :: 0 <= i < |names| ==> Plain(names[i])
    ensures Plain(IdToName(names, id))
  {
    if !(0 <= id < |names|) {
      var r := IntToString(id);
      assert IdToName(names, id) == r;
      assert forall i :: 0 <= i < |r| ==> r[i] != '\t' && r[i] != ' ' && r[i] != ',';
    }
  }

  lemma NodeNamesPlain(names: seq<string>, clique: seq<int>)
    requires forall i :: 0 <= i < |names| ==> Plain(names[i])
    ensures forall i :: 0 <= i < |clique| ==> Plain(NodeNames(names, clique)[i])
  {
    forall i | 0 <= i < |clique| ensures Plain(NodeNames(names, clique)[i]) {
      IdToNamePlain(names, clique[i]);
    }
  }

  lemma PairNamesPlain(names: seq<string>, ms: seq<Pair>)
    requires forall i :: 0 <= i < |names| ==> Plain(names[i])
    ensures forall i :: 0 <= i < |ms| ==> '\t' !in PairNames(names, ms)[i] && ',' !in PairNames(names, ms)[i]
  {
    forall i | 0 <= i < |ms| ensures '\t' !in PairNames(names, ms)[i] && ',' !in PairNames(names, ms)[i] {
      IdToNamePlain(names, ms[i].0);
      IdToNamePlain(names, ms[i].1);
    }
  }

  /** Two tab-free fields around "\tmissing:" split on the tab into the
      first field and "missing:" followed by the second. */
  lemma TabFields(a: string, b: string)
    requires '\t' !in a && '\t' !in b
    ensures SplitOn(a + "\tmissing:" + b, '\t') == [a, "missing:" + b]
  {
    assert a + "\tmissing:" + b == a + ['\t'] + ("missing:" + b);
    SplitOnPrefix(a, '\t', "missing:" + b);
    SplitOnNoSep("missing:" + b, '\t');
  }

  /** The body of a clique line (the line without its newline) splits on
      the tab into the node names joined by spaces and "missing:" followed
      by the pairs joined by commas; those split back into the node names
      and the pair names. */
  lemma CliqueLineFields(names: seq<string>, rep: CliqueReport)
    requires forall i :: 0 <= i < |names| ==> Plain(names[i])
    requires rep.nodes != []
    ensures var line := CliqueLine(names, rep);
      var nodes, pairs := NodeNames(names, rep.nodes), PairNames(names, rep.missing);
      && line[|line| - 1] == '\n'
      && SplitOn(line[..|line| - 1], '\t') == [Join(" ", nodes), "missing:" + Join(",", pairs)]
      && SplitOn(Join(" ", nodes), ' ') == nodes
      && (rep.missing != [] ==> SplitOn(Join(",", pairs), ',') == pairs)
  {
    var nodes, pairs := NodeNames(names, rep.nodes), PairNames(names, rep.missing);
    NodeNamesPlain(names, rep.nodes);
    PairNamesPlain(names, rep.missing);
    var a, b := Join(" ", nodes), Join(",", pairs);
    NotInJoin('\t', " ", nodes);
    NotInJoin('\t', ",", pairs);
    TabFields(a, b);
    var line := CliqueLine(names, rep);
    assert line == (a + "\tmissing:" + b) + "\n";
    assert line[..|line| - 1] == a + "\tmissing:" + b;
    SplitOnJoin(nodes, ' ');
    if rep.missing != [] {
      SplitOnJoin(pairs, ',');
    }
  }

  /** A line of the predictions file splits into the two names, provided
      the names are whitespace-free. */
  lemma PredictedLineFields(names: seq<string>, p: Pair)
    requires forall i :: 0 <= i < |names| ==> IsToken(names[i])
    ensures Split(PredictedLine(names, p)) == [IdToName(names, p.0), IdToName(names, p.1)]
  {
    var u, v := IdToName(names, p.0), IdToName(names, p.1);
    assert Join(" ", [u, v]) == u + " " + v by {
      assert [u, v][1..] == [v];
    }
    SplitJoinSpaces([u, v]);
    assert PredictedLine(names, p) == (u + " " + v) + ['\n'];
    SplitTrailingSpace(u + " " + v, '\n');
  }

  lemma ExampleNames()
    ensures NodeNames(["A", "B", "C"], [1, 2, 3]) == ["B", "C", "3"]
    ensures PairNames(["A", "B", "C"], [(1, 3), (2, 3)]) == ["B-3", "C-3"]
  {
    var names := ["A", "B", "C"];
    assert IdToName(names, 3) == "3" by {
      assert IntToString(3) == [DigitChar(3)];
    }
    assert PairName(names, (1, 3)) == "B-3";
    assert PairName(names, (2, 3)) == "C-3";
  }

  /** With names A B C for nodes 0 1 2, the clique 1 2 3 lacking 1-3 and
      2-3 is written with node 3 under its decimal name. */
  lemma JoinExamples()
    ensures Join(" ", ["B", "C", "3"]) == "B C 3"
    ensures Join(",", ["B-3", "C-3"]) == "B-3,C-3"
  {
    assert ["B", "C", "3"][1..] == ["C", "3"];
    assert ["C", "3"][1..] == ["3"];
    assert ["B-3", "C-3"][1..] == ["C-3"];
  }

  lemma CliqueLineExample()
    ensures CliqueLine(["A", "B", "C"], CliqueReport([1, 2, 3], [(1, 3), (2, 3)])) == "B C 3\tmissing:B-3,C-3\n"
  {
    ExampleNames();
    JoinExamples();
    assert CliqueLine(["A", "B", "C"], CliqueReport([1, 2, 3], [(1, 3), (2, 3)])) == "B C 3" + "\tmissing:" + "B-3,C-3" + "\n";
  }
}
