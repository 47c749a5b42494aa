/** The analysis loop of main: for every clique of at least q nodes, the
    node pairs it lacks in the graph, the bound k on their number, and the
    set of all of them. */
module MissingEdges {
  import opened Outcomes
  import opened Sequences
  import opened Pairs

  // ---- one clique: the double loop over i < j ----

  /** Positions a < b of clique c whose nodes are not adjacent. */
  ghost predicate Absent(adj: set<Pair>, c: seq<int>, p: Pair) {
    0 <= p.0 < p.1 < |c| && (c[p.0], c[p.1]) !in adj
  }

  /** The positions (a, b), a < b, of a clique whose nodes are not adjacent. */
  function MissingIndexSet(adj: set<Pair>, c: seq<int>): set<Pair> {
    set a, b | 0 <= a < b < |c| && (c[a], c[b]) !in adj :: (a, b)
  }

  lemma MissingIndexSetMembers(adj: set<Pair>, c: seq<int>, p: Pair)
    ensures p in MissingIndexSet(adj, c) <==> Absent(adj, c, p)
  {
    if Absent(adj, c, p) {
      assert (p.0, p.1) in MissingIndexSet(adj, c);
    }
  }

  /** What iteration (i, j) of the double loop appends: the pair of nodes
      i and j, smaller id first, when j comes after i and the two are not
      adjacent; nothing otherwise. */
  function Cell(adj: set<Pair>, c: seq<int>, i: int, j: int): seq<Pair> {
    if 0 <= i < j < |c| && (c[i], c[j]) !in adj then [Canon(c[i], c[j])] else []
  }

  /** The cells of row i, one per column. */
  function Cells(adj: set<Pair>, c: seq<int>, i: int): (r: seq<seq<Pair>>)
    ensures |r| == |c| && forall j :: 0 <= j < |c| ==> r[j] == Cell(adj, c, i, j)
  {
    seq(|c|, j => Cell(adj, c, i, j))
  }

  /** What row i of the double loop appends. */
  function Row(adj: set<Pair>, c: seq<int>, i: int): seq<Pair>
  {
    Flatten(Cells(adj, c, i))
  }

  function Rows(adj: set<Pair>, c: seq<int>): (r: seq<seq<Pair>>)
    ensures |r| == |c| && forall i :: 0 <= i < |c| ==> r[i] == Row(adj, c, i)
  {
    seq(|c|, i => Row(adj, c, i))
  }

  /** clique_missing of one clique: what the double loop appends, row by
      row. */
  function MissingOf(adj: set<Pair>, c: seq<int>): (r: seq<Pair>)
    ensures forall k :: 0 <= k < |r| ==> r[k].0 <= r[k].1
  {
    var rows := Rows(adj, c);
    assert forall k :: 0 <= k < |Flatten(rows)| ==> Flatten(rows)[k].0 <= Flatten(rows)[k].1 by {
      forall k | 0 <= k < |Flatten(rows)| ensures Flatten(rows)[k].0 <= Flatten(rows)[k].1 {
        var p := Flatten(rows)[k];
        var i := FlattenMember(rows, p);
        var j := FlattenMember(Cells(adj, c, i), p);
      }
    }
    Flatten(rows)
  }

  /** The same loop over positions: the pair (i, j) itself. */
  function IndexCell(adj: set<Pair>, c: seq<int>, i: int, j: int): seq<Pair> {
    if 0 <= i < j < |c| && (c[i], c[j]) !in adj then [(i, j)] else []
  }

  function IndexCells(adj: set<Pair>, c: seq<int>, i: int): (r: seq<seq<Pair>>)
    ensures |r| == |c| && forall j :: 0 <= j < |c| ==> r[j] == IndexCell(adj, c, i, j)
  {
    seq(|c|, j => IndexCell(adj, c, i, j))
  }

  function IndexRow(adj: set<Pair>, c: seq<int>, i: int): seq<Pair>
  {
    Flatten(IndexCells(adj, c, i))
  }

  function IndexRows(adj: set<Pair>, c: seq<int>): (r: seq<seq<Pair>>)
    ensures |r| == |c| && forall i :: 0 <= i < |c| ==> r[i] == IndexRow(adj, c, i)
  {
    seq(|c|, i => IndexRow(adj, c, i))
  }

  /** The absent positions in the order the double loop meets them. */
  function IndexOf(adj: set<Pair>, c: seq<int>): seq<Pair> {
    Flatten(IndexRows(adj, c))
  }

  /** ns lists, in order, the node pairs at the positions of ix, smaller id
      first. */
  ghost predicate StandsFor(c: seq<int>, ix: seq<Pair>, ns: seq<Pair>) {
    && |ns| == |ix|
    && forall k :: 0 <= k < |ix| ==>
         0 <= ix[k].0 < |c| && 0 <= ix[k].1 < |c| && ns[k] == Canon(c[ix[k].0], c[ix[k].1])
  }

  lemma StandsForConcat(c: seq<int>, ix: seq<Pair>, ns: seq<Pair>, iy: seq<Pair>, ms: seq<Pair>)
    requires StandsFor(c, ix, ns) && StandsFor(c, iy, ms)
    ensures StandsFor(c, ix + iy, ns + ms)
  {
    forall k | 0 <= k < |ix + iy|
      ensures 0 <= (ix + iy)[k].0 < |c| && 0 <= (ix + iy)[k].1 < |c|
      ensures (ns + ms)[k] == Canon(c[(ix + iy)[k].0], c[(ix + iy)[k].1])
    {
      if k >= |ix| {
        assert (ix + iy)[k] == iy[k - |ix|] && (ns + ms)[k] == ms[k - |ix|];
      }
    }
  }

  lemma {:induction false} FlattenStands(c: seq<int>, ixs: seq<seq<Pair>>, nss: seq<seq<Pair>>)
    requires |ixs| == |nss|
    requires forall k :: 0 <= k < |ixs| ==> StandsFor(c, ixs[k], nss[k])
    ensures StandsFor(c, Flatten(ixs), Flatten(nss))
  {
    if ixs != [] {
      var n := |ixs| - 1;
      forall k | 0 <= k < n ensures StandsFor(c, ixs[..n][k], nss[..n][k]) {
        assert ixs[..n][k] == ixs[k] && nss[..n][k] == nss[k];
      }
      FlattenStands(c, ixs[..n], nss[..n]);
      StandsForConcat(c, Flatten(ixs[..n]), Flatten(nss[..n]), ixs[n], nss[n]);
    }
  }

  /** The node pairs the loop appends are those of the positions it meets. */
  lemma MissingOfStands(adj: set<Pair>, c: seq<int>)
    ensures StandsFor(c, IndexOf(adj, c), MissingOf(adj, c))
  {
    var ixs, nss := IndexRows(adj, c), Rows(adj, c);
    forall i | 0 <= i < |c| ensures StandsFor(c, ixs[i], nss[i]) {
      var ic, nc := IndexCells(adj, c, i), Cells(adj, c, i);
      forall j | 0 <= j < |c| ensures StandsFor(c, ic[j], nc[j]) {
      }
      FlattenStands(c, ic, nc);
    }
    FlattenStands(c, ixs, nss);
  }

  /** Row i holds exactly the absent positions (i, j). */
  lemma IndexRowMembers(adj: set<Pair>, c: seq<int>, i: nat, p: Pair)
    requires i < |c|
    ensures p in IndexRow(adj, c, i) <==> p.0 == i && Absent(adj, c, p)
  {
    var cells := IndexCells(adj, c, i);
    if p in Flatten(cells) {
      var j := FlattenMember(cells, p);
    }
    if p.0 == i && Absent(adj, c, p) {
      MemberFlatten(cells, p.1, p);
    }
  }

  /** The loop meets exactly the absent positions. */
  lemma IndexOfMembers(adj: set<Pair>, c: seq<int>, p: Pair)
    ensures p in IndexOf(adj, c) <==> Absent(adj, c, p)
  {
    var rows := IndexRows(adj, c);
    if p in Flatten(rows) {
      var i := FlattenMember(rows, p);
      IndexRowMembers(adj, c, i, p);
    }
    if Absent(adj, c, p) {
      IndexRowMembers(adj, c, p.0, p);
      MemberFlatten(rows, p.0, p);
    }
  }

  /** Within a row the loop meets the positions in ascending order. */
  lemma IndexRowSorted(adj: set<Pair>, c: seq<int>, i: nat)
    requires i < |c|
    ensures StrictlySorted(IndexRow(adj, c, i))
  {
    var cells := IndexCells(adj, c, i);
    forall k, l, x, y | 0 <= k < l < |cells| && x in cells[k] && y in cells[l] ensures Less(x, y) {
    }
    FlattenSorted(cells);
  }

  /** The double loop meets the absent positions in lexicographic order. */
  lemma IndexOfSorted(adj: set<Pair>, c: seq<int>)
    ensures StrictlySorted(IndexOf(adj, c))
  {
    var rows := IndexRows(adj, c);
    forall k | 0 <= k < |rows| ensures StrictlySorted(rows[k]) {
      IndexRowSorted(adj, c, k);
    }
    forall k, l, x, y | 0 <= k < l < |rows| && x in rows[k] && y in rows[l] ensures Less(x, y) {
      IndexRowMembers(adj, c, k, x);
      IndexRowMembers(adj, c, l, y);
    }
    FlattenSorted(rows);
  }

  /** The double loop visits every absent position pair once, in sorted()
      order. */
  lemma IndexOfIsSorted(adj: set<Pair>, c: seq<int>)
    ensures IndexOf(adj, c) == SortedPairs(MissingIndexSet(adj, c))
  {
    var ix := IndexOf(adj, c);
    IndexOfSorted(adj, c);
    forall p ensures p in Elems(ix) <==> p in MissingIndexSet(adj, c) {
      IndexOfMembers(adj, c, p);
      MissingIndexSetMembers(adj, c, p);
    }
    SortedUnique(ix, SortedPairs(MissingIndexSet(adj, c)));
  }

  /** The missing pairs of a clique are its absent position pairs a < b in
      lexicographic order, each written smaller node id first; their
      number is the number of absent position pairs. */
  lemma MissingOfSpec(adj: set<Pair>, c: seq<int>)
    ensures StandsFor(c, SortedPairs(MissingIndexSet(adj, c)), MissingOf(adj, c))
    ensures |MissingOf(adj, c)| == |MissingIndexSet(adj, c)|
  {
    IndexOfIsSorted(adj, c);
    MissingOfStands(adj, c);
  }

  /** Every pair in the list comes from an absent position pair, and every
      absent position pair is in the list. */
  lemma MissingOfMembers(adj: set<Pair>, c: seq<int>, p: Pair)
    ensures p in MissingOf(adj, c) <==>
      exists a, b :: 0 <= a < b < |c| && (c[a], c[b]) !in adj && p == Canon(c[a], c[b])
  {
    var ix, ns := IndexOf(adj, c), MissingOf(adj, c);
    MissingOfStands(adj, c);
    if p in ns {
      var k :| 0 <= k < |ns| && ns[k] == p;
      IndexOfMembers(adj, c, ix[k]);
      var a, b := ix[k].0, ix[k].1;
      assert 0 <= a < b < |c| && (c[a], c[b]) !in adj && p == Canon(c[a], c[b]);
    }
    if exists a, b :: 0 <= a < b < |c| && (c[a], c[b]) !in adj && p == Canon(c[a], c[b]) {
      var a, b :| 0 <= a < b < |c| && (c[a], c[b]) !in adj && p == Canon(c[a], c[b]);
      IndexOfMembers(adj, c, (a, b));
      var k :| 0 <= k < |ix| && ix[k] == (a, b);
      assert ns[k] == p;
    }
  }

  /** The state of the inner loop of row i before column j: the pairs of
      the row so far are appended to clique_missing and added to the set,
      and num_mis counts the list. */
  ghost predicate RowScanned(adj: set<Pair>, c: seq<int>, i: nat, j: nat, missing0: seq<Pair>, edges0: set<Pair>,
                             numMis: nat, cliqueMissing: seq<Pair>, edges: set<Pair>)
    requires i < |c| && j <= |c|
  {
    var row := Flatten(Cells(adj, c, i)[..j]);
    && cliqueMissing == missing0 + row
    && numMis == |cliqueMissing|
    && edges == edges0 + Elems(row)
  }

  lemma RowScannedAbsent(adj: set<Pair>, c: seq<int>, i: nat, j: nat, missing0: seq<Pair>, edges0: set<Pair>,
                         numMis: nat, cliqueMissing: seq<Pair>, edges: set<Pair>,
                         p: Pair, numMis': nat, cliqueMissing': seq<Pair>, edges': set<Pair>)
    requires i < j < |c| && (c[i], c[j]) !in adj
    requires RowScanned(adj, c, i, j, missing0, edges0, numMis, cliqueMissing, edges)
    requires p == Canon(c[i], c[j])
    requires numMis' == numMis + 1 && cliqueMissing' == cliqueMissing + [p] && edges' == edges + {p}
    ensures RowScanned(adj, c, i, j + 1, missing0, edges0, numMis', cliqueMissing', edges')
  {
    var cells := Cells(adj, c, i);
    FlattenSnoc(cells, j);
    AppendInStep(missing0, Flatten(cells[..j]), edges0, p);
  }

  lemma RowScannedAdjacent(adj: set<Pair>, c: seq<int>, i: nat, j: nat, missing0: seq<Pair>, edges0: set<Pair>,
                           numMis: nat, cliqueMissing: seq<Pair>, edges: set<Pair>)
    requires i < j < |c| && (c[i], c[j]) in adj
    requires RowScanned(adj, c, i, j, missing0, edges0, numMis, cliqueMissing, edges)
    ensures RowScanned(adj, c, i, j + 1, missing0, edges0, numMis, cliqueMissing, edges)
  {
    var cells := Cells(adj, c, i);
    FlattenSnoc(cells, j);
    assert Flatten(cells[..j]) + [] == Flatten(cells[..j]);
  }

  /** Before its first iteration the inner loop of row i has appended
      nothing, and after its last the whole row. */
  lemma RowScannedEnds(adj: set<Pair>, c: seq<int>, i: nat, missing0: seq<Pair>, edges0: set<Pair>,
                       numMis: nat, cliqueMissing: seq<Pair>, edges: set<Pair>)
    requires i < |c|
    ensures numMis == |missing0| ==> RowScanned(adj, c, i, i + 1, missing0, edges0, numMis, missing0, edges0)
    ensures RowScanned(adj, c, i, |c|, missing0, edges0, numMis, cliqueMissing, edges) ==>
      && cliqueMissing == missing0 + Row(adj, c, i)
      && numMis == |cliqueMissing|
      && edges == edges0 + Elems(Row(adj, c, i))
  {
    var cells := Cells(adj, c, i);
    FlattenAllEmpty(cells[..i + 1]);
    assert missing0 + [] == missing0;
    assert cells[..|c|] == cells;
  }

  /** The two ids of a pair, smaller first. */
  method Ordered(u0: int, v0: int) returns (u: int, v: int)
    ensures (u, v) == Canon(u0, v0)
  {
    u, v := u0, v0;
    if u > v {
      u, v := v, u;
    }
  }

  /** The inner loop of row i: it appends the row's absent pairs. */
  method ScanRow(adj: set<Pair>, clique: seq<int>, i: nat, numMis0: nat, missing0: seq<Pair>, edges0: set<Pair>)
    returns (numMis: nat, cliqueMissing: seq<Pair>, edges: set<Pair>)
    requires i < |clique|
    requires numMis0 == |missing0|
    ensures cliqueMissing == missing0 + Row(adj, clique, i)
    ensures numMis == |cliqueMissing|
    ensures edges == edges0 + Elems(Row(adj, clique, i))
  {
    numMis, cliqueMissing, edges := numMis0, missing0, edges0;
    RowScannedEnds(adj, clique, i, missing0, edges0, numMis, cliqueMissing, edges);
    for j := i + 1 to |clique|
      invariant RowScanned(adj, clique, i, j, missing0, edges0, numMis, cliqueMissing, edges)
    {
      if (clique[i], clique[j]) !in adj {
        ghost var numBefore, missingBefore, edgesBefore := numMis, cliqueMissing, edges;
        numMis := numMis + 1;
        var u, v := Ordered(clique[i], clique[j]);
        edges := edges + {(u, v)};
        cliqueMissing := cliqueMissing + [(u, v)];
        RowScannedAbsent(adj, clique, i, j, missing0, edges0, numBefore, missingBefore, edgesBefore,
          (u, v), numMis, cliqueMissing, edges);
      } else {
        RowScannedAdjacent(adj, clique, i, j, missing0, edges0, numMis, cliqueMissing, edges);
      }
    }
    RowScannedEnds(adj, clique, i, missing0, edges0, numMis, cliqueMissing, edges);
  }

  /** One clique's double loop: it counts the absent pairs, lists them in
      loop order and adds them to the running set. */
  method ScanClique(adj: set<Pair>, clique: seq<int>, edges0: set<Pair>)
    returns (numMis: nat, cliqueMissing: seq<Pair>, edges: set<Pair>)
    ensures cliqueMissing == MissingOf(adj, clique)
    ensures numMis == |cliqueMissing|
    ensures edges == edges0 + Elems(cliqueMissing)
  {
    ghost var rows := Rows(adj, clique);
    numMis := 0;
    cliqueMissing := [];
    edges := edges0;
    for i := 0 to |clique|
      invariant cliqueMissing == Flatten(rows[..i])
      invariant numMis == |cliqueMissing|
      invariant edges == edges0 + Elems(cliqueMissing)
    {
      ghost var before := cliqueMissing;
      FlattenSnoc(rows, i);
      numMis, cliqueMissing, edges := ScanRow(adj, clique, i, numMis, cliqueMissing, edges);
      ElemsConcat(before, rows[i]);
    }
    assert rows[..|clique|] == rows;
  }

  // ---- the loop over all cliques ----

  /** A kept clique: its node ids and the pairs it lacks, in loop order. */
  datatype CliqueReport = CliqueReport(nodes: seq<int>, missing: seq<Pair>)

  /** What the loop has produced: one report per kept clique, the set
      missing_edges, and kept_cliques. */
  datatype Analysis = Analysis(reports: seq<CliqueReport>, edges: set<Pair>, kept: nat)

  /** One iteration: a clique of fewer than q nodes is skipped, one lacking
      more than k pairs fails the assertion, any other is recorded. */
  function AnalysisStep(adj: set<Pair>, k: int, q: int, acc: Result<Analysis>, c: seq<int>): Result<Analysis> {
    match acc
    case Err(e) => Err(e)
    case Ok(a) =>
      if |c| < q then Ok(a)
      else
        var m := MissingOf(adj, c);
        if |m| > k then Err(AssertionError)
        else Ok(Analysis(a.reports + [CliqueReport(c, m)], a.edges + Elems(m), a.kept + 1))
  }

  /** The loop after the first n cliques. */
  function AnalysisUpTo(adj: set<Pair>, k: int, q: int, cliques: seq<seq<int>>, n: nat): Result<Analysis>
    requires n <= |cliques|
  {
    if n == 0 then Ok(Analysis([], {}, 0))
    else AnalysisStep(adj, k, q, AnalysisUpTo(adj, k, q, cliques, n - 1), cliques[n - 1])
  }

  function AnalysisOf(adj: set<Pair>, k: int, q: int, cliques: seq<seq<int>>): Result<Analysis> {
    AnalysisUpTo(adj, k, q, cliques, |cliques|)
  }

  lemma {:induction false} AnalysisErrorPersists(adj: set<Pair>, k: int, q: int, cliques: seq<seq<int>>, i: nat, n: nat)
    requires i <= n <= |cliques|
    requires AnalysisUpTo(adj, k, q, cliques, i).Err?
    ensures AnalysisUpTo(adj, k, q, cliques, n) == AnalysisUpTo(adj, k, q, cliques, i)
    decreases n - i
  {
    if i < n {
      AnalysisErrorPersists(adj, k, q, cliques, i, n - 1);
    }
  }

  /** The three ways an iteration can go. */
  lemma AnalysisAdvance(adj: set<Pair>, k: int, q: int, cliques: seq<seq<int>>, n: nat, a: Analysis)
    requires n < |cliques| && AnalysisUpTo(adj, k, q, cliques, n) == Ok(a)
    ensures |cliques[n]| < q ==> AnalysisUpTo(adj, k, q, cliques, n + 1) == Ok(a)
    ensures |cliques[n]| >= q && |MissingOf(adj, cliques[n])| > k ==>
      AnalysisUpTo(adj, k, q, cliques, n + 1) == Err(AssertionError)
    ensures |cliques[n]| >= q && |MissingOf(adj, cliques[n])| <= k ==>
      var m := MissingOf(adj, cliques[n]);
      AnalysisUpTo(adj, k, q, cliques, n + 1) ==
        Ok(Analysis(a.reports + [CliqueReport(cliques[n], m)], a.edges + Elems(m), a.kept + 1))
  {
  }

  /** The loop over the cliques of main, with its assertion. */
  method Analyze(adj: set<Pair>, k: int, q: int, cliques: seq<seq<int>>) returns (r: Result<Analysis>)
    ensures r == AnalysisOf(adj, k, q, cliques)
  {
    var missingEdges: set<Pair> := {};
    var keptCliques: nat := 0;
    var reports: seq<CliqueReport> := [];
    for n := 0 to |cliques|
      invariant AnalysisUpTo(adj, k, q, cliques, n) == Ok(Analysis(reports, missingEdges, keptCliques))
    {
      AnalysisAdvance(adj, k, q, cliques, n, Analysis(reports, missingEdges, keptCliques));
      var clique := cliques[n];
      if |clique| >= q {
        var numMis, cliqueMissing;
        numMis, cliqueMissing, missingEdges := ScanClique(adj, clique, missingEdges);
        if numMis > k {
          AnalysisErrorPersists(adj, k, q, cliques, n + 1, |cliques|);
          return Err(AssertionError);
        }
        keptCliques := keptCliques + 1;
        reports := reports + [CliqueReport(clique, cliqueMissing)];
      }
    }
    return Ok(Analysis(reports, missingEdges, keptCliques));
  }

  // ---- what the loop computes, stated without the loop ----

  /** The cliques among the first n of at least q nodes, in order. */
  function KeptUpTo(q: int, cliques: seq<seq<int>>, n: nat): seq<seq<int>>
    requires n <= |cliques|
  {
    if n == 0 then []
    else KeptUpTo(q, cliques, n - 1) + (if |cliques[n - 1]| < q then [] else [cliques[n - 1]])
  }

  function Kept(q: int, cliques: seq<seq<int>>): seq<seq<int>> {
    KeptUpTo(q, cliques, |cliques|)
  }

  /** Kept holds exactly the cliques of at least q nodes. */
  lemma {:induction false} KeptMembers(q: int, cliques: seq<seq<int>>, n: nat)
    requires n <= |cliques|
    ensures forall c :: c in KeptUpTo(q, cliques, n) <==> (exists i :: 0 <= i < n && cliques[i] == c) && |c| >= q
    ensures |KeptUpTo(q, cliques, n)| <= n
  {
    if n > 0 {
      KeptMembers(q, cliques, n - 1);
    }
  }

  /** The positions among the first n of the cliques of at least q nodes. */
  function KeptIndices(q: int, cliques: seq<seq<int>>, n: nat): seq<nat>
    requires n <= |cliques|
  {
    if n == 0 then []
    else KeptIndices(q, cliques, n - 1) + (if |cliques[n - 1]| < q then [] else [n - 1])
  }

  /** The kept cliques are the cliques at ascending positions, exactly the
      positions of the cliques of at least q nodes: the q filter keeps
      their order. */
  lemma {:induction false} KeptIndicesSpec(q: int, cliques: seq<seq<int>>, n: nat)
    requires n <= |cliques|
    ensures var ix, ks := KeptIndices(q, cliques, n), KeptUpTo(q, cliques, n);
      && |ix| == |ks|
      && (forall j :: 0 <= j < |ix| ==> ix[j] < n && ks[j] == cliques[ix[j]])
      && (forall j, l :: 0 <= j < l < |ix| ==> ix[j] < ix[l])
      && (forall i :: i in ix <==> 0 <= i < n && |cliques[i]| >= q)
  {
    if n > 0 {
      KeptIndicesSpec(q, cliques, n - 1);
    }
  }

  /** kept_cliques counts the cliques of at least q nodes. */
  lemma KeptCount(q: int, cliques: seq<seq<int>>)
    ensures |Kept(q, cliques)| == |set i | 0 <= i < |cliques| && |cliques[i]| >= q|
  {
    var n := |cliques|;
    var ix := KeptIndices(q, cliques, n);
    KeptIndicesSpec(q, cliques, n);
    assert Distinct(ix);
    CardElems(ix);
    assert Elems(ix) == set i | 0 <= i < n && |cliques[i]| >= q;
  }

  /** Every clique of cs lacks at most k pairs. */
  predicate WithinBound(adj: set<Pair>, k: int, cs: seq<seq<int>>) {
    forall i :: 0 <= i < |cs| ==> |MissingOf(adj, cs[i])| <= k
  }

  /** The report of each clique of cs. */
  function ReportsOf(adj: set<Pair>, cs: seq<seq<int>>): (r: seq<CliqueReport>)
    ensures |r| == |cs|
    ensures forall i :: 0 <= i < |cs| ==> r[i] == CliqueReport(cs[i], MissingOf(adj, cs[i]))
  {
    if cs == [] then [] else ReportsOf(adj, cs[..|cs| - 1]) + [CliqueReport(cs[|cs| - 1], MissingOf(adj, cs[|cs| - 1]))]
  }

  /** All pairs the cliques of cs lack. */
  function UnionMissing(adj: set<Pair>, cs: seq<seq<int>>): set<Pair> {
    UnionOf(MissingLists(adj, cs))
  }

  /** The missing pairs of each clique of cs. */
  function MissingLists(adj: set<Pair>, cs: seq<seq<int>>): (r: seq<seq<Pair>>)
    ensures |r| == |cs|
    ensures forall i :: 0 <= i < |cs| ==> r[i] == MissingOf(adj, cs[i])
  {
    seq(|cs|, i requires 0 <= i < |cs| => MissingOf(adj, cs[i]))
  }

  /** Recording one more clique c after those of ks0. */
  lemma {:induction false} RecordSnoc(adj: set<Pair>, k: int, ks0: seq<seq<int>>, c: seq<int>)
    ensures WithinBound(adj, k, ks0 + [c]) <==> WithinBound(adj, k, ks0) && |MissingOf(adj, c)| <= k
    ensures ReportsOf(adj, ks0 + [c]) == ReportsOf(adj, ks0) + [CliqueReport(c, MissingOf(adj, c))]
    ensures UnionMissing(adj, ks0 + [c]) == UnionMissing(adj, ks0) + Elems(MissingOf(adj, c))
  {
    var ks := ks0 + [c];
    assert MissingLists(adj, ks) == MissingLists(adj, ks0) + [MissingOf(adj, c)];
    UnionOfSnoc(MissingLists(adj, ks0), MissingOf(adj, c));
    assert ks[..|ks| - 1] == ks0;
    if WithinBound(adj, k, ks) {
      forall i | 0 <= i < |ks0| ensures |MissingOf(adj, ks0[i])| <= k {
        assert ks[i] == ks0[i];
      }
      assert ks[|ks0|] == c;
    }
    if WithinBound(adj, k, ks0) && |MissingOf(adj, c)| <= k {
      forall i | 0 <= i < |ks| ensures |MissingOf(adj, ks[i])| <= k {
        if i < |ks0| {
          assert ks[i] == ks0[i];
        }
      }
    }
  }

  /** r is what the loop has produced after recording the cliques ks. */
  ghost predicate Summarises(adj: set<Pair>, k: int, r: Result<Analysis>, ks: seq<seq<int>>) {
    && (WithinBound(adj, k, ks) ==> r == Ok(Analysis(ReportsOf(adj, ks), UnionMissing(adj, ks), |ks|)))
    && (!WithinBound(adj, k, ks) ==> r == Err(AssertionError))
  }

  /** An iteration records a clique of at least q nodes or fails, and
      skips any other. */
  lemma SummarisedStep(adj: set<Pair>, k: int, q: int, prev: Result<Analysis>, ks0: seq<seq<int>>, c: seq<int>,
                       next: Result<Analysis>, ks: seq<seq<int>>)
    requires Summarises(adj, k, prev, ks0)
    requires next == AnalysisStep(adj, k, q, prev, c)
    requires ks == ks0 + (if |c| < q then [] else [c])
    ensures Summarises(adj, k, next, ks)
  {
    if |c| >= q {
      RecordSnoc(adj, k, ks0, c);
    } else {
      assert ks == ks0;
    }
  }

  lemma {:induction false} AnalysisSummarised(adj: set<Pair>, k: int, q: int, cliques: seq<seq<int>>, n: nat)
    requires n <= |cliques|
    ensures Summarises(adj, k, AnalysisUpTo(adj, k, q, cliques, n), KeptUpTo(q, cliques, n))
  {
    if n > 0 {
      AnalysisSummarised(adj, k, q, cliques, n - 1);
      SummarisedStep(adj, k, q, AnalysisUpTo(adj, k, q, cliques, n - 1), KeptUpTo(q, cliques, n - 1), cliques[n - 1],
        AnalysisUpTo(adj, k, q, cliques, n), KeptUpTo(q, cliques, n));
    }
  }

  /** The loop fails with AssertionError exactly when a kept clique lacks
      more than k pairs; otherwise it records every kept clique in order,
      collects the union of their missing pairs, and counts them. */
  lemma AnalysisSpec(adj: set<Pair>, k: int, q: int, cliques: seq<seq<int>>, n: nat)
    requires n <= |cliques|
    ensures var ks := KeptUpTo(q, cliques, n);
      WithinBound(adj, k, ks) ==>
        AnalysisUpTo(adj, k, q, cliques, n) == Ok(Analysis(ReportsOf(adj, ks), UnionMissing(adj, ks), |ks|))
    ensures !WithinBound(adj, k, KeptUpTo(q, cliques, n)) ==> AnalysisUpTo(adj, k, q, cliques, n) == Err(AssertionError)
  {
    AnalysisSummarised(adj, k, q, cliques, n);
  }

  /** missing_edges holds exactly the pairs some clique of cs lacks. */
  lemma UnionMissingMembers(adj: set<Pair>, cs: seq<seq<int>>, p: Pair)
    ensures p in UnionMissing(adj, cs) <==> exists i :: 0 <= i < |cs| && p in MissingOf(adj, cs[i])
  {
    UnionOfMembers(MissingLists(adj, cs), p);
  }

  /** Rows 0 and 1 of the clique 1 2 3 in the graph with the single edge
      1-2: position 2 (node 3) is absent from both. */
  lemma RowExample(i: nat)
    requires i < 2
    ensures Row({(1, 2), (2, 1)}, [1, 2, 3], i) == [(i + 1, 3)]
  {
    var cells := Cells({(1, 2), (2, 1)}, [1, 2, 3], i);
    var none: seq<Pair> := [];
    assert cells == [none, none, [(i + 1, 3)]];
    assert cells[..2] == [none, none];
    assert cells[..2][..1] == [none];
    assert Flatten(cells[..2][..1]) == [];
    assert Flatten(cells[..2]) == [];
  }

  /** Row 2 of that clique has no column after it. */
  lemma LastRowExample()
    ensures Row({(1, 2), (2, 1)}, [1, 2, 3], 2) == []
  {
    var cells := Cells({(1, 2), (2, 1)}, [1, 2, 3], 2);
    assert cells == [[], [], []];
    FlattenAllEmpty(cells);
  }

  /** Row by row: nodes 1 and 3, then 2 and 3, are not adjacent. */
  lemma MissingOfExample()
    ensures MissingOf({(1, 2), (2, 1)}, [1, 2, 3]) == [(1, 3), (2, 3)]
  {
    RowExample(0);
    RowExample(1);
    LastRowExample();
    var rows := Rows({(1, 2), (2, 1)}, [1, 2, 3]);
    assert rows == [[(1, 3)], [(2, 3)], []];
    assert rows[..2] == [[(1, 3)], [(2, 3)]];
    assert rows[..2][..1] == [[(1, 3)]];
    assert Flatten(rows[..2][..1]) == [(1, 3)];
    assert Flatten(rows[..2]) == [(1, 3), (2, 3)];
  }

  /** In a graph with the single edge 1-2, the clique 1 2 3 lacks 1-3 and
      2-3; with q = 3 the clique 4 is skipped; k = 2 admits the clique and
      k = 1 fails the assertion. */
  lemma AnalysisExample()
    ensures MissingOf({(1, 2), (2, 1)}, [1, 2, 3]) == [(1, 3), (2, 3)]
    ensures AnalysisOf({(1, 2), (2, 1)}, 2, 3, [[1, 2, 3], [4]]) ==
      Ok(Analysis([CliqueReport([1, 2, 3], [(1, 3), (2, 3)])], {(1, 3), (2, 3)}, 1))
    ensures AnalysisOf({(1, 2), (2, 1)}, 1, 3, [[1, 2, 3], [4]]) == Err(AssertionError)
  {
    var adj, c := {(1, 2), (2, 1)}, [1, 2, 3];
    MissingOfExample();
    assert Elems([(1, 3), (2, 3)]) == {(1, 3), (2, 3)};
    var cs := [[1, 2, 3], [4]];
    assert cs[0] == c && |cs[1]| == 1;
    assert MissingOf(adj, cs[0]) == [(1, 3), (2, 3)];
    var rep := CliqueReport([1, 2, 3], [(1, 3), (2, 3)]);
    assert [] + [rep] == [rep];
    assert {} + {(1, 3), (2, 3)} == {(1, 3), (2, 3)};
    assert AnalysisUpTo(adj, 2, 3, cs, 0) == Ok(Analysis([], {}, 0));
    assert AnalysisStep(adj, 2, 3, Ok(Analysis([], {}, 0)), c) == Ok(Analysis([rep], {(1, 3), (2, 3)}, 1));
    assert AnalysisUpTo(adj, 2, 3, cs, 1) ==
      Ok(Analysis([CliqueReport([1, 2, 3], [(1, 3), (2, 3)])], {(1, 3), (2, 3)}, 1));
    assert AnalysisUpTo(adj, 1, 3, cs, 1) == Err(AssertionError);
  }
}
