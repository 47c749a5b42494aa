/** load_adj: the edge list becomes a symmetric set of ordered pairs. */
module Adjacency {
  import opened Outcomes
  import opened Sequences
  import opened Pairs
  import opened Strings

  /** An edge-list line as load_adj reads it: None for a blank line, the
      pair (u, v) for a line of exactly two integers, and ValueError for a
      bad token or for a line that does not hold exactly two values. */
  type Entry = Result<Option<Pair>>

  function LineEdge(line: string): (r: Entry)
    ensures r.Err? ==> r.error == ValueError
    ensures r == Ok(None) <==> AllSpace(line)
  {
    if Strip(line) == [] then Ok(None)
    else
      match IntTokens(line)
      case Err(e) => Err(e)
      case Ok(xs) => if |xs| == 2 then Ok(Some((xs[0], xs[1]))) else Err(ValueError)
  }

  /** Every line of the edge list, read. */
  function Entries(lines: seq<string>): (es: seq<Entry>)
    ensures |es| == |lines|
    ensures forall i :: 0 <= i < |lines| ==> es[i] == LineEdge(lines[i])
  {
    seq(|lines|, i requires 0 <= i < |lines| => LineEdge(lines[i]))
  }

  /** One iteration of the loop of load_adj: a failure ends the run, a blank
      line changes nothing, a pair adds both of its orientations. */
  function Step(acc: Result<set<Pair>>, e: Entry): Result<set<Pair>> {
    match acc
    case Err(err) => Err(err)
    case Ok(adj) =>
      match e
      case Err(err) => Err(err)
      case Ok(None) => Ok(adj)
      case Ok(Some(p)) => Ok(adj + {(p.0, p.1), (p.1, p.0)})
  }

  /** The outcome of the loop after the first n entries. */
  function Fold(es: seq<Entry>, n: nat): Result<set<Pair>>
    requires n <= |es|
  {
    if n == 0 then Ok({}) else Step(Fold(es, n - 1), es[n - 1])
  }

  /** The outcome of load_adj on the whole edge list. */
  function AdjacencyOf(lines: seq<string>): Result<set<Pair>> {
    Fold(Entries(lines), |lines|)
  }

  ghost predicate Symmetric(adj: set<Pair>) {
    forall u, v :: (u, v) in adj <==> (v, u) in adj
  }

  /** Entry e holds the pair p, in one orientation or the other. */
  ghost predicate Holds(e: Entry, p: Pair) {
    e == Ok(Some(p)) || e == Ok(Some((p.1, p.0)))
  }

  // ---- the loop over entries ----

  /** The loop fails exactly when one of the entries read is a failure, and
      then with the error of one of them. */
  lemma {:induction false} FoldFails(es: seq<Entry>, n: nat)
    requires n <= |es|
    ensures Fold(es, n).Err? <==> exists i :: 0 <= i < n && es[i].Err?
    ensures Fold(es, n).Err? ==> exists i :: 0 <= i < n && es[i] == Err(Fold(es, n).error)
  {
    if n > 0 {
      FoldFails(es, n - 1);
    }
  }

  /** On success the set holds exactly both orientations of the pairs read. */
  lemma {:induction false} FoldMembers(es: seq<Entry>, n: nat, adj: set<Pair>)
    requires n <= |es|
    requires Fold(es, n) == Ok(adj)
    ensures forall p :: p in adj <==> exists i :: 0 <= i < n && Holds(es[i], p)
  {
    if n > 0 {
      var a0 := Fold(es, n - 1).value;
      FoldMembers(es, n - 1, a0);
      forall p ensures p in adj <==> exists i :: 0 <= i < n && Holds(es[i], p) {
        if p in adj && p !in a0 {
          assert Holds(es[n - 1], p);
        }
      }
    }
  }

  lemma {:induction false} FoldErrorPersists(es: seq<Entry>, i: nat, n: nat)
    requires i <= n <= |es|
    requires Fold(es, i).Err?
    ensures Fold(es, n) == Fold(es, i)
    decreases n - i
  {
    if i < n {
      FoldErrorPersists(es, i, n - 1);
    }
  }

  lemma IncludedEntriesFail(es: seq<Entry>, fs: seq<Entry>)
    requires Elems(es) <= Elems(fs)
    requires Fold(es, |es|).Err?
    ensures Fold(fs, |fs|).Err?
  {
    FoldFails(es, |es|);
    var i :| 0 <= i < |es| && es[i].Err?;
    assert es[i] in Elems(es);
    var j :| 0 <= j < |fs| && fs[j] == es[i];
    FoldFails(fs, |fs|);
  }

  /** Entries whose set of values is included in another's fail whenever
      the other's do, and add only pairs the other's add. */
  lemma IncludedEntries(es: seq<Entry>, fs: seq<Entry>)
    requires Elems(es) <= Elems(fs)
    ensures Fold(fs, |fs|).Ok? ==> Fold(es, |es|).Ok?
    ensures Fold(fs, |fs|).Ok? ==> Fold(es, |es|).value <= Fold(fs, |fs|).value
  {
    FoldFails(es, |es|);
    FoldFails(fs, |fs|);
    if Fold(es, |es|).Err? {
      IncludedEntriesFail(es, fs);
    }
    if Fold(fs, |fs|).Ok? {
      var a, b := Fold(es, |es|).value, Fold(fs, |fs|).value;
      FoldMembers(es, |es|, a);
      FoldMembers(fs, |fs|, b);
      forall p | p in a ensures p in b {
        var i :| 0 <= i < |es| && Holds(es[i], p);
        assert es[i] in Elems(fs);
        var j :| 0 <= j < |fs| && fs[j] == es[i];
        assert Holds(fs[j], p);
      }
    }
  }

  // ---- the same facts about lines ----

  /** load_adj fails, with ValueError, exactly when one of the lines is
      neither blank nor a pair of integers. */
  lemma AdjacencyFails(lines: seq<string>)
    ensures AdjacencyOf(lines).Err? <==> exists i :: 0 <= i < |lines| && LineEdge(lines[i]).Err?
    ensures AdjacencyOf(lines).Err? ==> AdjacencyOf(lines).error == ValueError
  {
    var es := Entries(lines);
    FoldFails(es, |lines|);
    if AdjacencyOf(lines).Err? {
      var i :| 0 <= i < |lines| && es[i] == Err(AdjacencyOf(lines).error);
      assert LineEdge(lines[i]).Err?;
    }
  }

  /** On success the set is exactly the symmetric closure of the pairs
      read: p is in it iff some line holds p or its reverse. */
  lemma AdjacencyMembers(lines: seq<string>, adj: set<Pair>, p: Pair)
    requires AdjacencyOf(lines) == Ok(adj)
    ensures p in adj <==> exists i :: 0 <= i < |lines| && Holds(LineEdge(lines[i]), p)
  {
    var es := Entries(lines);
    FoldMembers(es, |lines|, adj);
    if p in adj {
      var i :| 0 <= i < |lines| && Holds(es[i], p);
      assert Holds(LineEdge(lines[i]), p);
    }
  }

  /** Every ordered pair is present together with its reverse. */
  lemma AdjacencySymmetric(lines: seq<string>, adj: set<Pair>)
    requires AdjacencyOf(lines) == Ok(adj)
    ensures Symmetric(adj)
  {
    var es := Entries(lines);
    FoldMembers(es, |lines|, adj);
    forall u, v | (u, v) in adj ensures (v, u) in adj {
      var i :| 0 <= i < |lines| && Holds(es[i], (u, v));
      assert Holds(es[i], (v, u));
    }
  }

  lemma IncludedLinesEntries(xs: seq<string>, ys: seq<string>)
    requires forall l :: l in xs ==> l in ys
    ensures Elems(Entries(xs)) <= Elems(Entries(ys))
  {
    forall e | e in Elems(Entries(xs)) ensures e in Elems(Entries(ys)) {
      var i :| 0 <= i < |xs| && Entries(xs)[i] == e;
      assert xs[i] in ys;
      var j :| 0 <= j < |ys| && ys[j] == xs[i];
      assert Entries(ys)[j] == e;
    }
  }

  /** Two edge lists with the same lines, in whatever order and however
      often repeated, give the same result. */
  lemma SameLinesSameAdjacency(xs: seq<string>, ys: seq<string>)
    requires forall l :: l in xs <==> l in ys
    ensures AdjacencyOf(xs) == AdjacencyOf(ys)
  {
    IncludedLinesEntries(xs, ys);
    IncludedLinesEntries(ys, xs);
    var es, fs := Entries(xs), Entries(ys);
    IncludedEntries(es, fs);
    IncludedEntries(fs, es);
    if AdjacencyOf(xs).Ok? {
      assert AdjacencyOf(xs).value == AdjacencyOf(ys).value;
    } else {
      AdjacencyFails(xs);
      AdjacencyFails(ys);
    }
  }

  /** Repeating a line that is already present leaves the result unchanged. */
  lemma DuplicateLine(lines: seq<string>, i: nat)
    requires i < |lines|
    ensures AdjacencyOf(lines + [lines[i]]) == AdjacencyOf(lines)
  {
    SameLinesSameAdjacency(lines + [lines[i]], lines);
  }

  /** An iteration on a pair adds the pair and its reverse. */
  lemma FoldAdd(es: seq<Entry>, i: nat, adj: set<Pair>, u: int, v: int)
    requires i < |es| && Fold(es, i) == Ok(adj) && es[i] == Ok(Some((u, v)))
    ensures Fold(es, i + 1) == Ok(adj + {(u, v)} + {(v, u)})
  {
    assert adj + {(u, v)} + {(v, u)} == adj + {(u, v), (v, u)};
  }

  /** load_adj, reading the lines one at a time into a growing set. */
  method LoadAdj(lines: seq<string>) returns (r: Result<set<Pair>>)
    ensures r == AdjacencyOf(lines)
  {
    ghost var es := Entries(lines);
    var adj: set<Pair> := {};
    for i := 0 to |lines|
      invariant Fold(es, i) == Ok(adj)
    {
      match LineEdge(lines[i]) {
        case Ok(None) =>
        case Ok(Some(p)) =>
          var u, v := p.0, p.1;
          FoldAdd(es, i, adj, u, v);
          adj := adj + {(u, v)};
          adj := adj + {(v, u)};
        case Err(e) =>
          FoldErrorPersists(es, i + 1, |lines|);
          return Err(e);
      }
    }
    return Ok(adj);
  }

  /** A line written as "u v" with a newline reads back as the pair (u, v). */
  lemma EdgeLineRoundTrip(u: int, v: int)
    ensures LineEdge(IntToString(u) + " " + IntToString(v) + "\n") == Ok(Some((u, v)))
  {
    var a, b := IntToString(u), IntToString(v);
    var line := a + " " + b + "\n";
    assert Join(" ", IntStrings([u, v])) == a + " " + b by {
      assert IntStrings([u, v]) == [a, b];
      assert [a, b][1..] == [b];
    }
    IntsLineRoundTrip([u, v]);
    assert line[0] == a[0];
  }
}
