/** Node pairs, their canonical (smaller id first) form, and the ascending
    order in which Python's sorted() lists a set of tuples. */
module Pairs {
  import opened Sequences

  type Pair = (int, int)

  /** Python's tuple comparison a < b on pairs: lexicographic. */
  predicate Less(a: Pair, b: Pair) {
    a.0 < b.0 || (a.0 == b.0 && a.1 < b.1)
  }

  predicate LessEq(a: Pair, b: Pair) {
    a.0 < b.0 || (a.0 == b.0 && a.1 <= b.1)
  }

  predicate StrictlySorted(s: seq<Pair>) {
    forall i, j :: 0 <= i < j < |s| ==> Less(s[i], s[j])
  }

  /** The pair u, v written with the smaller id first. */
  function Canon(u: int, v: int): Pair {
    if u > v then (v, u) else (u, v)
  }

  /** Canon keeps both ids, orders them, and does not depend on the order
      it is given them in. */
  lemma CanonSpec(u: int, v: int)
    ensures Canon(u, v).0 <= Canon(u, v).1
    ensures multiset{Canon(u, v).0, Canon(u, v).1} == multiset{u, v}
    ensures Canon(u, v) == Canon(v, u)
  {
  }

  lemma {:induction false} MinExists(s: set<Pair>)
    requires s != {}
    ensures exists m :: m in s && forall y :: y in s ==> LessEq(m, y)
    decreases |s|
  {
    var x :| x in s;
    if s != {x} {
      MinExists(s - {x});
      var m :| m in s - {x} && forall y :: y in s - {x} ==> LessEq(m, y);
      if LessEq(x, m) {
        forall y | y in s ensures LessEq(x, y) {
          if y != x {
            assert LessEq(m, y);
          }
        }
      } else {
        assert forall y :: y in s ==> LessEq(m, y);
      }
    } else {
      assert forall y :: y in s ==> LessEq(x, y);
    }
  }

  /** The least pair of a non-empty set. */
  function MinPair(s: set<Pair>): (m: Pair)
    requires s != {}
    ensures m in s && forall y :: y in s ==> LessEq(m, y)
  {
    MinExists(s);
    var m :| m in s && forall y :: y in s ==> LessEq(m, y);
    m
  }

  /** `sorted(s)` for a set of pairs: every element once, ascending. */
  function SortedPairs(s: set<Pair>): (r: seq<Pair>)
    ensures StrictlySorted(r)
    ensures Elems(r) == s
    ensures |r| == |s|
    decreases |s|
  {
    if s == {} then []
    else
      var m := MinPair(s);
      var rest := SortedPairs(s - {m});
      SortedCons(m, rest);
      [m] + rest
  }

  lemma SortedCons(m: Pair, rest: seq<Pair>)
    requires StrictlySorted(rest)
    requires forall y :: y in rest ==> Less(m, y)
    ensures StrictlySorted([m] + rest)
    ensures Elems([m] + rest) == {m} + Elems(rest)
  {
    forall i, j | 0 <= i < j < |rest| + 1 ensures Less(([m] + rest)[i], ([m] + rest)[j]) {
      assert ([m] + rest)[j] == rest[j - 1];
      if i > 0 {
        assert ([m] + rest)[i] == rest[i - 1];
      }
    }
  }

  /** A strictly ascending sequence is determined by its set of elements,
      so SortedPairs is the only order the output can have. */
  lemma {:induction false} SortedUnique(a: seq<Pair>, b: seq<Pair>)
    requires StrictlySorted(a) && StrictlySorted(b)
    requires Elems(a) == Elems(b)
    ensures a == b
  {
    if a != [] {
      assert a[0] in Elems(a);
    }
    if b != [] {
      assert b[0] in Elems(b);
    }
    if a != [] && b != [] {
      assert a[0] in Elems(b) && b[0] in Elems(a);
      var i :| 0 <= i < |b| && b[i] == a[0];
      var j :| 0 <= j < |a| && a[j] == b[0];
      assert i == 0 && j == 0;
      assert a == [a[0]] + a[1..] && b == [b[0]] + b[1..];
      assert Elems(a[1..]) == Elems(a) - {a[0]};
      assert Elems(b[1..]) == Elems(b) - {b[0]};
      SortedUnique(a[1..], b[1..]);
    }
  }

  /** No pair occurs twice in a strictly ascending sequence. */
  lemma StrictlySortedDistinct(s: seq<Pair>)
    requires StrictlySorted(s)
    ensures Distinct(s)
  {
  }

  lemma SortedConcat(a: seq<Pair>, b: seq<Pair>)
    requires StrictlySorted(a) && StrictlySorted(b)
    requires forall x, y :: x in a && y in b ==> Less(x, y)
    ensures StrictlySorted(a + b)
  {
    forall i, j | 0 <= i < j < |a + b| ensures Less((a + b)[i], (a + b)[j]) {
      if j < |a| {
      } else if i >= |a| {
        assert (a + b)[i] == b[i - |a|] && (a + b)[j] == b[j - |a|];
      } else {
        assert (a + b)[i] in a && (a + b)[j] in b;
      }
    }
  }

  /** Flattening sorted parts, each of whose elements precedes those of the
      later parts, gives a sorted sequence. */
  lemma {:induction false} FlattenSorted(xs: seq<seq<Pair>>)
    requires forall k :: 0 <= k < |xs| ==> StrictlySorted(xs[k])
    requires forall k, l, x, y :: 0 <= k < l < |xs| && x in xs[k] && y in xs[l] ==> Less(x, y)
    ensures StrictlySorted(Flatten(xs))
  {
    if xs != [] {
      var init, last := xs[..|xs| - 1], xs[|xs| - 1];
      forall k, l, x, y | 0 <= k < l < |init| && x in init[k] && y in init[l] ensures Less(x, y) {
        assert init[k] == xs[k] && init[l] == xs[l];
      }
      forall k | 0 <= k < |init| ensures StrictlySorted(init[k]) {
        assert init[k] == xs[k];
      }
      FlattenSorted(init);
      forall x, y | x in Flatten(init) && y in last ensures Less(x, y) {
        var k := FlattenMember(init, x);
        assert init[k] == xs[k];
      }
      SortedConcat(Flatten(init), last);
    }
  }
}
