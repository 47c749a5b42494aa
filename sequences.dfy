/** Facts about the elements of a sequence that several components rely on:
    the set of its elements, duplicate-freedom, and the cardinality bounds
    that relate the two (the pigeonhole principle in the form needed here). */
module Sequences {

  function Elems<T>(s: seq<T>): set<T> {
    set x | x in s
  }

  predicate Distinct<T(==)>(s: seq<T>) {
    forall i, j :: 0 <= i < j < |s| ==> s[i] != s[j]
  }

  /** The integers 0 <= i < n. */
  function Range(n: nat): set<int> {
    if n == 0 then {} else Range(n - 1) + {n - 1}
  }

  lemma {:induction false} RangeMembers(n: nat, i: int)
    ensures i in Range(n) <==> 0 <= i < n
  {
    if n > 0 {
      RangeMembers(n - 1, i);
    }
  }

  /** A sequence has at most as many distinct elements as it is long, and
      exactly as many precisely when it has no duplicates. */
  lemma {:induction false} CardElems<T>(s: seq<T>)
    ensures |Elems(s)| <= |s|
    ensures |Elems(s)| == |s| <==> Distinct(s)
  {
    if s != [] {
      var p, x := s[..|s| - 1], s[|s| - 1];
      assert s == p + [x];
      assert Elems(s) == Elems(p) + {x};
      CardElems(p);
      if x in Elems(p) {
        assert Elems(s) == Elems(p);
        var i :| 0 <= i < |p| && p[i] == x;
        assert s[i] == s[|s| - 1];
      } else {
        assert |Elems(s)| == |Elems(p)| + 1;
        if Distinct(p) {
          forall i, j | 0 <= i < j < |s| ensures s[i] != s[j] {
            if j == |s| - 1 {
              assert s[i] == p[i];
            } else {
              assert s[i] == p[i] && s[j] == p[j];
            }
          }
        } else {
          var i, j :| 0 <= i < j < |p| && p[i] == p[j];
          assert s[i] == s[j];
        }
      }
    }
  }

  lemma RangeIs(n: nat)
    ensures forall i :: i in Range(n) <==> 0 <= i < n
  {
    forall i {
      RangeMembers(n, i);
    }
  }

  lemma {:induction false} RangeCard(n: nat)
    ensures |Range(n)| == n
  {
    if n > 0 {
      RangeCard(n - 1);
      RangeMembers(n - 1, n - 1);
    }
  }

  /** A subset of a finite set with the same cardinality is the whole set. */
  lemma SubsetSameCard<T>(a: set<T>, b: set<T>)
    requires a <= b && |a| == |b|
    ensures a == b
  {
    assert b == a + (b - a);
    assert |b - a| == 0;
  }

  /** A subset is no larger than the set that contains it. */
  lemma SubsetCard<T>(a: set<T>, b: set<T>)
    requires a <= b
    ensures |a| <= |b|
  {
    assert b == a + (b - a);
  }

  /** The union of the elements of every sequence of xss. */
  function UnionOf<T>(xss: seq<seq<T>>): set<T> {
    if xss == [] then {} else UnionOf(xss[..|xss| - 1]) + Elems(xss[|xss| - 1])
  }

  lemma {:induction false} UnionOfMembers<T>(xss: seq<seq<T>>, x: T)
    ensures x in UnionOf(xss) <==> exists i :: 0 <= i < |xss| && x in xss[i]
  {
    if xss != [] {
      var init := xss[..|xss| - 1];
      UnionOfMembers(init, x);
      if x in UnionOf(init) {
        var i :| 0 <= i < |init| && x in init[i];
        assert xss[i] == init[i];
      }
      if exists i :: 0 <= i < |xss| && x in xss[i] {
        var i :| 0 <= i < |xss| && x in xss[i];
        if i < |init| {
          assert xss[i] == init[i];
        }
      }
    }
  }

  lemma UnionOfSnoc<T>(xss: seq<seq<T>>, xs: seq<T>)
    ensures UnionOf(xss + [xs]) == UnionOf(xss) + Elems(xs)
  {
    assert (xss + [xs])[..|xss|] == xss;
  }

  lemma ElemsConcat<T>(a: seq<T>, b: seq<T>)
    ensures Elems(a + b) == Elems(a) + Elems(b)
  {
  }

  lemma ElemsSnoc<T>(s: seq<T>, x: T)
    ensures Elems(s + [x]) == Elems(s) + {x}
  {
    assert Elems([x]) == {x};
    ElemsConcat(s, [x]);
  }

  /** Appending x to a list and adding it to the set of the list's
      elements keep the two in step. */
  lemma AppendInStep<T>(prefix: seq<T>, row: seq<T>, base: set<T>, x: T)
    ensures (prefix + row) + [x] == prefix + (row + [x])
    ensures (base + Elems(row)) + {x} == base + Elems(row + [x])
  {
    ElemsSnoc(row, x);
  }

  /** The sequences of xs one after another. */
  function Flatten<T>(xs: seq<seq<T>>): seq<T> {
    if xs == [] then [] else Flatten(xs[..|xs| - 1]) + xs[|xs| - 1]
  }

  lemma FlattenSnoc<T>(xs: seq<seq<T>>, j: nat)
    requires j < |xs|
    ensures Flatten(xs[..j + 1]) == Flatten(xs[..j]) + xs[j]
  {
    assert xs[..j + 1][..j] == xs[..j];
  }

  lemma {:induction false} FlattenAllEmpty<T>(xs: seq<seq<T>>)
    requires forall k :: 0 <= k < |xs| ==> xs[k] == []
    ensures Flatten(xs) == []
  {
    if xs != [] {
      FlattenAllEmpty(xs[..|xs| - 1]);
    }
  }

  /** An element of the flattened sequence comes from one of its parts. */
  lemma {:induction false} FlattenMember<T>(xs: seq<seq<T>>, x: T) returns (k: nat)
    requires x in Flatten(xs)
    ensures k < |xs| && x in xs[k]
  {
    var init := xs[..|xs| - 1];
    if x in Flatten(init) {
      k := FlattenMember(init, x);
      assert init[k] == xs[k];
    } else {
      k := |xs| - 1;
    }
  }

  /** Every element of every part is in the flattened sequence. */
  lemma {:induction false} MemberFlatten<T>(xs: seq<seq<T>>, k: nat, x: T)
    requires k < |xs| && x in xs[k]
    ensures x in Flatten(xs)
  {
    if k < |xs| - 1 {
      var init := xs[..|xs| - 1];
      assert init[k] == xs[k];
      MemberFlatten(init, k, x);
    }
  }
}
