/** parse_res: the solver's result file becomes a list of cliques, each a
    list of node ids of the original graph. */
module ResultDecoder {
  import opened Outcomes
  import opened Sequences
  import opened Strings

  /** Python's s[i]: a negative i counts from the end, anything outside
      -|s| .. |s|-1 raises IndexError (None here). */
  function PyIndex<T>(s: seq<T>, i: int): (r: Option<T>)
    ensures r.Some? <==> -|s| <= i < |s|
    ensures r.Some? ==> exists j :: 0 <= j < |s| && (j == i || j == |s| + i) && r.value == s[j]
  {
    if 0 <= i < |s| then Some(s[i])
    else if -|s| <= i < 0 then Some(s[|s| + i])
    else None
  }

  // ---- the dictionary from values of the second mapping to positions ----

  /** The dictionary from each value of raw to its position; a value that
      occurs more than once keeps its last position. */
  function PositionOf(raw: seq<int>): (m: map<int, nat>)
    ensures forall v :: v in m <==> v in raw
    ensures forall v :: v in m ==> m[v] < |raw| && raw[m[v]] == v
  {
    if raw == [] then map[]
    else PositionOf(raw[..|raw| - 1])[raw[|raw| - 1] := |raw| - 1]
  }

  /** The position kept for a value is its last one. */
  lemma {:induction false} PositionOfLast(raw: seq<int>, v: int, j: nat)
    requires v in PositionOf(raw) && PositionOf(raw)[v] < j < |raw|
    ensures raw[j] != v
  {
    var init := raw[..|raw| - 1];
    if v != raw[|raw| - 1] && j < |raw| - 1 {
      PositionOfLast(init, v, j);
    }
  }

  // ---- reading that dictionary back at 0, 1, ..., n-1 ----

  /** Look up 0, 1, ..., n-1 in turn; KeyError at the first that is missing. */
  function LookupRange(m: map<int, nat>, n: nat): (r: Result<seq<nat>>)
    ensures r.Ok? <==> forall i :: 0 <= i < n ==> i in m
    ensures r.Ok? ==> |r.value| == n
    ensures r.Ok? ==> forall i :: 0 <= i < n ==> r.value[i] == m[i]
    ensures r.Err? ==> r.error == KeyError
  {
    if n == 0 then Ok([])
    else
      match LookupRange(m, n - 1)
      case Err(e) => Err(e)
      case Ok(s) => if n - 1 in m then Ok(s + [m[n - 1]]) else Err(KeyError)
  }

  /** The second mapping line, inverted as parse_res does it. */
  function Invert(raw: seq<int>): (r: Result<seq<nat>>)
    ensures r.Err? ==> r.error == KeyError
    ensures r.Ok? ==> |r.value| == |raw| && forall i :: 0 <= i < |raw| ==> r.value[i] < |raw| && raw[r.value[i]] == i
  {
    LookupRange(PositionOf(raw), |raw|)
  }

  /** raw lists each of 0 .. |raw|-1 exactly once. */
  predicate IsPermutation(raw: seq<int>) {
    Elems(raw) == Range(|raw|)
  }

  /** A permutation is a list of distinct values in range, and conversely. */
  lemma PermutationDistinct(raw: seq<int>)
    ensures IsPermutation(raw) <==> Distinct(raw) && forall j :: 0 <= j < |raw| ==> 0 <= raw[j] < |raw|
  {
    CardElems(raw);
    RangeCard(|raw|);
    RangeIs(|raw|);
    if IsPermutation(raw) {
      forall j | 0 <= j < |raw| ensures 0 <= raw[j] < |raw| {
        assert raw[j] in Elems(raw);
      }
    }
    if Distinct(raw) && forall j :: 0 <= j < |raw| ==> 0 <= raw[j] < |raw| {
      assert Elems(raw) <= Range(|raw|);
      SubsetSameCard(Elems(raw), Range(|raw|));
    }
  }

  /** raw is a permutation as soon as it contains every one of 0 .. |raw|-1. */
  lemma CoveringIsPermutation(raw: seq<int>)
    ensures Range(|raw|) <= Elems(raw) <==> IsPermutation(raw)
  {
    CardElems(raw);
    RangeCard(|raw|);
    RangeIs(|raw|);
    if Range(|raw|) <= Elems(raw) {
      SubsetCard(Range(|raw|), Elems(raw));
      SubsetSameCard(Range(|raw|), Elems(raw));
    }
  }

  /** The inversion succeeds exactly when raw is a permutation, and raises
      KeyError otherwise. */
  lemma InvertOkIff(raw: seq<int>)
    ensures Invert(raw).Ok? <==> IsPermutation(raw)
    ensures Invert(raw).Err? ==> Invert(raw).error == KeyError
  {
    var m := PositionOf(raw);
    assert Invert(raw).Ok? <==> forall i :: 0 <= i < |raw| ==> i in m;
    assert (forall i :: 0 <= i < |raw| ==> i in m) <==> Range(|raw|) <= Elems(raw) by {
      if forall i :: 0 <= i < |raw| ==> i in m {
        forall x | x in Range(|raw|) ensures x in Elems(raw) {
          RangeMembers(|raw|, x);
          assert x in m;
        }
      }
      if Range(|raw|) <= Elems(raw) {
        forall i | 0 <= i < |raw| ensures i in m {
          RangeMembers(|raw|, i);
          assert i in Elems(raw);
        }
      }
    }
    CoveringIsPermutation(raw);
  }

  /** On success the inversion is the inverse permutation of raw. */
  lemma InvertIsInverse(raw: seq<int>, c: seq<nat>)
    requires Invert(raw) == Ok(c)
    ensures |c| == |raw|
    ensures forall i :: 0 <= i < |c| ==> c[i] < |raw| && raw[c[i]] == i
    ensures forall j :: 0 <= j < |raw| ==> 0 <= raw[j] < |c| && c[raw[j]] == j
    ensures IsPermutation(c)
  {
    var n := |raw|;
    var m := PositionOf(raw);
    InvertOkIff(raw);
    PermutationDistinct(raw);
    forall j | 0 <= j < n ensures c[raw[j]] == j {
      assert raw[j] in m;
      assert raw[m[raw[j]]] == raw[j];
    }
    forall i | 0 <= i < n ensures 0 <= c[i] < n {
      RangeMembers(n, i);
    }
    forall i, i' | 0 <= i < i' < n ensures c[i] != c[i'] {
      assert raw[c[i]] == i && raw[c[i']] == i';
    }
    PermutationDistinct(c);
  }

  // ---- a solver node through both mappings ----

  /** The original id of the solver's node u: the entry of the first mapping
      at the position the inverted second mapping holds for u. */
  function Through(m1: seq<int>, m2: seq<nat>, u: int): (r: Option<int>)
    ensures r.Some? <==> -|m2| <= u < |m2| && -|m1| <= m2[if u < 0 then |m2| + u else u] < |m1|
    ensures r.Some? ==> r.value in m1
  {
    match PyIndex(m2, u)
    case None => None
    case Some(x) => PyIndex(m1, x)
  }

  /** Every node of a clique line through both mappings; IndexError when
      one of them has no such position. */
  function Translate(us: seq<int>, m1: seq<int>, m2: seq<nat>): (r: Result<seq<int>>)
    ensures r.Ok? <==> forall j :: 0 <= j < |us| ==> Through(m1, m2, us[j]).Some?
    ensures r.Ok? ==> |r.value| == |us|
    ensures r.Ok? ==> forall j :: 0 <= j < |us| ==> Through(m1, m2, us[j]) == Some(r.value[j])
    ensures r.Err? ==> r.error == IndexError
  {
    if us == [] then Ok([])
    else
      match Translate(us[..|us| - 1], m1, m2)
      case Err(e) => Err(e)
      case Ok(vs) =>
        match Through(m1, m2, us[|us| - 1])
        case None => Err(IndexError)
        case Some(v) => Ok(vs + [v])
  }

  /** One line after the header: IndexError for an empty string (l[0]),
      None for a line starting with '#', which ends the list, and the
      translated clique otherwise. */
  function DecodeLine(l: string, m1: seq<int>, m2: seq<nat>): (r: Result<Option<seq<int>>>)
    ensures r == Ok(None) <==> l != [] && l[0] == '#'
    ensures r.Err? ==> r.error == IndexError || r.error == ValueError
  {
    if l == [] then Err(IndexError)
    else if l[0] == '#' then Ok(None)
    else
      match IntTokens(l)
      case Err(e) => Err(e)
      case Ok(us) =>
        match Translate(us, m1, m2)
        case Err(e) => Err(e)
        case Ok(c) => Ok(Some(c))
  }

  /** DecodeLine applied to every line. */
  function LineOutcomes(lines: seq<string>, m1: seq<int>, m2: seq<nat>): (os: seq<Result<Option<seq<int>>>>)
    ensures |os| == |lines|
    ensures forall j :: 0 <= j < |lines| ==> os[j] == DecodeLine(lines[j], m1, m2)
  {
    seq(|lines|, j requires 0 <= j < |lines| => DecodeLine(lines[j], m1, m2))
  }

  /** The cliques of the outcomes i, i+1, ... up to the first '#' line or
      the end; the first failing line before that is the error. */
  function Collect(os: seq<Result<Option<seq<int>>>>, i: nat): (r: Result<seq<seq<int>>>)
    requires i <= |os|
    ensures r.Err? ==> exists j :: i <= j < |os| && os[j] == Err(r.error)
    decreases |os| - i
  {
    if i == |os| then Ok([])
    else
      match os[i]
      case Err(e) => Err(e)
      case Ok(None) => Ok([])
      case Ok(Some(c)) =>
        match Collect(os, i + 1)
        case Err(e) => Err(e)
        case Ok(cs) => Ok([c] + cs)
  }

  /** The cliques of lines i, i+1, ... up to the first '#' line or the end. */
  function DecodeCliques(lines: seq<string>, i: nat, m1: seq<int>, m2: seq<nat>): (r: Result<seq<seq<int>>>)
    requires i <= |lines|
    ensures r.Err? ==> r.error == IndexError || r.error == ValueError
  {
    Collect(LineOutcomes(lines, m1, m2), i)
  }

  /** The whole of parse_res. */
  function DecodeResult(lines: seq<string>): (r: Result<seq<seq<int>>>)
    ensures r.Err? && r.error.IncompleteResult? <==> |lines| < 11
    ensures r.Err? && r.error.IncompleteResult? ==> r.error.lineCount == |lines|
  {
    if |lines| < 11 then Err(IncompleteResult(|lines|))
    else
      match IntTokens(lines[3])
      case Err(e) => Err(e)
      case Ok(m1) =>
        match IntTokens(lines[7])
        case Err(e) => Err(e)
        case Ok(raw) =>
          match Invert(raw)
          case Err(e) => Err(e)
          case Ok(m2) => DecodeCliques(lines, 10, m1, m2)
  }

  /** cs is what the outcomes i, i+1, ... collect to: one clique per
      outcome before the first '#' line, or before the end. */
  ghost predicate Collects(os: seq<Result<Option<seq<int>>>>, i: nat, cs: seq<seq<int>>) {
    && i + |cs| <= |os|
    && (forall j :: 0 <= j < |cs| ==> os[i + j] == Ok(Some(cs[j])))
    && (i + |cs| == |os| || os[i + |cs|] == Ok(None))
  }

  lemma {:induction false} CollectSound(os: seq<Result<Option<seq<int>>>>, i: nat, cs: seq<seq<int>>)
    requires i <= |os|
    requires Collect(os, i) == Ok(cs)
    ensures Collects(os, i, cs)
    decreases |os| - i
  {
    if i < |os| && os[i] != Ok(None) {
      var rest := Collect(os, i + 1).value;
      assert cs == [os[i].value.value] + rest;
      CollectSound(os, i + 1, rest);
      forall j | 0 <= j < |cs| ensures os[i + j] == Ok(Some(cs[j])) {
        if j > 0 {
          assert cs[j] == rest[j - 1] && i + j == (i + 1) + (j - 1);
        }
      }
    }
  }

  lemma {:induction false} CollectComplete(os: seq<Result<Option<seq<int>>>>, i: nat, cs: seq<seq<int>>)
    requires i <= |os|
    requires Collects(os, i, cs)
    ensures Collect(os, i) == Ok(cs)
    decreases |os| - i
  {
    if cs != [] {
      var rest := cs[1..];
      assert os[i + 0] == Ok(Some(cs[0]));
      forall j | 0 <= j < |rest| ensures os[(i + 1) + j] == Ok(Some(rest[j])) {
        assert (i + 1) + j == i + (j + 1) && rest[j] == cs[j + 1];
      }
      CollectComplete(os, i + 1, rest);
      assert [cs[0]] + rest == cs;
    }
  }

  /** cs is what lines i, i+1, ... decode to: one clique per line before
      the first '#' line, or before the end of the file. */
  ghost predicate Decodes(lines: seq<string>, i: nat, m1: seq<int>, m2: seq<nat>, cs: seq<seq<int>>) {
    && i + |cs| <= |lines|
    && (forall j :: 0 <= j < |cs| ==> DecodeLine(lines[i + j], m1, m2) == Ok(Some(cs[j])))
    && (i + |cs| == |lines| || DecodeLine(lines[i + |cs|], m1, m2) == Ok(None))
  }

  /** The clique list is exactly the decoded lines before the first '#'. */
  lemma DecodeCliquesIff(lines: seq<string>, i: nat, m1: seq<int>, m2: seq<nat>, cs: seq<seq<int>>)
    requires i <= |lines|
    ensures DecodeCliques(lines, i, m1, m2) == Ok(cs) <==> Decodes(lines, i, m1, m2, cs)
  {
    var os := LineOutcomes(lines, m1, m2);
    assert Decodes(lines, i, m1, m2, cs) <==> Collects(os, i, cs);
    if Collect(os, i) == Ok(cs) {
      CollectSound(os, i, cs);
    }
    if Collects(os, i, cs) {
      CollectComplete(os, i, cs);
    }
  }

  /** A clique line decodes, position by position, to the original ids
      of its tokens: as many as there are tokens, in the same order. */
  lemma DecodeLineClique(l: string, m1: seq<int>, m2: seq<nat>, c: seq<int>)
    requires DecodeLine(l, m1, m2) == Ok(Some(c))
    ensures l != [] && l[0] != '#' && IntTokens(l).Ok?
    ensures |c| == |IntTokens(l).value|
    ensures forall j :: 0 <= j < |c| ==> Through(m1, m2, IntTokens(l).value[j]) == Some(c[j])
  {
    var us := IntTokens(l).value;
    assert Translate(us, m1, m2) == Ok(c);
  }

  /** Every clique comes from its own line, so there are at most as many
      cliques as lines after the header; the first line starting with '#'
      ends the list. */
  lemma DecodeResultCount(lines: seq<string>, cs: seq<seq<int>>)
    requires DecodeResult(lines) == Ok(cs)
    ensures |lines| >= 11 && |cs| <= |lines| - 10
    ensures forall k :: 10 <= k < 10 + |cs| ==> lines[k] != [] && lines[k][0] != '#'
    ensures 10 + |cs| < |lines| ==> lines[10 + |cs|] != [] && lines[10 + |cs|][0] == '#'
  {
    var m1, m2 := IntTokens(lines[3]).value, Invert(IntTokens(lines[7]).value).value;
    assert DecodeCliques(lines, 10, m1, m2) == Ok(cs);
    DecodeCliquesIff(lines, 10, m1, m2, cs);
    forall k | 10 <= k < 10 + |cs| ensures lines[k] != [] && lines[k][0] != '#' {
      assert DecodeLine(lines[10 + (k - 10)], m1, m2) == Ok(Some(cs[k - 10]));
      DecodeLineClique(lines[k], m1, m2, cs[k - 10]);
    }
  }

  /** A clique line contributes its clique in front of the rest. */
  lemma DecodeCliquesStep(lines: seq<string>, i: nat, m1: seq<int>, m2: seq<nat>, acc: seq<seq<int>>, c: seq<int>)
    requires i < |lines|
    requires DecodeLine(lines[i], m1, m2) == Ok(Some(c))
    ensures Prepend(acc, DecodeCliques(lines, i, m1, m2)) == Prepend(acc + [c], DecodeCliques(lines, i + 1, m1, m2))
  {
    match DecodeCliques(lines, i + 1, m1, m2) {
      case Err(_) =>
      case Ok(rest) => assert acc + ([c] + rest) == (acc + [c]) + rest;
    }
  }

  lemma PermutationExample()
    ensures IsPermutation([2, 0, 1])
  {
    var raw := [2, 0, 1];
    assert raw[1] == 0 && raw[2] == 1 && raw[0] == 2;
    RangeIs(3);
    assert forall x :: x in Range(3) ==> x in Elems(raw);
  }

  /** The second mapping line 2 0 1 inverts to 1 2 0. */
  lemma InvertExample()
    ensures Invert([2, 0, 1]) == Ok([1, 2, 0])
  {
    var raw := [2, 0, 1];
    PermutationExample();
    InvertOkIff(raw);
    var c := Invert(raw).value;
    InvertIsInverse(raw, c);
    assert raw[c[0]] == 0 && raw[c[1]] == 1 && raw[c[2]] == 2;
    assert c == [1, 2, 0];
  }

  /** 0 0 is no permutation: the dictionary keeps 0 at its last position
      and the lookup of 1 raises KeyError. */
  lemma InvertDuplicateExample()
    ensures PositionOf([0, 0]) == map[0 := 1]
    ensures Invert([0, 0]) == Err(KeyError)
  {
    assert [0, 0][..1] == [0];
    assert [0][..0] == [];
  }

  /** With mapping1 5 6 7 and the inverted mapping 1 2 0, the solver's
      nodes 0 1 2 are the graph's nodes 6 7 5, and node -1 is, as in
      Python, the last position: 5. */
  lemma TranslateExample()
    ensures Translate([0, 1, 2], [5, 6, 7], [1, 2, 0]) == Ok([6, 7, 5])
    ensures Through([5, 6, 7], [1, 2, 0], -1) == Some(5)
    ensures Translate([3], [5, 6, 7], [1, 2, 0]) == Err(IndexError)
  {
    var t := Translate([0, 1, 2], [5, 6, 7], [1, 2, 0]);
    assert Through([5, 6, 7], [1, 2, 0], 0) == Some(6);
    assert Through([5, 6, 7], [1, 2, 0], 1) == Some(7);
    assert Through([5, 6, 7], [1, 2, 0], 2) == Some(5);
    assert t.value == [6, 7, 5];
    assert Through([5, 6, 7], [1, 2, 0], 3) == None;
  }

  /** Accumulate a prefix in front of a later outcome. */
  function Prepend(acc: seq<seq<int>>, r: Result<seq<seq<int>>>): Result<seq<seq<int>>> {
    match r
    case Err(e) => Err(e)
    case Ok(cs) => Ok(acc + cs)
  }

  /** parse_res, with its loop over the clique lines. */
  method ParseRes(lines: seq<string>) returns (r: Result<seq<seq<int>>>)
    ensures r == DecodeResult(lines)
  {
    if |lines| < 11 {
      return Err(IncompleteResult(|lines|));
    }
    var m1, raw;
    match IntTokens(lines[3]) {
      case Err(e) => return Err(e);
      case Ok(xs) => m1 := xs;
    }
    match IntTokens(lines[7]) {
      case Err(e) => return Err(e);
      case Ok(xs) => raw := xs;
    }
    var m2;
    match Invert(raw) {
      case Err(e) => return Err(e);
      case Ok(c) => m2 := c;
    }
    var cliques: seq<seq<int>> := [];
    var i := 10;
    match DecodeCliques(lines, 10, m1, m2) {
      case Err(_) =>
      case Ok(cs) => assert [] + cs == cs;
    }
    while i < |lines|
      invariant 10 <= i <= |lines|
      invariant DecodeCliques(lines, 10, m1, m2) == Prepend(cliques, DecodeCliques(lines, i, m1, m2))
      decreases |lines| - i
    {
      var l := lines[i];
      if l == [] {
        return Err(IndexError);
      }
      if l[0] == '#' {
        assert DecodeCliques(lines, i, m1, m2) == Ok([]);
        break;
      }
      match IntTokens(l) {
        case Err(e) => return Err(e);
        case Ok(us) =>
          match Translate(us, m1, m2) {
            case Err(e) => return Err(e);
            case Ok(clique) =>
              assert DecodeLine(l, m1, m2) == Ok(Some(clique));
              DecodeCliquesStep(lines, i, m1, m2, cliques, clique);
              cliques := cliques + [clique];
          }
      }
      i := i + 1;
    }
    assert DecodeCliques(lines, i, m1, m2) == Ok([]) by {
      if i < |lines| {
        assert DecodeLine(lines[i], m1, m2) == Ok(None);
      }
    }
    assert cliques + [] == cliques;
    return Ok(cliques);
  }
}
