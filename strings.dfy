/** The pieces of Python's str behaviour the pipeline uses: strip(), split()
    with no argument, int() of a token, str() of an int, and sep.join(). */
module Strings {
  import opened Outcomes

  /** Python's str.isspace(), character by character. */
  predicate IsSpace(c: char) {
    c in SpaceChars
  }

  /** The characters for which str.isspace() holds. */
  const SpaceChars: set<char> := {
    ' ', '\t', '\n', '\U{0B}', '\U{0C}', '\r', '\U{1C}', '\U{1D}', '\U{1E}', '\U{1F}', '\U{85}', '\U{A0}',
    '\U{1680}', '\U{2000}', '\U{2001}', '\U{2002}', '\U{2003}', '\U{2004}', '\U{2005}', '\U{2006}', '\U{2007}',
    '\U{2008}', '\U{2009}', '\U{200A}', '\U{2028}', '\U{2029}', '\U{202F}', '\U{205F}', '\U{3000}'}

  predicate AllSpace(s: string) {
    forall i :: 0 <= i < |s| ==> IsSpace(s[i])
  }

  /** s.strip(): s without its leading and trailing whitespace. */
  function Strip(s: string): (r: string)
    ensures r == [] <==> AllSpace(s)
    ensures r != [] ==> !IsSpace(r[0]) && !IsSpace(r[|r| - 1])
    decreases |s|
  {
    if s != [] && IsSpace(s[0]) then Strip(s[1..])
    else if s != [] && IsSpace(s[|s| - 1]) then Strip(s[..|s| - 1])
    else s
  }

  /** Stripping a string that has no whitespace at either end changes nothing;
      in particular strip() is idempotent. */
  lemma StripTrimmed(s: string)
    requires s != [] ==> !IsSpace(s[0]) && !IsSpace(s[|s| - 1])
    ensures Strip(s) == s
  {
  }

  lemma AllSpaceConcat(x: string, y: string)
    requires AllSpace(x) && AllSpace(y)
    ensures AllSpace(x + y)
  {
    forall i | 0 <= i < |x + y| ensures IsSpace((x + y)[i]) {
      if i >= |x| {
        assert (x + y)[i] == y[i - |x|];
      }
    }
  }

  /** strip() removes a run of whitespace at each end and nothing else:
      Strip(s) is s[a..b] with only whitespace before a and after b. */
  lemma {:induction false} StripIsInfix(s: string) returns (a: nat, b: nat)
    ensures a <= b <= |s| && Strip(s) == s[a..b]
    ensures AllSpace(s[..a]) && AllSpace(s[b..])
    decreases |s|
  {
    if s != [] && IsSpace(s[0]) {
      var a', b' := StripIsInfix(s[1..]);
      InfixFront(s, a', b');
      a, b := a' + 1, b' + 1;
    } else if s != [] && IsSpace(s[|s| - 1]) {
      a, b := StripIsInfix(s[..|s| - 1]);
      InfixBack(s, a, b);
    } else {
      a, b := 0, |s|;
    }
  }

  /** Whitespace in front of an infix of the tail. */
  lemma InfixFront(s: string, a: nat, b: nat)
    requires s != [] && IsSpace(s[0])
    requires a <= b <= |s| - 1
    requires AllSpace(s[1..][..a]) && AllSpace(s[1..][b..])
    ensures s[1..][a..b] == s[a + 1..b + 1]
    ensures AllSpace(s[..a + 1]) && AllSpace(s[b + 1..])
  {
    assert s[..a + 1] == [s[0]] + s[1..][..a];
    AllSpaceConcat([s[0]], s[1..][..a]);
    assert s[b + 1..] == s[1..][b..];
  }

  /** Whitespace behind an infix of the front part. */
  lemma InfixBack(s: string, a: nat, b: nat)
    requires s != [] && IsSpace(s[|s| - 1])
    requires a <= b <= |s| - 1
    requires AllSpace(s[..|s| - 1][..a]) && AllSpace(s[..|s| - 1][b..])
    ensures s[..|s| - 1][a..b] == s[a..b]
    ensures AllSpace(s[..a]) && AllSpace(s[b..])
  {
    var t := s[..|s| - 1];
    assert s[..a] == t[..a];
    assert s[b..] == t[b..] + [s[|s| - 1]];
    AllSpaceConcat(t[b..], [s[|s| - 1]]);
  }

  /** The longest prefix of s without whitespace. */
  function Word(s: string): (w: string)
    ensures |w| <= |s| && w == s[..|w|]
    ensures forall i :: 0 <= i < |w| ==> !IsSpace(w[i])
    ensures |w| == |s| || IsSpace(s[|w|])
  {
    if s == [] || IsSpace(s[0]) then [] else [s[0]] + Word(s[1..])
  }

  predicate IsToken(t: string) {
    t != [] && forall i :: 0 <= i < |t| ==> !IsSpace(t[i])
  }

  /** s.split(): the maximal runs of non-whitespace characters, in order. */
  function Split(s: string): (r: seq<string>)
    ensures r == [] <==> AllSpace(s)
    decreases |s|
  {
    if s == [] then []
    else if IsSpace(s[0]) then Split(s[1..])
    else
      var w := Word(s);
      [w] + Split(s[|w|..])
  }

  /** Every piece split() returns is a non-empty run without whitespace. */
  lemma {:induction false} SplitTokens(s: string)
    ensures forall k :: 0 <= k < |Split(s)| ==> IsToken(Split(s)[k])
    decreases |s|
  {
    if s != [] {
      if IsSpace(s[0]) {
        SplitTokens(s[1..]);
      } else {
        SplitTokens(s[|Word(s)|..]);
      }
    }
  }

  lemma {:induction false} WordAppendSpace(s: string, c: char)
    requires IsSpace(c)
    ensures Word(s + [c]) == Word(s)
  {
    if s == [] {
      assert s + [c] == [c];
    } else if !IsSpace(s[0]) {
      assert (s + [c])[1..] == s[1..] + [c];
      WordAppendSpace(s[1..], c);
    }
  }

  /** Trailing whitespace, such as the newline ending a line, does not
      change what split() returns. */
  lemma {:induction false} SplitTrailingSpace(s: string, c: char)
    requires IsSpace(c)
    ensures Split(s + [c]) == Split(s)
    decreases |s|
  {
    if s == [] {
      assert s + [c] == [c];
      assert [c][1..] == [];
    } else if IsSpace(s[0]) {
      assert (s + [c])[1..] == s[1..] + [c];
      SplitTrailingSpace(s[1..], c);
    } else {
      var w := Word(s);
      WordAppendSpace(s, c);
      assert (s + [c])[|w|..] == s[|w|..] + [c];
      SplitTrailingSpace(s[|w|..], c);
    }
  }

  lemma {:induction false} SplitTrailingSpaces(s: string, t: string)
    requires AllSpace(t)
    ensures Split(s + t) == Split(s)
    decreases |t|
  {
    if t != [] {
      var p := t[..|t| - 1];
      assert s + t == (s + p) + [t[|t| - 1]];
      SplitTrailingSpace(s + p, t[|t| - 1]);
      SplitTrailingSpaces(s, p);
    } else {
      assert s + t == s;
    }
  }

  lemma {:induction false} SplitLeadingSpaces(t: string, s: string)
    requires AllSpace(t)
    ensures Split(t + s) == Split(s)
    decreases |t|
  {
    if t != [] {
      assert (t + s)[1..] == t[1..] + s;
      SplitLeadingSpaces(t[1..], s);
    } else {
      assert t + s == s;
    }
  }

  /** split() already ignores surrounding whitespace, so stripping first
      changes nothing. */
  lemma SplitStrip(s: string)
    ensures Split(Strip(s)) == Split(s)
  {
    var a, b := StripIsInfix(s);
    assert s == s[..a] + (s[a..b] + s[b..]);
    SplitLeadingSpaces(s[..a], s[a..b] + s[b..]);
    SplitTrailingSpaces(s[a..b], s[b..]);
  }

  /** sep.join(parts). */
  function Join(sep: string, parts: seq<string>): string
    decreases |parts|
  {
    if |parts| == 0 then ""
    else if |parts| == 1 then parts[0]
    else parts[0] + sep + Join(sep, parts[1..])
  }

  /** s.split(c) for a one-character separator: never empty. */
  function SplitOn(s: string, c: char): (r: seq<string>)
    ensures |r| > 0
  {
    if s == [] then [""]
    else if s[0] == c then [""] + SplitOn(s[1..], c)
    else
      var rest := SplitOn(s[1..], c);
      [[s[0]] + rest[0]] + rest[1..]
  }

  lemma {:induction false} WordOfToken(t: string, rest: string)
    requires IsToken(t)
    requires rest == [] || IsSpace(rest[0])
    ensures Word(t + rest) == t
  {
    assert (t + rest)[0] == t[0];
    if |t| > 1 {
      assert (t + rest)[1..] == t[1..] + rest;
      WordOfToken(t[1..], rest);
    } else {
      assert (t + rest)[1..] == rest;
    }
  }

  /** A token followed by a space and more text splits into the token
      and the splitting of the rest. */
  lemma SplitTokenSpace(t: string, rest: string)
    requires IsToken(t)
    ensures Split(t + " " + rest) == [t] + Split(rest)
  {
    var s := t + " " + rest;
    WordOfToken(t, " " + rest);
    assert s == t + (" " + rest);
    assert s[|t|..] == " " + rest;
    assert (" " + rest)[1..] == rest;
  }

  /** A token on its own splits into itself. */
  lemma SplitToken(t: string)
    requires IsToken(t)
    ensures Split(t) == [t]
  {
    assert t + "" == t;
    WordOfToken(t, "");
    assert t[|t|..] == [];
  }

  /** Splitting the space-joined tokens gives the tokens back. */
  lemma {:induction false} SplitJoinSpaces(ts: seq<string>)
    requires forall k :: 0 <= k < |ts| ==> IsToken(ts[k])
    ensures Split(Join(" ", ts)) == ts
    decreases |ts|
  {
    if |ts| == 1 {
      SplitToken(ts[0]);
    } else if |ts| > 1 {
      SplitTokenSpace(ts[0], Join(" ", ts[1..]));
      SplitJoinSpaces(ts[1..]);
      assert ts == [ts[0]] + ts[1..];
    }
  }

  /** A character in neither the separator nor any part is not in the join. */
  lemma {:induction false} NotInJoin(c: char, sep: string, parts: seq<string>)
    requires c !in sep
    requires forall k :: 0 <= k < |parts| ==> c !in parts[k]
    ensures c !in Join(sep, parts)
    decreases |parts|
  {
    if |parts| > 1 {
      NotInJoin(c, sep, parts[1..]);
    }
  }

  lemma {:induction false} SplitOnNoSep(s: string, c: char)
    requires c !in s
    ensures SplitOn(s, c) == [s]
  {
    if s != [] {
      SplitOnNoSep(s[1..], c);
      assert s == [s[0]] + s[1..];
    }
  }

  lemma {:induction false} SplitOnPrefix(a: string, c: char, b: string)
    requires c !in a
    ensures SplitOn(a + [c] + b, c) == [a] + SplitOn(b, c)
  {
    if a == [] {
      assert a + [c] + b == [c] + b;
      assert ([c] + b)[1..] == b;
    } else {
      assert (a + [c] + b)[1..] == a[1..] + [c] + b;
      SplitOnPrefix(a[1..], c, b);
      assert a == [a[0]] + a[1..];
    }
  }

  /** Splitting on c the c-joined parts gives the parts back, provided no part
      contains c. */
  lemma {:induction false} SplitOnJoin(parts: seq<string>, c: char)
    requires |parts| > 0
    requires forall k :: 0 <= k < |parts| ==> c !in parts[k]
    ensures SplitOn(Join([c], parts), c) == parts
    decreases |parts|
  {
    if |parts| == 1 {
      SplitOnNoSep(parts[0], c);
    } else {
      SplitOnPrefix(parts[0], c, Join([c], parts[1..]));
      SplitOnJoin(parts[1..], c);
      assert parts == [parts[0]] + parts[1..];
    }
  }

  // ---- int() and str() ----

  predicate IsDigit(c: char) {
    '0' <= c <= '9'
  }

  function DigitValue(c: char): nat
    requires IsDigit(c)
  {
    (c as int) - ('0' as int)
  }

  function DigitChar(d: nat): (c: char)
    requires d < 10
    ensures IsDigit(c) && DigitValue(c) == d
  {
    ('0' as int + d) as char
  }

  predicate AllDigits(s: string) {
    forall i :: 0 <= i < |s| ==> IsDigit(s[i])
  }

  /** The digit part of a base-10 literal as int() accepts it: digits and
      underscores, starting and ending with a digit, no two underscores in a
      row. */
  predicate DigitGroups(d: string) {
    && d != [] && IsDigit(d[0]) && IsDigit(d[|d| - 1])
    && (forall i :: 0 <= i < |d| ==> IsDigit(d[i]) || d[i] == '_')
    && (forall i :: 0 <= i < |d| - 1 ==> IsDigit(d[i]) || IsDigit(d[i + 1]))
  }

  /** An integer literal as int() accepts it: an optional sign, then digit
      groups. */
  predicate IntLiteral(t: string) {
    if t != [] && (t[0] == '-' || t[0] == '+') then DigitGroups(t[1..]) else DigitGroups(t)
  }

  /** int() of the digits of a base-10 literal: digits, where a single
      underscore may stand between two digits; None for anything else. */
  function ParseDigits(d: string): Option<nat>
    decreases |d|
  {
    if d == [] || !IsDigit(d[|d| - 1]) then None
    else
      var v, p := DigitValue(d[|d| - 1]), d[..|d| - 1];
      if p == [] then Some(v)
      else
        var q := if p[|p| - 1] == '_' then p[..|p| - 1] else p;
        match ParseDigits(q)
        case None => None
        case Some(n) => Some(10 * n + v)
  }

  /** ParseDigits succeeds exactly on digit groups. */
  lemma {:induction false} ParseDigitsSome(d: string)
    ensures ParseDigits(d).Some? <==> DigitGroups(d)
    decreases |d|
  {
    if d != [] && IsDigit(d[|d| - 1]) && |d| > 1 {
      var p := d[..|d| - 1];
      var q := if p[|p| - 1] == '_' then p[..|p| - 1] else p;
      ParseDigitsSome(q);
      assert forall i :: 0 <= i < |q| ==> q[i] == d[i];
      if DigitGroups(d) {
        assert DigitGroups(q) by {
          if p[|p| - 1] == '_' {
            assert |d| >= 3 && IsDigit(d[|d| - 3]);
          }
        }
      }
      if DigitGroups(q) {
        assert DigitGroups(d);
      }
    }
  }

  /** int(t) for a token t (no surrounding whitespace): an optional sign,
      then the digits. None where Python raises ValueError. */
  function ParseInt(t: string): (r: Option<int>)
    ensures r.Some? <==> IntLiteral(t)
  {
    ParseDigitsSome(t);
    ParseDigitsSome(if t != [] then t[1..] else t);
    if t != [] && (t[0] == '-' || t[0] == '+') then
      match ParseDigits(t[1..])
      case None => None
      case Some(n) =>
        var m: int := n;
        Some(if t[0] == '-' then -m else m)
    else
      match ParseDigits(t)
      case None => None
      case Some(n) => Some(n)
  }

  /** str(n) for n >= 0: its decimal digits, no leading zero. */
  function NatToString(n: nat): (s: string)
    ensures s != [] && AllDigits(s)
    ensures |s| > 1 ==> s[0] != '0'
  {
    if n < 10 then [DigitChar(n)]
    else
      var s := NatToString(n / 10) + [DigitChar(n % 10)];
      assert s[..|s| - 1] == NatToString(n / 10);
      s
  }

  /** Decimal digits without a superfluous leading zero. */
  predicate Decimal(d: string) {
    d != [] && AllDigits(d) && (|d| > 1 ==> d[0] != '0')
  }

  /** s is spelled as str() spells n: a minus sign exactly when n is
      negative, then decimal digits without a leading zero. */
  predicate DecimalForm(s: string, n: int) {
    s != [] && (s[0] == '-' <==> n < 0) && Decimal(if n < 0 then s[1..] else s)
  }

  /** str(n). */
  function IntToString(n: int): (s: string)
    ensures IsToken(s)
    ensures DecimalForm(s, n)
  {
    if n < 0 then
      var d := NatToString(-n);
      var s := "-" + d;
      assert s[0] == '-' && s[1..] == d;
      assert forall i :: 0 <= i < |s| ==> IsDigit(s[i]) || i == 0;
      s
    else NatToString(n)
  }

  lemma {:induction false} ParseNatToString(n: nat)
    ensures ParseDigits(NatToString(n)) == Some(n)
  {
    if n >= 10 {
      var p := NatToString(n / 10);
      var s := p + [DigitChar(n % 10)];
      assert s[..|s| - 1] == p;
      ParseNatToString(n / 10);
    }
  }

  /** int(str(n)) == n: the decimal fallback name of a node reads back as
      its id. */
  lemma ParseIntToString(n: int)
    ensures ParseInt(IntToString(n)) == Some(n)
  {
    var t := IntToString(n);
    if n < 0 {
      var d := NatToString(-n);
      assert t == "-" + d;
      assert t[1..] == d;
      ParseNatToString(-n);
      assert ParseDigits(t[1..]) == Some(-n);
    } else {
      ParseNatToString(n);
      assert t == NatToString(n) && IsDigit(t[0]);
    }
  }

  /** A non-empty digit string that does not start with 0 is worth at
      least 1. */
  lemma {:induction false} DecimalPositive(d: string)
    requires d != [] && AllDigits(d) && d[0] != '0'
    ensures ParseDigits(d).Some? && ParseDigits(d).value >= 1
    decreases |d|
  {
    if |d| > 1 {
      DecimalPositive(d[..|d| - 1]);
    }
  }

  /** Two decimal digit strings of the same value are the same string. */
  lemma {:induction false} DecimalUnique(d: string, e: string)
    requires Decimal(d) && Decimal(e)
    requires ParseDigits(d).Some? && ParseDigits(d) == ParseDigits(e)
    ensures d == e
    decreases |d|
  {
    var p, q := d[..|d| - 1], e[..|e| - 1];
    if p == [] && q != [] {
      DecimalPositive(q);
    } else if p != [] && q == [] {
      DecimalPositive(p);
    } else if p != [] {
      DecimalPositive(p);
      DecimalPositive(q);
      DecimalUnique(p, q);
      assert d == p + [d[|d| - 1]] && e == q + [e[|e| - 1]];
    }
  }

  /** str(n) is the only spelling of n in its form that int() reads as n:
      no sign '+', no leading zeros, no underscores. */
  lemma DecimalFormUnique(n: int, t: string)
    requires DecimalForm(t, n) && ParseInt(t) == Some(n)
    ensures t == IntToString(n)
  {
    var s := IntToString(n);
    if n < 0 {
      assert t == "-" + t[1..];
      ParseNatToString(-n);
      assert s[1..] == NatToString(-n);
      DecimalUnique(t[1..], s[1..]);
    } else {
      ParseNatToString(n);
      DecimalUnique(t, s);
    }
  }

  // ---- the integers of a line ----

  /** int() of every token, in order: None if any token is not an int literal. */
  function ParseInts(ts: seq<string>): Option<seq<int>> {
    if ts == [] then Some([])
    else
      match ParseInts(ts[..|ts| - 1])
      case None => None
      case Some(xs) =>
        match ParseInt(ts[|ts| - 1])
        case None => None
        case Some(x) => Some(xs + [x])
  }

  /** Reading every token succeeds exactly when every token is an int
      literal, and then holds their values in order. */
  lemma {:induction false} ParseIntsSpec(ts: seq<string>)
    ensures ParseInts(ts).Some? <==> forall k :: 0 <= k < |ts| ==> ParseInt(ts[k]).Some?
    ensures ParseInts(ts).Some? ==> |ParseInts(ts).value| == |ts|
    ensures ParseInts(ts).Some? ==> forall k :: 0 <= k < |ts| ==> ParseInt(ts[k]) == Some(ParseInts(ts).value[k])
  {
    if ts != [] {
      var p := ts[..|ts| - 1];
      ParseIntsSpec(p);
      assert forall k :: 0 <= k < |p| ==> ts[k] == p[k];
    }
  }

  /** The integers of one text line, ValueError on a malformed token. */
  function IntTokens(line: string): (r: Result<seq<int>>)
    ensures r.Err? ==> r.error == ValueError
  {
    match ParseInts(Split(Strip(line)))
    case None => Err(ValueError)
    case Some(xs) => Ok(xs)
  }

  /** The decimal forms of xs. */
  function IntStrings(xs: seq<int>): (ts: seq<string>)
    ensures |ts| == |xs|
    ensures forall k :: 0 <= k < |xs| ==> ts[k] == IntToString(xs[k])
  {
    seq(|xs|, k requires 0 <= k < |xs| => IntToString(xs[k]))
  }

  /** A line of integers written space-separated, newline-terminated,
      reads back as the same integers. */
  lemma IntsLineRoundTrip(xs: seq<int>)
    ensures IntTokens(Join(" ", IntStrings(xs)) + "\n") == Ok(xs)
  {
    var ts := IntStrings(xs);
    var line := Join(" ", ts) + "\n";
    SplitStrip(line);
    SplitTrailingSpace(Join(" ", ts), '\n');
    SplitJoinSpaces(ts);
    forall k | 0 <= k < |ts| ensures ParseInt(ts[k]) == Some(xs[k]) {
      ParseIntToString(xs[k]);
    }
    ParseIntsSpec(ts);
    assert ParseInts(ts).value == xs;
  }
}
