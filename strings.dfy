/**
 * The parts of Python's `str` behaviour that the modelled scripts rely on:
 * `in`, `split`, `join`, `strip`, `lower`, `str(n)` and `int(s)`, plus the
 * `list(set(...))` idiom.
 */
module Strings {
  import opened Wrappers

  predicate StartsWith(s: string, prefix: string) {
    |prefix| <= |s| && s[..|prefix|] == prefix
  }

  /** Python's `sub in s`. */
  predicate Contains(s: string, sub: string)
    decreases |s|
  {
    StartsWith(s, sub) || (|s| > 0 && Contains(s[1..], sub))
  }

  /** sub occurs in s starting at position i. */
  predicate OccursAt(s: string, sub: string, i: int) {
    0 <= i <= |s| - |sub| && s[i..i + |sub|] == sub
  }

  /** `sub in s` holds exactly when sub occurs at some position of s. */
  lemma {:induction false} ContainsAt(s: string, sub: string)
    ensures Contains(s, sub) <==> exists i :: OccursAt(s, sub, i)
    decreases |s|
  {
    if StartsWith(s, sub) {
      assert OccursAt(s, sub, 0);
    } else if |s| > 0 {
      ContainsAt(s[1..], sub);
      if Contains(s[1..], sub) {
        var i :| OccursAt(s[1..], sub, i);
        assert s[1..][i..i + |sub|] == s[i + 1..i + 1 + |sub|];
        assert OccursAt(s, sub, i + 1);
      }
      if i :| OccursAt(s, sub, i) && i > 0 {
        assert s[1..][i - 1..i - 1 + |sub|] == s[i..i + |sub|];
        assert OccursAt(s[1..], sub, i - 1);
      }
    }
  }

  predicate Distinct<T(==)>(s: seq<T>) {
    forall i, j :: 0 <= i < j < |s| ==> s[i] != s[j]
  }

  lemma AppendAssoc<T>(a: seq<T>, b: seq<T>, c: seq<T>)
    ensures (a + b) + c == a + (b + c)
  {
  }

  // ---------------------------------------------------------------------------
  // split and join

  /**
   * Python's `s.split(sep)` for a non-empty separator: the text is cut at every
   * occurrence of `sep`, scanning left to right without overlaps.
   */
  function Split(s: string, sep: string): (parts: seq<string>)
    requires |sep| > 0
    ensures |parts| >= 1
    decreases |s|
  {
    if s == [] then [""]
    else if StartsWith(s, sep) then [""] + Split(s[|sep|..], sep)
    else
      var rest := Split(s[1..], sep);
      [[s[0]] + rest[0]] + rest[1..]
  }

  /** Python's `sep.join(parts)`. */
  function Join(parts: seq<string>, sep: string): string
    decreases |parts|
  {
    if |parts| == 0 then ""
    else if |parts| == 1 then parts[0]
    else parts[0] + sep + Join(parts[1..], sep)
  }

  lemma JoinCons(x: string, ys: seq<string>, sep: string)
    ensures Join([x] + ys, sep) == if ys == [] then x else x + sep + Join(ys, sep)
  {
    assert ([x] + ys)[1..] == ys;
  }

  /** Text in b is still there when more text comes in front. */
  lemma {:induction false} ContainsSuffix(a: string, b: string, sub: string)
    requires Contains(b, sub)
    ensures Contains(a + b, sub)
    decreases |a|
  {
    if a == [] {
      assert a + b == b;
    } else {
      assert (a + b)[1..] == a[1..] + b;
      ContainsSuffix(a[1..], b, sub);
    }
  }

  /** Every part of a join occurs in the joined text. */
  lemma JoinHoldsMembers(parts: seq<string>, sep: string)
    ensures forall x :: x in parts ==> Contains(Join(parts, sep), x)
  {
    JoinHoldsParts(parts, sep);
    forall x | x in parts ensures Contains(Join(parts, sep), x) {
      var k :| 0 <= k < |parts| && parts[k] == x;
    }
  }

  lemma {:induction false} JoinHoldsParts(parts: seq<string>, sep: string)
    ensures forall k :: 0 <= k < |parts| ==> Contains(Join(parts, sep), parts[k])
    decreases |parts|
  {
    if parts != [] {
      var j := Join(parts, sep);
      var rest := parts[1..];
      JoinCons(parts[0], rest, sep);
      assert [parts[0]] + rest == parts;
      if rest == [] {
        assert StartsWith(j, parts[0]);
      } else {
        assert j == parts[0] + (sep + Join(rest, sep));
        assert j[..|parts[0]|] == parts[0];
        assert StartsWith(j, parts[0]);
        JoinHoldsParts(rest, sep);
        forall k | 1 <= k < |parts| ensures Contains(j, parts[k]) {
          assert rest[k - 1] == parts[k];
          ContainsSuffix(parts[0] + sep, Join(rest, sep), parts[k]);
          assert parts[0] + sep + Join(rest, sep) == j;
        }
      }
    }
  }

  /** Putting a character in front of the first part puts it in front of the joined text. */
  lemma JoinPrepend(c: char, parts: seq<string>, sep: string)
    requires parts != []
    ensures Join([[c] + parts[0]] + parts[1..], sep) == [c] + Join(parts, sep)
  {
    var x := [c] + parts[0];
    JoinCons(x, parts[1..], sep);
    assert [parts[0]] + parts[1..] == parts;
    JoinCons(parts[0], parts[1..], sep);
    if parts[1..] != [] {
      assert x + sep + Join(parts[1..], sep) == [c] + (parts[0] + sep + Join(parts[1..], sep));
    }
  }

  /** Joining the pieces of a split with the same separator gives the text back. */
  lemma {:induction false} JoinSplit(s: string, sep: string)
    requires |sep| > 0
    ensures Join(Split(s, sep), sep) == s
    decreases |s|
  {
    if s == [] {
    } else if StartsWith(s, sep) {
      var tail := s[|sep|..];
      var rest := Split(tail, sep);
      assert Split(s, sep) == [""] + rest;
      JoinSplit(tail, sep);
      JoinCons("", rest, sep);
      assert "" + sep + tail == sep + tail;
      assert s == s[..|sep|] + tail;
    } else {
      var tail := s[1..];
      JoinSplit(tail, sep);
      JoinPrepend(s[0], Split(tail, sep), sep);
      assert s == [s[0]] + tail;
    }
  }

  /** No occurrence of `sep` starts in `s` at an index below `n`. */
  predicate NoMatchBefore(s: string, sep: string, n: nat) {
    forall i :: 0 <= i < n && i <= |s| ==> !StartsWith(s[i..], sep)
  }

  lemma {:induction false} SplitConcat(a: string, b: string, sep: string)
    requires |sep| > 0
    requires NoMatchBefore(a + sep + b, sep, |a|)
    ensures Split(a + sep + b, sep) == [a] + Split(b, sep)
    decreases |a|
  {
    var s := a + sep + b;
    if a == [] {
      assert s == sep + b;
      assert s[..|sep|] == sep;
      assert s[|sep|..] == b;
    } else {
      assert s[0..] == s;
      assert !StartsWith(s, sep);
      assert s[1..] == a[1..] + sep + b;
      forall i | 0 <= i < |a[1..]| && i <= |s[1..]|
        ensures !StartsWith(s[1..][i..], sep)
      {
        assert s[1..][i..] == s[i + 1..];
      }
      SplitConcat(a[1..], b, sep);
      assert [a[0]] + a[1..] == a;
    }
  }

  lemma {:induction false} SplitWhole(a: string, sep: string)
    requires |sep| > 0
    requires NoMatchBefore(a, sep, |a|)
    ensures Split(a, sep) == [a]
    decreases |a|
  {
    if a != [] {
      assert a[0..] == a;
      assert !StartsWith(a, sep);
      forall i | 0 <= i < |a[1..]| && i <= |a[1..]|
        ensures !StartsWith(a[1..][i..], sep)
      {
        assert a[1..][i..] == a[i + 1..];
      }
      SplitWhole(a[1..], sep);
      assert Split(a, sep) == [[a[0]] + a[1..]];
      assert [a[0]] + a[1..] == a;
    }
  }

  /**
   * A piece that cannot hold, or run into, an occurrence of `sep`: it lacks the
   * separator's first character, or (for a separator whose first two
   * characters differ) its second one.
   */
  predicate FreeOf(a: string, sep: string)
    requires |sep| > 0
  {
    sep[0] !in a || (|sep| >= 2 && sep[0] != sep[1] && sep[1] !in a)
  }

  lemma FreeOfNoMatch(a: string, b: string, sep: string)
    requires |sep| > 0 && FreeOf(a, sep)
    ensures NoMatchBefore(a + sep + b, sep, |a|)
    ensures NoMatchBefore(a, sep, |a|)
  {
    var s := a + sep + b;
    forall i | 0 <= i < |a| && i <= |s| ensures !StartsWith(s[i..], sep) {
      if sep[0] !in a {
        assert s[i..][0] == a[i];
      } else if i + 1 < |a| {
        assert s[i..][1] == a[i + 1];
      } else {
        assert s[i..][1] == sep[0];
      }
    }
    forall i | 0 <= i < |a| && i <= |a| ensures !StartsWith(a[i..], sep) {
      if sep[0] !in a {
        assert a[i..][0] == a[i];
      } else if i + 1 < |a| {
        assert a[i..][1] == a[i + 1];
      }
    }
  }

  /** Splitting a join recovers the pieces when no piece can hold the separator. */
  lemma {:induction false} SplitJoin(parts: seq<string>, sep: string)
    requires |sep| > 0 && |parts| > 0
    requires forall k :: 0 <= k < |parts| ==> FreeOf(parts[k], sep)
    ensures Split(Join(parts, sep), sep) == parts
    decreases |parts|
  {
    if |parts| == 1 {
      FreeOfNoMatch(parts[0], "", sep);
      SplitWhole(parts[0], sep);
    } else {
      var rest := Join(parts[1..], sep);
      FreeOfNoMatch(parts[0], rest, sep);
      SplitConcat(parts[0], rest, sep);
      SplitJoin(parts[1..], sep);
      assert [parts[0]] + parts[1..] == parts;
    }
  }

  // ---------------------------------------------------------------------------
  // strip

  /** Python's `str.isspace()` for one character. */
  predicate IsSpace(c: char) {
    var n := c as int;
    (9 <= n <= 13) || (28 <= n <= 32) || n == 0x85 || n == 0xA0 || n == 0x1680
    || (0x2000 <= n <= 0x200A) || n == 0x2028 || n == 0x2029 || n == 0x202F
    || n == 0x205F || n == 0x3000
  }

  /** The number of whitespace characters `s` starts with. */
  function LeadingSpaces(s: string): (n: nat)
    ensures n <= |s|
    ensures forall i :: 0 <= i < n ==> IsSpace(s[i])
    ensures n == |s| || !IsSpace(s[n])
    decreases |s|
  {
    if s != [] && IsSpace(s[0]) then 1 + LeadingSpaces(s[1..]) else 0
  }

  /** The length of `s` without the whitespace it ends with. */
  function KeptLength(s: string): (n: nat)
    ensures n <= |s|
    ensures forall i :: n <= i < |s| ==> IsSpace(s[i])
    ensures n == 0 || !IsSpace(s[n - 1])
    decreases |s|
  {
    if s != [] && IsSpace(s[|s| - 1]) then KeptLength(s[..|s| - 1]) else |s|
  }

  /** Python's `s.strip()` with no argument. */
  function Strip(s: string): (r: string)
    ensures r == [] || (!IsSpace(r[0]) && !IsSpace(r[|r| - 1]))
  {
    var t := s[LeadingSpaces(s)..];
    t[..KeptLength(t)]
  }

  /** What `Strip` keeps is a slice of `s`, and what it removes is whitespace. */
  lemma StripSlice(s: string) returns (a: nat, b: nat)
    ensures a <= b <= |s| && Strip(s) == s[a..b]
    ensures forall i :: 0 <= i < a ==> IsSpace(s[i])
    ensures forall i :: b <= i < |s| ==> IsSpace(s[i])
  {
    a := LeadingSpaces(s);
    var t := s[a..];
    var n := KeptLength(t);
    b := a + n;
    assert Strip(s) == t[..n];
    assert t[..n] == s[a..b];
    forall i | b <= i < |s| ensures IsSpace(s[i]) {
      assert s[i] == t[i - a];
    }
  }

  lemma StripNoop(s: string)
    requires s == [] || (!IsSpace(s[0]) && !IsSpace(s[|s| - 1]))
    ensures Strip(s) == s
  {
  }

  lemma StripAfterSpace(s: string)
    requires s != [] && !IsSpace(s[0]) && !IsSpace(s[|s| - 1])
    ensures Strip(" " + s) == s
  {
    assert (" " + s)[1..] == s;
    assert LeadingSpaces(" " + s) == 1;
  }

  // ---------------------------------------------------------------------------
  // lower

  function LowerChar(c: char): char {
    if 'A' <= c <= 'Z' then (c as int + 32) as char else c
  }

  /** Python's `s.lower()`, restricted to ASCII letters. */
  function Lower(s: string): (r: string)
    ensures |r| == |s|
    ensures forall i :: 0 <= i < |s| ==> r[i] == LowerChar(s[i])
  {
    seq(|s|, i requires 0 <= i < |s| => LowerChar(s[i]))
  }

  // ---------------------------------------------------------------------------
  // str(n) and int(s)

  predicate IsDigit(c: char) {
    '0' <= c <= '9'
  }

  predicate AllDigits(d: string) {
    forall i :: 0 <= i < |d| ==> IsDigit(d[i])
  }

  function DigitChar(d: nat): (c: char)
    requires d < 10
    ensures IsDigit(c)
  {
    ('0' as int + d) as char
  }

  /** Python's `str(n)` for a natural number: its decimal digits, most significant first. */
  function NatToString(n: nat): (s: string)
    ensures |s| > 0 && AllDigits(s)
    decreases n
  {
    if n < 10 then [DigitChar(n)] else NatToString(n / 10) + [DigitChar(n % 10)]
  }

  /** The number a string of decimal digits denotes. */
  function DigitsValue(d: string): nat
    requires AllDigits(d)
    decreases |d|
  {
    if d == [] then 0
    else DigitsValue(d[..|d| - 1]) * 10 + (d[|d| - 1] as int - '0' as int)
  }

  lemma {:induction false} NatToStringValue(n: nat)
    ensures DigitsValue(NatToString(n)) == n
    decreases n
  {
    if n >= 10 {
      var s := NatToString(n);
      assert s[..|s| - 1] == NatToString(n / 10);
      NatToStringValue(n / 10);
    }
  }

  /**
   * The digit part `int()` accepts: ASCII digits, where one underscore may
   * stand between two digits.
   */
  predicate ValidDigits(d: string) {
    && |d| > 0 && IsDigit(d[0]) && IsDigit(d[|d| - 1])
    && (forall i :: 0 <= i < |d| ==> IsDigit(d[i]) || d[i] == '_')
    && (forall i :: 0 <= i < |d| - 1 ==> IsDigit(d[i]) || IsDigit(d[i + 1]))
  }

  lemma ValidDigitsChars(d: string)
    requires ValidDigits(d)
    ensures forall i :: 0 <= i < |d| ==> IsDigit(d[i]) || d[i] == '_'
  {
  }

  function DropUnderscores(d: string): (r: string)
    requires forall i :: 0 <= i < |d| ==> IsDigit(d[i]) || d[i] == '_'
    ensures AllDigits(r)
    decreases |d|
  {
    if d == [] then []
    else (if d[0] == '_' then [] else [d[0]]) + DropUnderscores(d[1..])
  }

  lemma {:induction false} DropUnderscoresOfDigits(d: string)
    requires AllDigits(d)
    ensures DropUnderscores(d) == d
    decreases |d|
  {
    if d != [] {
      DropUnderscoresOfDigits(d[1..]);
      assert [d[0]] + d[1..] == d;
    }
  }

  /**
   * Python's `int(s)`: surrounding whitespace is ignored, a sign may precede
   * the digits, and anything else is a ValueError (None here).
   */
  function ParseInt(s: string): (r: Option<int>)
    ensures r.Some? ==> Strip(s) != [] && IsDigit(Strip(s)[|Strip(s)| - 1])
    ensures r.Some? && r.value < 0 ==> Strip(s)[0] == '-'
  {
    var t := Strip(s);
    if |t| > 0 && (t[0] == '+' || t[0] == '-') then
      if ValidDigits(t[1..]) then
        ValidDigitsChars(t[1..]);
        var v: int := DigitsValue(DropUnderscores(t[1..]));
        Some(if t[0] == '-' then -v else v)
      else None
    else if ValidDigits(t) then ValidDigitsChars(t); Some(DigitsValue(DropUnderscores(t)))
    else None
  }

  /** `int(str(n)) == n` */
  lemma ParseIntOfNatToString(n: nat)
    ensures ParseInt(NatToString(n)) == Some(n)
  {
    var s := NatToString(n);
    assert IsDigit(s[0]) && IsDigit(s[|s| - 1]);
    StripNoop(s);
    assert ValidDigits(s);
    DropUnderscoresOfDigits(s);
    NatToStringValue(n);
  }

  // ---------------------------------------------------------------------------
  // list(set(xs))

  /**
   * The distinct elements of `xs`. Python's `list(set(xs))` lists them in an
   * unspecified order; this model takes the order of first occurrence.
   */
  function Unique(xs: seq<string>): (r: seq<string>)
    ensures Distinct(r)
    ensures forall x :: x in r <==> x in xs
    decreases |xs|
  {
    if xs == [] then []
    else
      var init := xs[..|xs| - 1];
      var r := Unique(init);
      assert xs == init + [xs[|xs| - 1]];
      if xs[|xs| - 1] in r then r else r + [xs[|xs| - 1]]
  }
}
