/** The few pieces of Python's string handling the tools rely on:
    `str.strip()`, `str.split(sep)`, `str(int)` and `int(str)`. */
module Text {

  import opened Wrappers

  /** Python's `str.isspace()` for one character: the characters that
      `str.strip()` with no argument removes. */
  predicate IsSpace(c: char) {
    || c == ' '
    || '\t' <= c <= '\r'
    || '\U{1c}' <= c <= '\U{1f}'
    || c == '\U{85}' || c == '\U{a0}' || c == '\U{1680}'
    || '\U{2000}' <= c <= '\U{200a}'
    || c == '\U{2028}' || c == '\U{2029}' || c == '\U{202f}'
    || c == '\U{205f}' || c == '\U{3000}'
  }

  /** The first index from `i` on that does not hold white space, or `|s|`. */
  function SkipSpace(s: string, i: nat): (j: nat)
    requires i <= |s|
    ensures i <= j <= |s| && (j < |s| ==> !IsSpace(s[j]))
    ensures forall k :: i <= k < j ==> IsSpace(s[k])
    decreases |s| - i
  {
    if i < |s| && IsSpace(s[i]) then SkipSpace(s, i + 1) else i
  }

  /** Going down from `j` to no lower than `lo`, the first index whose
      predecessor does not hold white space, or `lo`. */
  function SkipSpaceBack(s: string, lo: nat, j: nat): (e: nat)
    requires lo <= j <= |s|
    ensures lo <= e <= j && (e > lo ==> !IsSpace(s[e - 1]))
    ensures forall k :: e <= k < j ==> IsSpace(s[k])
    decreases j - lo
  {
    if j > lo && IsSpace(s[j - 1]) then SkipSpaceBack(s, lo, j - 1) else j
  }

  /** `SkipSpace` stops at the first index that does not hold white space. */
  lemma {:induction false} SkipSpaceIs(s: string, i: nat, j: nat)
    requires i <= j <= |s| && (j < |s| ==> !IsSpace(s[j]))
    requires forall k :: i <= k < j ==> IsSpace(s[k])
    ensures SkipSpace(s, i) == j
    decreases j - i
  {
    if i < j {
      SkipSpaceIs(s, i + 1, j);
    }
  }

  /** `SkipSpaceBack` stops after the last index that does not hold white space. */
  lemma {:induction false} SkipSpaceBackIs(s: string, lo: nat, j: nat, e: nat)
    requires lo <= e <= j <= |s| && (e > lo ==> !IsSpace(s[e - 1]))
    requires forall k :: e <= k < j ==> IsSpace(s[k])
    ensures SkipSpaceBack(s, lo, j) == e
    decreases j - e
  {
    if e < j {
      SkipSpaceBackIs(s, lo, j - 1, e);
    }
  }

  /** Python's `s.strip()`: the white space at both ends cut off. */
  function Strip(s: string): string {
    var i := SkipSpace(s, 0);
    s[i..SkipSpaceBack(s, i, |s|)]
  }

  /** `Strip(s)` is a slice `s[i..j]` with only white space before `i` and
      from `j` on, and it neither starts nor ends with white space. */
  lemma StripIsTrimmedSlice(s: string)
    ensures var i := SkipSpace(s, 0);
            var j := SkipSpaceBack(s, i, |s|);
            && 0 <= i <= j <= |s| && Strip(s) == s[i..j]
            && (forall k :: 0 <= k < i ==> IsSpace(s[k]))
            && (forall k :: j <= k < |s| ==> IsSpace(s[k]))
    ensures Strip(s) != [] ==> !IsSpace(Strip(s)[0]) && !IsSpace(Strip(s)[|Strip(s)| - 1])
  {
    var i := SkipSpace(s, 0);
    var j := SkipSpaceBack(s, i, |s|);
    assert Strip(s) == s[i..j];
  }

  /** Stripping twice changes nothing more. */
  lemma StripIdempotent(s: string)
    ensures Strip(Strip(s)) == Strip(s)
  {
    var r := Strip(s);
    StripIsTrimmedSlice(s);
    if r != [] {
      assert SkipSpace(r, 0) == 0;
      assert SkipSpaceBack(r, 0, |r|) == |r|;
      assert r[0..|r|] == r;
    }
  }

  /** Python's `s.split(c)` for a one-character separator: the pieces between
      the occurrences of `c`, always at least one. */
  function SplitOn(s: string, c: char): (r: seq<string>)
    ensures |r| >= 1
  {
    if s == [] then [[]]
    else
      var rest := SplitOn(s[1..], c);
      if s[0] == c then [[]] + rest else [[s[0]] + rest[0]] + rest[1..]
  }

  /** Python's `c.join(parts)`. */
  function JoinWith(parts: seq<string>, c: char): string
    requires |parts| >= 1
  {
    if |parts| == 1 then parts[0] else parts[0] + [c] + JoinWith(parts[1..], c)
  }

  /** No piece that `SplitOn` returns contains the separator. */
  lemma {:induction false} SplitOnPiecesLackSeparator(s: string, c: char)
    ensures forall k :: 0 <= k < |SplitOn(s, c)| ==> c !in SplitOn(s, c)[k]
  {
    if s != [] {
      SplitOnPiecesLackSeparator(s[1..], c);
    }
  }

  /** Joining the pieces with the separator gives the original string back. */
  lemma {:induction false} JoinSplitOn(s: string, c: char)
    ensures JoinWith(SplitOn(s, c), c) == s
  {
    if s != [] {
      var rest := SplitOn(s[1..], c);
      JoinSplitOn(s[1..], c);
      var r := SplitOn(s, c);
      assert s == [s[0]] + s[1..];
      if s[0] == c {
        assert r == [[]] + rest && r[1..] == rest;
        assert JoinWith(r, c) == [] + [c] + JoinWith(rest, c);
      } else if |rest| == 1 {
        assert r == [[s[0]] + rest[0]];
      } else {
        var head := [s[0]] + rest[0];
        assert r == [head] + rest[1..] && r[0] == head && r[1..] == rest[1..];
        assert JoinWith(r, c) == head + [c] + JoinWith(rest[1..], c);
        assert JoinWith(rest, c) == rest[0] + [c] + JoinWith(rest[1..], c);
      }
    }
  }

  /** Splitting a joined sequence of separator-free pieces gives the pieces back. */
  lemma {:induction false} SplitOnJoin(parts: seq<string>, c: char)
    requires |parts| >= 1
    requires forall k :: 0 <= k < |parts| ==> c !in parts[k]
    ensures SplitOn(JoinWith(parts, c), c) == parts
  {
    if |parts| == 1 {
      SplitOnFree(parts[0], c);
    } else {
      SplitOnJoin(parts[1..], c);
      var tail := [c] + JoinWith(parts[1..], c);
      SplitOnPrefix(parts[0], tail, c);
      assert tail[1..] == JoinWith(parts[1..], c);
      assert SplitOn(tail, c) == [[]] + parts[1..];
      assert SplitOn(tail, c)[0] == [] && SplitOn(tail, c)[1..] == parts[1..];
      assert parts[0] + SplitOn(tail, c)[0] == parts[0];
      assert JoinWith(parts, c) == parts[0] + tail;
      assert [parts[0]] + parts[1..] == parts;
    }
  }

  /** A string without the separator is one piece. */
  lemma {:induction false} SplitOnFree(s: string, c: char)
    requires c !in s
    ensures SplitOn(s, c) == [s]
  {
    if s != [] {
      SplitOnFree(s[1..], c);
      assert [s[0]] + s[1..] == s;
    }
  }

  /** A separator-free prefix `p` becomes the start of the first piece. */
  lemma {:induction false} SplitOnPrefix(p: string, t: string, c: char)
    requires c !in p
    ensures SplitOn(p + t, c) == [p + SplitOn(t, c)[0]] + SplitOn(t, c)[1..]
  {
    if p != [] {
      SplitOnPrefix(p[1..], t, c);
      assert (p + t)[1..] == p[1..] + t;
      assert [p[0]] + (p[1..] + SplitOn(t, c)[0]) == p + SplitOn(t, c)[0];
    } else {
      assert p + t == t;
      assert p + SplitOn(t, c)[0] == SplitOn(t, c)[0];
      assert SplitOn(t, c) == [SplitOn(t, c)[0]] + SplitOn(t, c)[1..];
    }
  }

  /** The index of the first `c` in `s`. */
  function IndexOf(s: string, c: char): (i: nat)
    requires c in s
    ensures i < |s| && s[i] == c && c !in s[..i]
  {
    if s[0] == c then 0 else 1 + IndexOf(s[1..], c)
  }

  predicate IsDigit(c: char) { '0' <= c <= '9' }

  predicate AllDigits(d: string) { forall i :: 0 <= i < |d| ==> IsDigit(d[i]) }

  function DigitChar(n: nat): (c: char)
    requires n < 10
    ensures IsDigit(c)
  {
    ('0' as int + n) as char
  }

  /** The value of a string of decimal digits, most significant first. */
  function DigitsValue(d: string): nat
    requires AllDigits(d)
  {
    if d == [] then 0
    else DigitsValue(d[..|d| - 1]) * 10 + (d[|d| - 1] as int - '0' as int)
  }

  /** Python's `str(n)` for a natural number. */
  function Decimal(n: nat): (s: string)
    ensures |s| >= 1 && AllDigits(s)
  {
    if n < 10 then [DigitChar(n)] else Decimal(n / 10) + [DigitChar(n % 10)]
  }

  /** `str(n)` is canonical: it starts with `0` only for zero itself. */
  lemma {:induction false} DecimalNoLeadingZero(n: nat)
    ensures Decimal(n)[0] == '0' <==> n == 0
  {
    if n >= 10 {
      DecimalNoLeadingZero(n / 10);
      assert Decimal(n)[0] == Decimal(n / 10)[0];
    }
  }

  /** Python's `str(i)` for any integer. */
  function IntToString(i: int): string {
    if i < 0 then "-" + Decimal(-i) else Decimal(i)
  }

  /** Python's `int(t)` on a token that has already been stripped: an optional
      sign followed by one or more decimal digits, anything else an error. */
  function ParseInt(t: string): Option<int> {
    if |t| > 0 && (t[0] == '+' || t[0] == '-') then
      match ParseNat(t[1..])
      case None => None
      case Some(v) => var x: int := v; Some(if t[0] == '-' then -x else x)
    else
      ParseNat(t)
  }

  /** One or more decimal digits, as a number. */
  function ParseNat(d: string): (r: Option<nat>)
    ensures r.Some? <==> |d| > 0 && AllDigits(d)
  {
    if |d| > 0 && AllDigits(d) then Some(DigitsValue(d)) else None
  }

  /** Reading back the decimal form of a number gives the number. */
  lemma {:induction false} DigitsValueDecimal(n: nat)
    ensures DigitsValue(Decimal(n)) == n
  {
    if n >= 10 {
      DigitsValueDecimal(n / 10);
      var d := Decimal(n);
      assert d[..|d| - 1] == Decimal(n / 10);
    }
  }

  /** `ParseInt` inverts `IntToString`. */
  lemma ParseIntToString(i: int)
    ensures ParseInt(IntToString(i)) == Some(i)
  {
    if i < 0 {
      DigitsValueDecimal(-i);
      assert IntToString(i)[1..] == Decimal(-i);
    } else {
      DigitsValueDecimal(i);
      assert IsDigit(Decimal(i)[0]);
    }
  }

  /** Different numbers have different decimal forms. */
  lemma DecimalInjective(a: nat, b: nat)
    requires Decimal(a) == Decimal(b)
    ensures a == b
  {
    DigitsValueDecimal(a);
    DigitsValueDecimal(b);
  }
}
