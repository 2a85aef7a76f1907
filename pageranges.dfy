/** `parse_page_ranges`: a comma-separated list of page numbers and
    inclusive ranges `a-b`, 1-indexed, read into a set of page numbers. */
module PageRanges {

  import opened Wrappers
  import opened Text

  const RangeMessage := "Invalid page range: "
  const BoundsMessage := "Invalid page range bounds: "
  const NumberMessage := "Invalid page number: "
  const PositiveMessage := "Invalid page number (must be >=1): "

  /** The pages from `a` to `b`, both included. */
  function Interval(a: int, b: int): (s: set<int>)
    ensures forall x :: x in s <==> a <= x <= b
    decreases b - a
  {
    if b < a then {} else Interval(a, b - 1) + {b}
  }

  /** One stripped, non-blank segment: a range `a-b` when it holds a `-`
      (split at the first one, each side stripped and read as an integer),
      else a single page number. */
  function ParseSegment(part: string): Result<set<int>> {
    if '-' in part then
      var i := IndexOf(part, '-');
      RangeSegment(part, ParseInt(Strip(part[..i])), ParseInt(Strip(part[i + 1..])))
    else
      NumberSegment(part, ParseInt(part))
  }

  /** A range segment from its two sides as read by `int()`: malformed when
      a side is not an integer, out of bounds when a side is not positive or
      the end comes before the start, otherwise the pages in between. */
  function RangeSegment(part: string, start: Option<int>, end: Option<int>): Result<set<int>> {
    if start.None? || end.None? then Err(InvalidValue(RangeMessage + part))
    else if start.value <= 0 || end.value <= 0 || end.value < start.value then
      Err(InvalidValue(BoundsMessage + part))
    else Ok(Interval(start.value, end.value))
  }

  /** A single-number segment as read by `int()`: not a number, not
      positive, or that one page. */
  function NumberSegment(part: string, n: Option<int>): Result<set<int>> {
    if n.None? then Err(InvalidValue(NumberMessage + part))
    else if n.value <= 0 then Err(InvalidValue(PositiveMessage + part))
    else Ok({n.value})
  }

  /** The segments in order: blank ones are skipped, the first bad one is the
      error, and otherwise the result is the union of the segments' pages. */
  function ParseSegments(parts: seq<string>): Result<set<int>> {
    if parts == [] then Ok({})
    else
      var part := Strip(parts[0]);
      var rest := ParseSegments(parts[1..]);
      if part == [] then rest
      else match ParseSegment(part)
        case Err(e) => Err(e)
        case Ok(s) => if rest.Err? then rest else Ok(s + rest.value)
  }

  /** The whole of `parse_page_ranges`: `None` or the empty string give
      `None`; anything else is split at the commas. */
  function PageRangesOf(pages: Option<string>): Result<Option<set<int>>> {
    if pages.None? || pages.value == "" then Ok(None)
    else match ParseSegments(SplitOn(pages.value, ','))
      case Err(e) => Err(e)
      case Ok(s) => Ok(Some(s))
  }

  /** `acc` joined to the pages of the segments that remain, or their error. */
  function Joined(acc: set<int>, r: Result<set<int>>): Result<set<int>> {
    if r.Err? then r else Ok(acc + r.value)
  }

  /** `parse_page_ranges`, accumulating into `acc` segment by segment. */
  method ParsePageRanges(pages: Option<string>) returns (r: Result<Option<set<int>>>)
    ensures r == PageRangesOf(pages)
  {
    if pages.None? || pages.value == "" {
      return Ok(None);
    }
    var parts := SplitOn(pages.value, ',');
    var acc: set<int> := {};
    assert parts[0..] == parts;
    JoinedEmpty(ParseSegments(parts));
    for i := 0 to |parts|
      invariant ParseSegments(parts) == Joined(acc, ParseSegments(parts[i..]))
    {
      SegmentsStep(parts, i, acc);
      var part := Strip(parts[i]);
      if part == [] {
        continue;
      }
      var seg := ParseSegment(part);
      if seg.Err? {
        return Err(seg.error);
      }
      acc := acc + seg.value;
    }
    assert parts[|parts|..] == [];
    return Ok(Some(acc));
  }

  lemma JoinedEmpty(r: Result<set<int>>)
    ensures Joined({}, r) == r
  {
    if r.Ok? {
      assert {} + r.value == r.value;
    }
  }

  /** What one more segment does to the accumulated pages. */
  lemma SegmentsStep(parts: seq<string>, i: nat, acc: set<int>)
    requires i < |parts|
    ensures var part := Strip(parts[i]);
            var seg := ParseSegment(part);
            var now := Joined(acc, ParseSegments(parts[i..]));
            if part == [] then now == Joined(acc, ParseSegments(parts[i + 1..]))
            else if seg.Err? then now == Err(seg.error)
            else now == Joined(acc + seg.value, ParseSegments(parts[i + 1..]))
  {
    assert parts[i..][0] == parts[i];
    assert parts[i..][1..] == parts[i + 1..];
    var seg := ParseSegment(Strip(parts[i]));
    var rest := ParseSegments(parts[i + 1..]);
    if Strip(parts[i]) != [] && seg.Ok? && rest.Ok? {
      assert acc + (seg.value + rest.value) == acc + seg.value + rest.value;
    }
  }

  // ---------------------------------------------------------------------
  // Properties

  /** Every page a segment yields is at least 1. */
  lemma SegmentPositive(part: string)
    ensures ParseSegment(part).Ok? ==> forall x :: x in ParseSegment(part).value ==> x >= 1
  {
  }

  /** Every page of a parse is at least 1. */
  lemma {:induction false} SegmentsPositive(parts: seq<string>)
    ensures ParseSegments(parts).Ok? ==> forall x :: x in ParseSegments(parts).value ==> x >= 1
  {
    if parts != [] {
      SegmentsPositive(parts[1..]);
      SegmentPositive(Strip(parts[0]));
    }
  }

  /** A page is in a successful parse exactly when some non-blank segment
      yields it. */
  lemma {:induction false} SegmentsMembers(parts: seq<string>, x: int)
    requires ParseSegments(parts).Ok?
    ensures x in ParseSegments(parts).value <==>
              exists k :: 0 <= k < |parts| && Strip(parts[k]) != []
                && ParseSegment(Strip(parts[k])).Ok? && x in ParseSegment(Strip(parts[k])).value
  {
    if parts != [] {
      SegmentsMembers(parts[1..], x);
      var part := Strip(parts[0]);
      if x in ParseSegments(parts).value && !(part != [] && ParseSegment(part).Ok? && x in ParseSegment(part).value) {
        var k :| 0 <= k < |parts[1..]| && Strip(parts[1..][k]) != []
          && ParseSegment(Strip(parts[1..][k])).Ok? && x in ParseSegment(Strip(parts[1..][k])).value;
        assert parts[k + 1] == parts[1..][k];
      }
      if exists k :: 0 <= k < |parts| && Strip(parts[k]) != []
           && ParseSegment(Strip(parts[k])).Ok? && x in ParseSegment(Strip(parts[k])).value {
        var k :| 0 <= k < |parts| && Strip(parts[k]) != []
          && ParseSegment(Strip(parts[k])).Ok? && x in ParseSegment(Strip(parts[k])).value;
        if k > 0 {
          assert parts[1..][k - 1] == parts[k];
        }
      }
    }
  }

  /** An error names its segment: the error is the one of a non-blank
      segment of the input, stripped. */
  lemma {:induction false} SegmentsErrorNamesSegment(parts: seq<string>)
    requires ParseSegments(parts).Err?
    ensures exists k :: 0 <= k < |parts| && Strip(parts[k]) != []
              && ParseSegment(Strip(parts[k])) == ParseSegments(parts)
  {
    var part := Strip(parts[0]);
    if part != [] && ParseSegment(part).Err? {
      assert ParseSegment(Strip(parts[0])) == ParseSegments(parts);
    } else {
      SegmentsErrorNamesSegment(parts[1..]);
      var k :| 0 <= k < |parts[1..]| && Strip(parts[1..][k]) != []
        && ParseSegment(Strip(parts[1..][k])) == ParseSegments(parts[1..]);
      assert parts[k + 1] == parts[1..][k];
    }
  }

  /** The index of the first bad non-blank segment, or the number of
      segments when there is none. */
  function FirstBadSegment(parts: seq<string>): (k: nat)
    ensures k <= |parts|
    ensures forall j :: 0 <= j < k && Strip(parts[j]) != [] ==> ParseSegment(Strip(parts[j])).Ok?
    ensures k < |parts| ==> Strip(parts[k]) != [] && ParseSegment(Strip(parts[k])).Err?
  {
    if parts == [] then 0
    else if Strip(parts[0]) != [] && ParseSegment(Strip(parts[0])).Err? then 0
    else
      var k := FirstBadSegment(parts[1..]);
      assert forall j :: 0 < j < |parts| ==> parts[j] == parts[1..][j - 1];
      1 + k
  }

  /** A failed parse reports the first bad non-blank segment. */
  lemma ErrorIsFirstBadSegment(parts: seq<string>)
    requires ParseSegments(parts).Err?
    ensures FirstBadSegment(parts) < |parts|
    ensures ParseSegments(parts) == ParseSegment(Strip(parts[FirstBadSegment(parts)]))
  {
    SegmentsErrorNamesSegment(parts);
    var k :| 0 <= k < |parts| && Strip(parts[k]) != [] && ParseSegment(Strip(parts[k])) == ParseSegments(parts);
    FirstBadSegmentDecides(parts, FirstBadSegment(parts));
  }

  /** A failing tail makes the whole parse fail. */
  lemma TailFails(parts: seq<string>)
    requires parts != [] && ParseSegments(parts[1..]).Err?
    ensures ParseSegments(parts).Err?
  {
  }

  /** A bad first segment makes the whole parse fail. */
  lemma HeadFails(parts: seq<string>)
    requires parts != [] && Strip(parts[0]) != [] && ParseSegment(Strip(parts[0])).Err?
    ensures ParseSegments(parts).Err?
  {
  }

  /** A bad non-blank segment anywhere makes the whole parse fail. */
  lemma {:induction false} BadSegmentFails(parts: seq<string>, k: int)
    requires 0 <= k < |parts| && Strip(parts[k]) != [] && ParseSegment(Strip(parts[k])).Err?
    ensures ParseSegments(parts).Err?
  {
    if k == 0 {
      HeadFails(parts);
    } else {
      assert parts[1..][k - 1] == parts[k];
      BadSegmentFails(parts[1..], k - 1);
      TailFails(parts);
    }
  }

  /** The first bad non-blank segment decides the error: when every
      non-blank segment before it parses, the parse fails with its error. */
  lemma {:induction false} FirstBadSegmentDecides(parts: seq<string>, k: int)
    requires 0 <= k < |parts| && Strip(parts[k]) != [] && ParseSegment(Strip(parts[k])).Err?
    requires forall j :: 0 <= j < k && Strip(parts[j]) != [] ==> ParseSegment(Strip(parts[j])).Ok?
    ensures ParseSegments(parts) == ParseSegment(Strip(parts[k]))
  {
    if k > 0 {
      forall j | 0 <= j < k - 1 && Strip(parts[1..][j]) != []
        ensures ParseSegment(Strip(parts[1..][j])).Ok?
      {
        assert parts[1..][j] == parts[j + 1];
      }
      assert parts[1..][k - 1] == parts[k];
      FirstBadSegmentDecides(parts[1..], k - 1);
    }
  }

  /** The message of every error a segment gives is one of the four
      messages followed by the segment itself. */
  lemma SegmentErrorMessage(part: string)
    requires ParseSegment(part).Err?
    ensures var m := ParseSegment(part).error;
            m.InvalidValue? &&
            m.message in {RangeMessage + part, BoundsMessage + part, NumberMessage + part, PositiveMessage + part}
  {
  }

  /** A page number written in decimal is the set of that page, except 0,
      which is refused as not positive. */
  lemma SegmentSingle(n: nat)
    ensures ParseSegment(Decimal(n)) ==
            if n == 0 then Err(InvalidValue(PositiveMessage + Decimal(n))) else Ok({n})
  {
    ParseIntToString(n);
    assert '-' !in Decimal(n) by {
      assert AllDigits(Decimal(n));
    }
  }

  /** A segment `x-y` whose first `-` is the one shown is the range
      segment of its two sides, stripped and read as integers. */
  lemma SegmentSplitsAtDash(x: string, y: string)
    requires '-' !in x
    ensures ParseSegment(x + "-" + y) ==
            RangeSegment(x + "-" + y, ParseInt(Strip(x)), ParseInt(Strip(y)))
  {
    var part := x + "-" + y;
    IndexOfAfter(x, y, '-');
    assert part[..|x|] == x && part[|x| + 1..] == y;
  }

  /** A segment `x-y` whose first `-` is the one shown, with both sides
      reading as integers `a` and `b` once stripped, is the pages from `a` to
      `b` when `1 <= a <= b`, and a bounds error otherwise. */
  lemma SegmentRange(x: string, y: string, a: int, b: int)
    requires '-' !in x
    requires ParseInt(Strip(x)) == Some(a) && ParseInt(Strip(y)) == Some(b)
    ensures ParseSegment(x + "-" + y) ==
            if a <= 0 || b <= 0 || b < a then Err(InvalidValue(BoundsMessage + (x + "-" + y)))
            else Ok(Interval(a, b))
  {
    SegmentSplitsAtDash(x, y);
  }

  /** The same with the numbers written in decimal: `a-b` is the pages from
      `a` to `b`, or a bounds error when `a` or `b` is 0 or `b < a`. */
  lemma SegmentDecimalRange(a: nat, b: nat)
    ensures var part := Decimal(a) + "-" + Decimal(b);
            ParseSegment(part) ==
            if a == 0 || b == 0 || b < a then Err(InvalidValue(BoundsMessage + part))
            else Ok(Interval(a, b))
  {
    assert '-' !in Decimal(a) by {
      assert AllDigits(Decimal(a));
    }
    StripDigits(Decimal(a));
    StripDigits(Decimal(b));
    ParseIntToString(a);
    ParseIntToString(b);
    SegmentRange(Decimal(a), Decimal(b), a, b);
  }

  /** The first `c` of `a + [c] + b` is the one after `a` when `a` has none. */
  lemma {:induction false} IndexOfAfter(a: string, b: string, c: char)
    requires c !in a
    ensures c in a + [c] + b && IndexOf(a + [c] + b, c) == |a|
  {
    assert (a + [c] + b)[|a|] == c;
    if a != [] {
      IndexOfAfter(a[1..], b, c);
      assert (a + [c] + b)[1..] == a[1..] + [c] + b;
    }
  }

  /** Stripping a string of digits leaves it as it is. */
  lemma StripDigits(d: string)
    requires |d| >= 1 && AllDigits(d)
    ensures Strip(d) == d
  {
    StripPlainEnds(d);
  }

  /** Stripping a string that starts with a digit or a dash and ends with a
      digit leaves it as it is. */
  lemma StripPlainEnds(s: string)
    requires |s| >= 1 && (IsDigit(s[0]) || s[0] == '-') && IsDigit(s[|s| - 1])
    ensures Strip(s) == s
  {
    StripUnpadded(s);
  }

  /** Stripping a string that neither starts nor ends with white space
      leaves it as it is. */
  lemma StripUnpadded(s: string)
    requires s != [] && !IsSpace(s[0]) && !IsSpace(s[|s| - 1])
    ensures Strip(s) == s
  {
    StripPadded([], s, []);
    assert [] + s + [] == s;
  }

  /** Stripping white space `pre` and `post` off a `core` that neither starts
      nor ends with white space leaves the core. */
  lemma StripPadded(pre: string, core: string, post: string)
    requires forall k :: 0 <= k < |pre| ==> IsSpace(pre[k])
    requires forall k :: 0 <= k < |post| ==> IsSpace(post[k])
    requires core != [] && !IsSpace(core[0]) && !IsSpace(core[|core| - 1])
    ensures Strip(pre + core + post) == core
  {
    var s := pre + core + post;
    var i, j := |pre|, |pre| + |core|;
    assert s[i] == core[0] && s[j - 1] == core[|core| - 1];
    assert forall k :: 0 <= k < i ==> s[k] == pre[k];
    assert forall k :: j <= k < |s| ==> s[k] == post[k - j];
    SkipSpaceIs(s, 0, i);
    SkipSpaceBackIs(s, i, |s|, j);
    assert s[i..j] == core;
  }

  // ---------------------------------------------------------------------
  // Worked examples

  /** A list of segments, none of them blank or bad, is the union of their
      pages, the first segment's pages first. */
  lemma SegmentsCons(part: string, rest: seq<string>, pages: set<int>)
    requires Strip(part) != [] && ParseSegment(Strip(part)) == Ok(pages)
    ensures ParseSegments([part] + rest) == Joined(pages, ParseSegments(rest))
  {
    assert ([part] + rest)[0] == part && ([part] + rest)[1..] == rest;
  }

  /** Three consecutive pages. */
  lemma IntervalOfThree(a: int)
    ensures Interval(a, a + 2) == {a, a + 1, a + 2}
  {
    assert Interval(a, a - 1) == {};
    assert Interval(a, a) == {a};
    assert Interval(a, a + 1) == {a, a + 1};
  }

  /** A text without commas is one segment: its pages or its error. */
  lemma OneSegment(text: string)
    requires ',' !in text && Strip(text) != []
    ensures PageRangesOf(Some(text)) ==
            match ParseSegment(Strip(text))
            case Err(e) => Err(e)
            case Ok(pages) => Ok(Some(pages))
  {
    SplitOnFree(text, ',');
    var parts := [text];
    assert parts[0] == text && parts[1..] == [];
    assert ParseSegments(parts[1..]) == Ok({});
    match ParseSegment(Strip(text))
    case Err(e) =>
      assert ParseSegments(parts) == Err(e);
    case Ok(pages) =>
      assert pages + {} == pages;
      assert ParseSegments(parts) == Ok(pages);
  }

  /** A single page number, stripped, is that page. */
  lemma SegmentNumber(n: int)
    requires n >= 1
    ensures Strip(Decimal(n)) == Decimal(n) && ParseSegment(Strip(Decimal(n))) == Ok({n})
  {
    StripDigits(Decimal(n));
    SegmentSingle(n);
  }

  /** `"5-7"` is pages 5, 6 and 7. */
  lemma ExampleRange()
    ensures Strip("5-7") == "5-7" && ParseSegment("5-7") == Ok({5, 6, 7})
  {
    assert Decimal(5) == "5" && Decimal(7) == "7";
    assert Decimal(5) + "-" + Decimal(7) == "5-7";
    SegmentDecimalRange(5, 7);
    StripPlainEnds("5-7");
    IntervalOfThree(5);
  }

  /** The list `["5-7"]` is pages 5, 6 and 7. */
  lemma ExampleRangeList()
    ensures ParseSegments(["5-7"]) == Ok({5, 6, 7})
  {
    ExampleRange();
    var none: seq<string> := [];
    assert ParseSegments(none) == Ok({});
    SegmentsCons("5-7", none, {5, 6, 7});
    assert ["5-7"] + none == ["5-7"];
    assert {5, 6, 7} + {} == {5, 6, 7};
  }

  /** The list `["3", "5-7"]` is pages 3, 5, 6 and 7. */
  lemma ExampleListTail()
    ensures ParseSegments(["3", "5-7"]) == Ok({3, 5, 6, 7})
  {
    ExampleRangeList();
    assert Decimal(3) == "3";
    SegmentNumber(3);
    SegmentsCons("3", ["5-7"], {3});
    assert ["3"] + ["5-7"] == ["3", "5-7"];
    assert {3} + {5, 6, 7} == {3, 5, 6, 7};
  }

  /** `"1,3,5-7"` is pages 1, 3, 5, 6 and 7. */
  lemma ExampleList()
    ensures PageRangesOf(Some("1,3,5-7")) == Ok(Some({1, 3, 5, 6, 7}))
  {
    var parts := ["1", "3", "5-7"];
    assert JoinWith(parts, ',') == "1,3,5-7";
    SplitOnJoin(parts, ',');
    ExampleListTail();
    assert Decimal(1) == "1";
    SegmentNumber(1);
    SegmentsCons("1", ["3", "5-7"], {1});
    assert ["1"] + ["3", "5-7"] == parts;
    assert {1} + {3, 5, 6, 7} == {1, 3, 5, 6, 7};
  }

  /** The decimal form of a number has neither dashes, commas nor white
      space. */
  lemma DecimalPlain(n: nat)
    ensures '-' !in Decimal(n) && ',' !in Decimal(n)
    ensures IsDigit(Decimal(n)[0]) && IsDigit(Decimal(n)[|Decimal(n)| - 1])
  {
    assert AllDigits(Decimal(n));
  }

  /** A range written backwards, `b < a`, is refused with its bounds. */
  lemma BackwardsRefused(a: nat, b: nat)
    requires b < a
    ensures var text := Decimal(a) + "-" + Decimal(b);
            PageRangesOf(Some(text)) == Err(InvalidValue(BoundsMessage + text))
  {
    var text := Decimal(a) + "-" + Decimal(b);
    DecimalPlain(a);
    DecimalPlain(b);
    assert text[0] == Decimal(a)[0] && text[|text| - 1] == Decimal(b)[|Decimal(b)| - 1];
    SegmentDecimalRange(a, b);
    StripPlainEnds(text);
    OneSegment(text);
  }

  /** `"3-2"` is refused with its bounds. */
  lemma ExampleBackwards()
    ensures PageRangesOf(Some("3-2")) == Err(InvalidValue(BoundsMessage + "3-2"))
  {
    assert Decimal(3) + "-" + Decimal(2) == "3-2";
    BackwardsRefused(3, 2);
  }

  /** Page `"0"` is refused as not positive. */
  lemma ExampleZero()
    ensures PageRangesOf(Some("0")) == Err(InvalidValue(PositiveMessage + "0"))
  {
    assert Decimal(0) == "0";
    SegmentSingle(0);
    StripDigits("0");
    OneSegment("0");
  }

  /** A range with nothing before its `-` is malformed: `"-5"` is not the
      negative page -5. */
  lemma LeadingDashRefused(n: nat)
    ensures var text := "-" + Decimal(n);
            PageRangesOf(Some(text)) == Err(InvalidValue(RangeMessage + text))
  {
    var text := "-" + Decimal(n);
    DecimalPlain(n);
    SegmentSplitsAtDash([], Decimal(n));
    assert [] + "-" + Decimal(n) == text;
    assert Strip([]) == [];
    assert text[0] == '-' && text[|text| - 1] == Decimal(n)[|Decimal(n)| - 1];
    StripPlainEnds(text);
    OneSegment(text);
  }

  /** Two numbers joined by a dash are not an integer. */
  lemma DashedNotInteger(b: nat, c: nat)
    ensures ParseInt(Strip(Decimal(b) + "-" + Decimal(c))) == None
  {
    var t := Decimal(b) + "-" + Decimal(c);
    DecimalPlain(b);
    DecimalPlain(c);
    assert t[0] == Decimal(b)[0] && t[|t| - 1] == Decimal(c)[|Decimal(c)| - 1];
    StripPlainEnds(t);
    assert t[|Decimal(b)|] == '-';
    assert IsDigit(Decimal(b)[0]);
    assert !AllDigits(t);
  }

  /** The segment `a-b-c` splits at its first dash into `a` and `b-c`,
      which is not an integer. */
  lemma TwoDashesSegment(a: nat, b: nat, c: nat)
    ensures var text := Decimal(a) + "-" + (Decimal(b) + "-" + Decimal(c));
            ParseSegment(text) == Err(InvalidValue(RangeMessage + text))
  {
    DecimalPlain(a);
    SegmentSplitsAtDash(Decimal(a), Decimal(b) + "-" + Decimal(c));
    DashedNotInteger(b, c);
  }

  /** The segment `a-b-c` needs no stripping. */
  lemma TwoDashesStrip(a: nat, b: nat, c: nat)
    ensures var text := Decimal(a) + "-" + (Decimal(b) + "-" + Decimal(c));
            Strip(text) == text
  {
    var text := Decimal(a) + "-" + (Decimal(b) + "-" + Decimal(c));
    assert IsDigit(Decimal(a)[0]);
    assert IsDigit(Decimal(c)[|Decimal(c)| - 1]);
    assert text[0] == Decimal(a)[0];
    assert text[|text| - 1] == Decimal(c)[|Decimal(c)| - 1];
    StripPlainEnds(text);
  }

  /** A segment with two dashes is malformed: what follows the first dash,
      `b-c`, is not an integer. */
  lemma TwoDashesRefused(a: nat, b: nat, c: nat)
    ensures var text := Decimal(a) + "-" + (Decimal(b) + "-" + Decimal(c));
            PageRangesOf(Some(text)) == Err(InvalidValue(RangeMessage + text))
  {
    DecimalPlain(a);
    DecimalPlain(b);
    DecimalPlain(c);
    TwoDashesSegment(a, b, c);
    TwoDashesStrip(a, b, c);
    OneSegment(Decimal(a) + "-" + (Decimal(b) + "-" + Decimal(c)));
  }

  /** A lone comma is two blank segments, so no page at all. */
  lemma ExampleBlankSegments()
    ensures PageRangesOf(Some(",")) == Ok(Some({}))
  {
    var parts: seq<string> := ["", ""];
    assert JoinWith(parts, ',') == ",";
    SplitOnJoin(parts, ',');
    assert Strip([]) == [];
    assert parts[1..] == [""];
    assert ParseSegments([""]) == Ok({});
  }

  /** A digit is not white space. */
  lemma DigitNotSpace(c: char)
    requires IsDigit(c)
    ensures !IsSpace(c)
  {
  }

  /** A string that starts and ends with a digit, padded with one space on
      each side, strips back to itself. */
  lemma PaddedStrip(core: string)
    requires |core| >= 1 && IsDigit(core[0]) && IsDigit(core[|core| - 1])
    ensures Strip(" " + core + " ") == core
  {
    DigitNotSpace(core[0]);
    DigitNotSpace(core[|core| - 1]);
    StripPadded(" ", core, " ");
  }

  /** A number with a space after it reads as that number. */
  lemma SpaceAfter(n: nat)
    ensures ParseInt(Strip(Decimal(n) + " ")) == Some(n)
  {
    DecimalPlain(n);
    DigitNotSpace(Decimal(n)[0]);
    DigitNotSpace(Decimal(n)[|Decimal(n)| - 1]);
    StripPadded([], Decimal(n), " ");
    assert [] + Decimal(n) + " " == Decimal(n) + " ";
    ParseIntToString(n);
  }

  /** A number with a space before it reads as that number. */
  lemma SpaceBefore(n: nat)
    ensures ParseInt(Strip(" " + Decimal(n))) == Some(n)
  {
    DecimalPlain(n);
    DigitNotSpace(Decimal(n)[0]);
    DigitNotSpace(Decimal(n)[|Decimal(n)| - 1]);
    StripPadded(" ", Decimal(n), []);
    assert " " + Decimal(n) + [] == " " + Decimal(n);
    ParseIntToString(n);
  }

  /** White space around the dash of a range is ignored: `a - b` is the
      pages from `a` to `b`, or a bounds error. */
  lemma SpacedRangeSegment(a: nat, b: nat)
    ensures var part := Decimal(a) + " - " + Decimal(b);
            ParseSegment(part) ==
            if a == 0 || b == 0 || b < a then Err(InvalidValue(BoundsMessage + part))
            else Ok(Interval(a, b))
  {
    SpaceAfter(a);
    SpaceBefore(b);
    DecimalPlain(a);
    assert (Decimal(a) + " ") + "-" + (" " + Decimal(b)) == Decimal(a) + " - " + Decimal(b);
    SegmentRange(Decimal(a) + " ", " " + Decimal(b), a, b);
  }

  /** The segment `" a - b "` strips to `"a - b"`. */
  lemma SpacedRangeStrip(a: nat, b: nat)
    ensures var core := Decimal(a) + " - " + Decimal(b);
            Strip(" " + core + " ") == core
  {
    var core := Decimal(a) + " - " + Decimal(b);
    DecimalPlain(a);
    DecimalPlain(b);
    assert core[0] == Decimal(a)[0];
    assert core[|core| - 1] == Decimal(b)[|Decimal(b)| - 1];
    PaddedStrip(core);
  }

  /** The segment `" a - b "` is the pages from `a` to `b`. */
  lemma SpacedRangePart(a: nat, b: nat)
    requires 1 <= a <= b
    ensures var part := " " + (Decimal(a) + " - " + Decimal(b)) + " ";
            Strip(part) != [] && ParseSegment(Strip(part)) == Ok(Interval(a, b))
  {
    SpacedRangeStrip(a, b);
    SpacedRangeSegment(a, b);
  }

  /** The list holding the one segment `" c "` is page `c`. */
  lemma SpacedPagePart(c: nat)
    requires c >= 1
    ensures ParseSegments([" " + Decimal(c) + " "]) == Ok({c})
  {
    var part := " " + Decimal(c) + " ";
    DecimalPlain(c);
    PaddedStrip(Decimal(c));
    SegmentSingle(c);
    var none: seq<string> := [];
    assert ParseSegments(none) == Ok({});
    SegmentsCons(part, none, {c});
    assert [part] + none == [part];
    assert {c} + {} == {c};
  }

  /** `" a - b , c "` splits at its comma into `" a - b "` and `" c "`. */
  lemma SpacedSplit(a: nat, b: nat, c: nat)
    ensures var p0 := " " + (Decimal(a) + " - " + Decimal(b)) + " ";
            var p1 := " " + Decimal(c) + " ";
            SplitOn(p0 + "," + p1, ',') == [p0, p1]
  {
    var p0 := " " + (Decimal(a) + " - " + Decimal(b)) + " ";
    var p1 := " " + Decimal(c) + " ";
    var parts := [p0, p1];
    DecimalPlain(a);
    DecimalPlain(b);
    DecimalPlain(c);
    assert ',' !in p0 && ',' !in p1;
    assert parts[1..] == [p1];
    assert JoinWith(parts, ',') == p0 + "," + p1;
    SplitOnJoin(parts, ',');
  }

  /** White space around segments, numbers and dashes is ignored: a range
      `" a - b "` and a page `" c "` joined by a comma are the pages from `a`
      to `b` and page `c`. With 2, 4 and 6 the text is `" 2 - 4 , 6 "`,
      pages 2, 3, 4 and 6. */
  lemma SpacedList(a: nat, b: nat, c: nat)
    requires 1 <= a <= b && c >= 1
    ensures var p0 := " " + (Decimal(a) + " - " + Decimal(b)) + " ";
            var p1 := " " + Decimal(c) + " ";
            PageRangesOf(Some(p0 + "," + p1)) == Ok(Some(Interval(a, b) + {c}))
  {
    var p0 := " " + (Decimal(a) + " - " + Decimal(b)) + " ";
    var p1 := " " + Decimal(c) + " ";
    SpacedSplit(a, b, c);
    SpacedRangePart(a, b);
    SpacedPagePart(c);
    SegmentsCons(p0, [p1], Interval(a, b));
    assert [p0] + [p1] == [p0, p1];
  }
}
