/** Page ranges of `pypdf/pagerange.py`: the slice-like `PageRange`, its
    string syntax (`"int"`, `"[int]:[int]"`, `"[int]:[int]:[int]"`), its
    printing, `slice.indices`, the sum of two ranges, and the grouping of a
    command line into (file name, page range) pairs. */
module PageRanges {
  import opened PyBase
  import opened PyText

  /** A Python `slice` whose bounds are ints or `None`. */
  datatype Slice = Slice(start: Option<int>, stop: Option<int>, step: Option<int>)

  /** `PageRange`: a wrapper around the slice it stands for. */
  datatype PageRange = PageRange(slice: Slice)

  /** The arguments `PageRange(...)` and `parse_filename_page_ranges` are
      given: a string, a `PageRange`, a `slice`, `None`, or anything else. */
  datatype Arg = StrArg(s: string) | RangeArg(range: PageRange) | SliceArg(sl: Slice) | NoneArg | OtherArg

  // ---------------------------------------------------------------------
  // The pattern PAGE_RANGE_RE
  // ---------------------------------------------------------------------

  predicate IsDigits(t: string)
  {
    forall i :: 0 <= i < |t| ==> IsDigit(t[i])
  }

  /** `_INT_RE`, `0|-?[1-9]\d*`: zero, or an optionally negative integer
      without leading zeros. */
  predicate IsIntToken(t: string)
  {
    t == "0"
    || (|t| >= 1 && '1' <= t[0] <= '9' && IsDigits(t[1..]))
    || (|t| >= 2 && t[0] == '-' && '1' <= t[1] <= '9' && IsDigits(t[2..]))
  }

  /** `int(t)` on a token of `_INT_RE`. */
  function TokenValue(t: string): int
    requires IsIntToken(t)
  {
    assert forall i :: (if t[0] == '-' then 1 else 0) <= i < |t| ==> IsDigit(t[i]) by {
      if t[0] == '-' {
        assert forall i :: 2 <= i < |t| ==> t[i] == t[2..][i - 2];
      } else if t != "0" {
        assert forall i :: 1 <= i < |t| ==> t[i] == t[1..][i - 1];
      }
    }
    ParseInt(t)
  }

  /** The text the anchored pattern has to cover: Python's `$` also matches
      just before a final newline. */
  function Body(s: string): (r: string)
    ensures s == r || s == r + "\n"
  {
    if |s| > 0 && s[|s| - 1] == '\n' then s[..|s| - 1] else s
  }

  /** The colon-separated fields of the text. */
  function Fields(s: string): (r: seq<string>)
    ensures |r| >= 1
  {
    Split(Body(s), ':')
  }

  /** `re.match(PAGE_RANGE_RE, s)` succeeds: one to three colon-separated
      fields, each empty or an integer token, where a single field must be
      a lone integer (without an integer the pattern needs a colon, so the
      empty string does not match). */
  predicate ValidStr(s: string)
  {
    var f := Fields(s);
    |f| <= 3 && (|f| >= 2 || f[0] != "")
    && forall k :: 0 <= k < |f| ==> f[k] == "" || IsIntToken(f[k])
  }

  /** Group 4, 6 or 8 of the match converted by `int(g) if g else None`. */
  function MatchGroup(f: seq<string>, k: nat): (r: Option<int>)
    requires forall j :: 0 <= j < |f| ==> f[j] == "" || IsIntToken(f[j])
    ensures r.Some? <==> k < |f| && f[k] != ""
  {
    if k < |f| && f[k] != "" then Some(TokenValue(f[k])) else None
  }

  // ---------------------------------------------------------------------
  // PageRange(arg) and PageRange.valid
  // ---------------------------------------------------------------------

  /** `PageRange(s)` for a string: a lone integer `k` selects page `k`
      alone, as `slice(k, k + 1)`, except that `-1` becomes `slice(-1, None)`
      (the last page); otherwise the three fields are start, stop and step.
      Any other string raises ParseError. */
  function ParseStr(s: string): (r: Result<PageRange>)
    ensures r.Ok? <==> ValidStr(s)
    ensures r.Err? ==> r.exc == ParseError
    ensures r.Ok? && |Fields(s)| >= 2 ==> r.value.slice.stop.Some? == (Fields(s)[1] != "")
    ensures r.Ok? && |Fields(s)| < 3 ==> r.value.slice.step.None?
  {
    if !ValidStr(s) then Err(ParseError)
    else
      var f := Fields(s);
      if |f| == 1 && f[0] != "" then
        var start := TokenValue(f[0]);
        Ok(PageRange(Slice(Some(start), if start != -1 then Some(start + 1) else None, None)))
      else
        Ok(PageRange(Slice(MatchGroup(f, 0), MatchGroup(f, 1), MatchGroup(f, 2))))
  }

  /** `PageRange.valid(input)`. */
  predicate Valid(a: Arg)
  {
    match a
    case StrArg(s) => ValidStr(s)
    case RangeArg(_) => true
    case SliceArg(_) => true
    case NoneArg => false
    case OtherArg => false
  }

  /** `PageRange(arg)`: a slice is taken as it is, a `PageRange` is copied,
      a string is parsed, and anything else raises ParseError. */
  function New(a: Arg): (r: Result<PageRange>)
    ensures r.Ok? <==> Valid(a)
    ensures r.Err? ==> r.exc == ParseError
    ensures a.SliceArg? ==> r == Ok(PageRange(a.sl))
    ensures a.RangeArg? ==> r == Ok(a.range)
  {
    match a
    case SliceArg(sl) => Ok(PageRange(sl))
    case RangeArg(p) => Ok(PageRange(p.slice))
    case StrArg(s) => ParseStr(s)
    case NoneArg => Err(ParseError)
    case OtherArg => Err(ParseError)
  }

  /** `PAGE_RANGE_ALL`, that is `PageRange(":")`. */
  const All: PageRange := PageRange(Slice(None, None, None))

  /** `":"` and `"::"` are all pages; the empty string, and a lone
      newline, match no alternative of the pattern. */
  lemma ParseAll()
    ensures ParseStr(":") == Ok(All)
    ensures ParseStr("::") == Ok(All)
    ensures ParseStr("") == Err(ParseError)
    ensures ParseStr("\n") == Err(ParseError)
  {
    assert Body("\n") == "";
    assert Split("", ':') == [""];
    assert Split(":", ':') == ["", ""];
    assert Split("::", ':') == ["", "", ""];
  }

  /** A final newline is ignored, since `$` matches before it. */
  lemma TrailingNewline(s: string)
    requires '\n' !in s
    ensures ParseStr(s + "\n") == ParseStr(s)
  {
    var t := s + "\n";
    assert t[..|t| - 1] == s;
    assert Body(t) == s;
    if |s| > 0 {
      assert s[|s| - 1] in s;
    }
    assert Body(s) == s;
  }

  // ---------------------------------------------------------------------
  // str(PageRange) and repr(PageRange)
  // ---------------------------------------------------------------------

  /** One field of the printed form: `''` for `None`, else `str(i)`. */
  function Part(b: Option<int>): string
  {
    if b.None? then "" else IntToString(b.value)
  }

  /** `PageRange.__str__` as written: a range `k:k+1` without a step is
      printed as the lone `k`, including `k == -1`. */
  function StrAsWritten(p: PageRange): string
  {
    var s := p.slice;
    if s.step.None? then
      if s.start.Some? && s.stop == Some(s.start.value + 1) then IntToString(s.start.value)
      else Join(":", [Part(s.start), Part(s.stop)])
    else Join(":", [Part(s.start), Part(s.stop), Part(s.step)])
  }

  /** `PageRange.__str__` with the lone form kept for the ranges it parses
      back to: `-1` is printed as `-1:0`, since `-1` alone means the last
      page. */
  function Str(p: PageRange): string
  {
    var s := p.slice;
    if s.step.None? then
      if s.start.Some? && s.start.value != -1 && s.stop == Some(s.start.value + 1) then IntToString(s.start.value)
      else Join(":", [Part(s.start), Part(s.stop)])
    else Join(":", [Part(s.start), Part(s.stop), Part(s.step)])
  }

  /** The characters of `str(n)`: digits and a leading minus sign. */
  lemma IntToStringChars(n: int)
    ensures forall i :: 0 <= i < |IntToString(n)| ==> IsDigit(IntToString(n)[i]) || IntToString(n)[i] == '-'
  {
    if n < 0 {
      assert forall i :: 1 <= i < |IntToString(n)| ==> IntToString(n)[i] == NatToString(-n)[i - 1];
    }
  }

  /** `str(n)` is a token of `_INT_RE` and `int` reads it back. */
  lemma IntTokenOfIntToString(n: int)
    ensures IsIntToken(IntToString(n)) && TokenValue(IntToString(n)) == n
    ensures ':' !in IntToString(n) && '\n' !in IntToString(n)
  {
    IntToStringChars(n);
    IntToStringRoundTrip(n);
    var t := IntToString(n);
    if n < 0 {
      var u := NatToString(-n);
      assert t[1..] == u;
      assert t[2..] == u[1..];
      assert IsDigits(t[2..]);
    } else if n > 0 {
      assert IsDigits(t[1..]);
    } else {
      assert t == "0";
    }
  }

  lemma PartClean(b: Option<int>)
    ensures ':' !in Part(b) && '\n' !in Part(b)
    ensures Part(b) == "" || IsIntToken(Part(b))
    ensures Part(b) != "" ==> b.Some? && TokenValue(Part(b)) == b.value
    ensures Part(b) == "" <==> b.None?
  {
    if b.Some? {
      IntTokenOfIntToString(b.value);
    }
  }

  /** A character in neither the separator nor any part is not in the join. */
  lemma {:induction false} JoinAvoids(c: char, sep: string, parts: seq<string>)
    requires c !in sep
    requires forall k :: 0 <= k < |parts| ==> c !in parts[k]
    ensures c !in Join(sep, parts)
    decreases |parts|
  {
    if |parts| > 1 {
      JoinAvoids(c, sep, parts[1..]);
    }
  }

  /** Printing a list of clean fields and parsing it gives the fields back. */
  lemma FieldsOfJoin(parts: seq<string>)
    requires |parts| >= 1
    requires forall k :: 0 <= k < |parts| ==> ':' !in parts[k] && '\n' !in parts[k]
    ensures Fields(Join(":", parts)) == parts
  {
    var s := Join(":", parts);
    JoinAvoids('\n', ":", parts);
    if |s| > 0 {
      assert s[|s| - 1] in s;
    }
    assert Body(s) == s;
    assert ":" == [':'];
    SplitJoin(parts, ':');
  }

  /** The lone form `str(k)` parses back to `slice(k, k + 1)` unless `k`
      is -1. */
  lemma ParseLone(k: int)
    requires k != -1
    ensures ParseStr(IntToString(k)) == Ok(PageRange(Slice(Some(k), Some(k + 1), None)))
  {
    var t := IntToString(k);
    IntTokenOfIntToString(k);
    assert Join(":", [t]) == t;
    FieldsOfJoin([t]);
    assert Fields(t) == [t];
    assert ValidStr(t);
  }

  /** Two or three printed fields parse back to the bounds they print. */
  lemma ParseFields(a: Option<int>, b: Option<int>, c: Option<int>, three: bool)
    requires !three ==> c.None?
    ensures var parts := if three then [Part(a), Part(b), Part(c)] else [Part(a), Part(b)];
      ParseStr(Join(":", parts)) == Ok(PageRange(Slice(a, b, c)))
  {
    PartClean(a);
    PartClean(b);
    PartClean(c);
    var parts := if three then [Part(a), Part(b), Part(c)] else [Part(a), Part(b)];
    FieldsOfJoin(parts);
    var s := Join(":", parts);
    assert Fields(s) == parts;
    assert ValidStr(s);
    assert MatchGroup(parts, 0) == a;
    assert MatchGroup(parts, 1) == b;
    assert MatchGroup(parts, 2) == c;
  }

  /** `PageRange(str(p)) == p`, for every range: the printed form is a
      valid initializer and parses to the same slice. */
  lemma StrRoundTrip(p: PageRange)
    ensures ParseStr(Str(p)) == Ok(p)
  {
    var s := p.slice;
    if s.step.None? && s.start.Some? && s.start.value != -1 && s.stop == Some(s.start.value + 1) {
      ParseLone(s.start.value);
    } else if s.step.None? {
      ParseFields(s.start, s.stop, None, false);
    } else {
      ParseFields(s.start, s.stop, s.step, true);
    }
  }

  /** As written, every range other than `slice(-1, 0)` still round-trips. */
  lemma StrAsWrittenRoundTrip(p: PageRange)
    requires p.slice != Slice(Some(-1), Some(0), None)
    ensures ParseStr(StrAsWritten(p)) == Ok(p)
  {
    assert StrAsWritten(p) == Str(p);
    StrRoundTrip(p);
  }

  /** `PageRange("-1")` is `slice(-1, None)`. */
  lemma ParseMinusOne()
    ensures ParseStr("-1") == Ok(PageRange(Slice(Some(-1), None, None)))
  {
    IntTokenOfIntToString(-1);
    assert IntToString(-1) == "-1";
    assert Join(":", ["-1"]) == "-1";
    FieldsOfJoin(["-1"]);
    assert Fields("-1") == ["-1"];
    assert ValidStr("-1");
  }

  /** `slice(-1, 0)` selects nothing, `slice(-1, None)` the last page. */
  lemma MinusOnePages(n: int)
    requires n >= 1
    ensures Pages(PageRange(Slice(Some(-1), Some(0), None)), n) == Ok([])
    ensures Pages(PageRange(Slice(Some(-1), None, None)), n) == Ok([n - 1])
  {
    assert Clamp(-1, n, 0, n) == n - 1;
    assert Indices(Slice(Some(-1), None, None), n) == Ok((n - 1, n, 1));
    assert RangeList(n, n, 1) == [];
    assert RangeList(n - 1, n, 1) == [n - 1];
  }

  /** `str(PageRange("-1:0"))` is `"-1"`: the empty range is printed as the
      last page. */
  lemma StrAsWrittenCounterexample(n: int)
    requires n >= 1
    ensures ParseStr("-1:0") == Ok(PageRange(Slice(Some(-1), Some(0), None)))
    ensures StrAsWritten(PageRange(Slice(Some(-1), Some(0), None))) == "-1"
    ensures ParseStr("-1") == Ok(PageRange(Slice(Some(-1), None, None)))
    ensures Pages(PageRange(Slice(Some(-1), Some(0), None)), n) == Ok([])
    ensures Pages(PageRange(Slice(Some(-1), None, None)), n) == Ok([n - 1])
    ensures Str(PageRange(Slice(Some(-1), Some(0), None))) == "-1:0"
  {
    assert IntToString(-1) == "-1";
    assert IntToString(0) == "0";
    assert Join(":", ["-1", "0"]) == "-1:0";
    ParseFields(Some(-1), Some(0), None, false);
    ParseMinusOne();
    MinusOnePages(n);
  }

  /** The printed form is made of digits, `-` and `:`, so `repr` quotes it
      with single quotes and escapes nothing. */
  lemma StrChars(p: PageRange)
    ensures forall i :: 0 <= i < |Str(p)| ==> IsDigit(Str(p)[i]) || Str(p)[i] == '-' || Str(p)[i] == ':'
  {
    var s := p.slice;
    forall c | c !in "0123456789-:"
      ensures c !in Str(p)
    {
      forall b: Option<int>
        ensures c !in Part(b)
      {
        if b.Some? {
          IntToStringChars(b.value);
          assert forall i :: 0 <= i < |Part(b)| ==> Part(b)[i] in "0123456789-";
        }
      }
      if s.step.None? {
        JoinAvoids(c, ":", [Part(s.start), Part(s.stop)]);
      } else {
        JoinAvoids(c, ":", [Part(s.start), Part(s.stop), Part(s.step)]);
      }
    }
    forall i | 0 <= i < |Str(p)|
      ensures IsDigit(Str(p)[i]) || Str(p)[i] == '-' || Str(p)[i] == ':'
    {
      assert Str(p)[i] in Str(p);
      assert Str(p)[i] in "0123456789-:";
    }
  }

  /** `PageRange.__repr__`: `PageRange('...')` around the printed form,
      which parses back to the range. */
  function Repr(p: PageRange): (r: string)
    ensures |r| >= 13 && r[..11] == "PageRange('" && r[|r| - 2..] == "')"
    ensures ParseStr(r[11..|r| - 2]) == Ok(p)
  {
    var r := "PageRange('" + Str(p) + "')";
    assert r[11..|r| - 2] == Str(p);
    StrRoundTrip(p);
    r
  }

  // ---------------------------------------------------------------------
  // PageRange.indices(n), i.e. slice.indices(n)
  // ---------------------------------------------------------------------

  /** One bound adjusted the way `slice.indices` does: a negative bound
      counts from the end, and the result is clamped to `lower..upper`. */
  function Clamp(x: int, n: int, lower: int, upper: int): (r: int)
    requires lower <= upper
    ensures lower <= r <= upper
  {
    if x < 0 then (if x + n < lower then lower else if x + n > upper then upper else x + n)
    else if x > upper then upper
    else if x < lower then lower
    else x
  }

  /** `slice.indices(n)`: start, stop and step of `range()` selecting from a
      sequence of length `n`.  A negative length or a zero step raises
      ValueError. */
  function Indices(sl: Slice, n: int): (r: Result<(int, int, int)>)
    ensures r.Err? <==> n < 0 || sl.step == Some(0)
    ensures r.Err? ==> r.exc == ValueError
    ensures r.Ok? ==> r.value.2 == (if sl.step.None? then 1 else sl.step.value)
    ensures r.Ok? && r.value.2 > 0 ==> 0 <= r.value.0 <= n && 0 <= r.value.1 <= n
    ensures r.Ok? && r.value.2 < 0 ==> -1 <= r.value.0 <= n - 1 && -1 <= r.value.1 <= n - 1
    ensures r.Ok? && sl.start.Some? && 0 <= sl.start.value < n ==> r.value.0 == sl.start.value
  {
    if n < 0 then Err(ValueError)
    else
      var step := if sl.step.None? then 1 else sl.step.value;
      if step == 0 then Err(ValueError)
      else
        var lower := if step < 0 then -1 else 0;
        var upper := if step < 0 then n - 1 else n;
        var start := if sl.start.None? then (if step < 0 then upper else lower)
                     else Clamp(sl.start.value, n, lower, upper);
        var stop := if sl.stop.None? then (if step < 0 then lower else upper)
                    else Clamp(sl.stop.value, n, lower, upper);
        Ok((start, stop, step))
  }

  /** `list(range(start, stop, step))`. */
  function RangeList(start: int, stop: int, step: int): (r: seq<int>)
    requires step != 0
    decreases if step > 0 then stop - start else start - stop
  {
    if (step > 0 && start < stop) || (step < 0 && start > stop) then
      [start] + RangeList(start + step, stop, step)
    else []
  }

  /** Every element of a range lies between its start and its stop. */
  lemma {:induction false} RangeListBounds(start: int, stop: int, step: int)
    requires step != 0
    ensures forall k :: 0 <= k < |RangeList(start, stop, step)| ==>
      var x := RangeList(start, stop, step)[k];
      if step > 0 then start <= x < stop else stop < x <= start
    decreases if step > 0 then stop - start else start - stop
  {
    if (step > 0 && start < stop) || (step < 0 && start > stop) {
      RangeListBounds(start + step, stop, step);
    }
  }

  /** With step 1 a range holds exactly the integers from start to stop. */
  lemma {:induction false} RangeListStep1(start: int, stop: int, i: int)
    ensures i in RangeList(start, stop, 1) <==> start <= i < stop
    decreases stop - start
  {
    if start < stop {
      RangeListStep1(start + 1, stop, i);
    }
  }

  /** The page indices a range selects from a document of `n` pages. */
  function Pages(p: PageRange, n: int): (r: Result<seq<int>>)
    ensures r.Err? <==> Indices(p.slice, n).Err?
  {
    var t :- Indices(p.slice, n);
    Ok(RangeList(t.0, t.1, t.2))
  }

  /** Whatever the range, the pages it selects exist: every index lies in
      `0..n-1`. */
  lemma PagesInBounds(p: PageRange, n: int)
    requires Pages(p, n).Ok?
    ensures forall k :: 0 <= k < |Pages(p, n).value| ==> 0 <= Pages(p, n).value[k] < n
  {
    var t := Indices(p.slice, n).value;
    RangeListBounds(t.0, t.1, t.2);
  }

  /** `PAGE_RANGE_ALL` selects every page, in order. */
  lemma AllPages(n: nat, i: int)
    ensures Pages(All, n) == Ok(RangeList(0, n, 1))
    ensures i in Pages(All, n).value <==> 0 <= i < n
  {
    RangeListStep1(0, n, i);
  }

  /** `PageRange(str(k))` selects page `k` alone, and `PageRange("-1")` the
      last page. */
  lemma SinglePage(k: int, n: int)
    requires 0 <= k < n
    ensures ParseStr(IntToString(k)).Ok?
    ensures Pages(ParseStr(IntToString(k)).value, n) == Ok([k])
    ensures ParseStr("-1").Ok? && Pages(ParseStr("-1").value, n) == Ok([n - 1])
  {
    ParseLone(k);
    var p := PageRange(Slice(Some(k), Some(k + 1), None));
    assert ParseStr(IntToString(k)).value == p;
    assert Clamp(k, n, 0, n) == k && Clamp(k + 1, n, 0, n) == k + 1;
    assert Indices(p.slice, n) == Ok((k, k + 1, 1));
    assert RangeList(k + 1, k + 1, 1) == [];
    assert RangeList(k, k + 1, 1) == [k];
    assert Pages(p, n) == Ok(RangeList(k, k + 1, 1));
    ParseMinusOne();
    MinusOnePages(n);
  }

  // ---------------------------------------------------------------------
  // PageRange + PageRange
  // ---------------------------------------------------------------------

  /** `PageRange.__add__`: two stride-free ranges that touch or overlap
      merge into one from the smaller start to the larger stop.  A stride
      or a gap raises ValueError; a `None` bound that the code compares
      raises TypeError (Python 3 does not order `None` and `int`). */
  function Add(p: PageRange, q: PageRange): (r: Result<PageRange>)
    ensures p.slice.step.Some? || q.slice.step.Some? ==> r == Err(ValueError)
    ensures r.Ok? ==> p.slice.step.None? && q.slice.step.None?
    ensures r.Ok? ==> p.slice.start.Some? && q.slice.start.Some? && p.slice.stop.Some? && q.slice.stop.Some?
    ensures r.Ok? ==> r.value.slice == Slice(Some(Min(p.slice.start.value, q.slice.start.value)),
                                               Some(Max(p.slice.stop.value, q.slice.stop.value)), None)
    ensures r.Ok? ==> (if p.slice.start.value <= q.slice.start.value then q.slice.start.value <= p.slice.stop.value
                       else p.slice.start.value <= q.slice.stop.value)
    ensures r.Err? ==> r.exc == ValueError || r.exc == TypeError
    ensures p.slice.step.None? && q.slice.step.None?
            && p.slice.start.Some? && q.slice.start.Some? && p.slice.stop.Some? && q.slice.stop.Some?
            && (if p.slice.start.value <= q.slice.start.value then q.slice.start.value <= p.slice.stop.value
                else p.slice.start.value <= q.slice.stop.value)
            ==> r.Ok?
    ensures p.slice.step.None? && q.slice.step.None? && p.slice.start.Some? && q.slice.start.Some?
            && (if p.slice.start.value <= q.slice.start.value
                then p.slice.stop.Some? && q.slice.start.value > p.slice.stop.value
                else q.slice.stop.Some? && p.slice.start.value > q.slice.stop.value)
            ==> r == Err(ValueError)
  {
    if p.slice.step.Some? || q.slice.step.Some? then Err(ValueError)
    else if p.slice.start.None? || q.slice.start.None? then Err(TypeError)
    else
      var a := if p.slice.start.value > q.slice.start.value then q.slice else p.slice;
      var b := if p.slice.start.value > q.slice.start.value then p.slice else q.slice;
      if a.stop.None? then Err(TypeError)
      else if b.start.value > a.stop.value then Err(ValueError)
      else if b.stop.None? then Err(TypeError)
      else Ok(PageRange(Slice(a.start, Some(Max(a.stop.value, b.stop.value)), None)))
  }

  predicate NonNegative(p: PageRange)
  {
    (p.slice.start.Some? ==> p.slice.start.value >= 0) && (p.slice.stop.Some? ==> p.slice.stop.value >= 0)
  }

  /** With non-negative bounds the sum selects exactly the pages either
      summand selects, in a document of any length. */
  lemma AddUnion(p: PageRange, q: PageRange, n: nat, i: int)
    requires NonNegative(p) && NonNegative(q) && Add(p, q).Ok?
    ensures Pages(Add(p, q).value, n).Ok? && Pages(p, n).Ok? && Pages(q, n).Ok?
    ensures i in Pages(Add(p, q).value, n).value <==> i in Pages(p, n).value || i in Pages(q, n).value
  {
    var r := Add(p, q).value;
    var tr := Indices(r.slice, n).value;
    var tp := Indices(p.slice, n).value;
    var tq := Indices(q.slice, n).value;
    RangeListStep1(tr.0, tr.1, i);
    RangeListStep1(tp.0, tp.1, i);
    RangeListStep1(tq.0, tq.1, i);
  }

  /** With a negative bound the sum is computed on the raw numbers:
      `"0:5" + "-1:6"` is `"-1:6"`, which selects nothing from ten pages,
      while the summands select pages 0 to 4 and page 9. */
  lemma AddNegative()
    ensures Add(PageRange(Slice(Some(0), Some(5), None)), PageRange(Slice(Some(-1), Some(6), None)))
         == Ok(PageRange(Slice(Some(-1), Some(6), None)))
    ensures Pages(PageRange(Slice(Some(-1), Some(6), None)), 10) == Ok([])
    ensures Pages(PageRange(Slice(Some(-1), Some(5), None)), 10) == Ok([])
    ensures 9 in Pages(PageRange(Slice(Some(-1), None, None)), 10).value
  {
    assert RangeList(9, 10, 1) == [9] + RangeList(10, 10, 1);
  }

  // ---------------------------------------------------------------------
  // parse_filename_page_ranges
  // ---------------------------------------------------------------------

  /** An argument taken for a file name: a string that is not a page range. */
  predicate IsFilename(a: Arg)
  {
    a.StrArg? && !ValidStr(a.s)
  }

  /** The page range a range-like argument stands for. */
  function RangeOf(a: Arg): (r: PageRange)
    requires Valid(a)
  {
    New(a).value
  }

  /** `[(f, r) for r in rs]`. */
  function Pairs(f: string, rs: seq<PageRange>): (r: seq<(string, PageRange)>)
    ensures |r| == |rs|
    ensures forall k :: 0 <= k < |rs| ==> r[k] == (f, rs[k])
  {
    seq(|rs|, k requires 0 <= k < |rs| => (f, rs[k]))
  }

  /** `pre` before a successful list of pairs; errors pass through. */
  function Prefixed(pre: seq<(string, PageRange)>, r: Result<seq<(string, PageRange)>>): (q: Result<seq<(string, PageRange)>>)
    ensures q.Ok? <==> r.Ok?
    ensures r.Err? ==> q == r
    ensures r.Ok? ==> q.value == pre + r.value
  {
    if r.Err? then r else Ok(pre + r.value)
  }

  /** `(current_filename, PAGE_RANGE_ALL)` for a current file that has not
      been given a range; nothing otherwise. */
  function Close(current: Option<string>, ranged: bool): seq<(string, PageRange)>
  {
    if current.Some? && !ranged then [(current.value, All)] else []
  }

  /** The loop of `parse_filename_page_ranges` as written, from the
      remaining arguments and the current file name: `None` is skipped, a
      page range is paired with the current file (ValueError before any
      file), a new file name first closes the current file with
      `PAGE_RANGE_ALL`, and any other argument raises TypeError.  At the end
      the current file gets `PAGE_RANGE_ALL` once more. */
  function ScanAsWritten(args: seq<Arg>, current: Option<string>): (r: Result<seq<(string, PageRange)>>)
    ensures r.Err? ==> r.exc == ValueError || r.exc == TypeError
    decreases |args|
  {
    if args == [] then Ok(Close(current, false))
    else
      var a := args[0];
      if a.NoneArg? then ScanAsWritten(args[1..], current)
      else if IsFilename(a) then Prefixed(Close(current, false), ScanAsWritten(args[1..], Some(a.s)))
      else if Valid(a) then
        if current.None? then Err(ValueError)
        else Prefixed([(current.value, RangeOf(a))], ScanAsWritten(args[1..], current))
      else Err(TypeError)
  }

  /** The same loop with the flag the docstring calls for: a file gets
      `PAGE_RANGE_ALL` only if no page range followed it. */
  function Scan(args: seq<Arg>, current: Option<string>, ranged: bool): (r: Result<seq<(string, PageRange)>>)
    ensures r.Err? ==> r.exc == ValueError || r.exc == TypeError
    decreases |args|
  {
    if args == [] then Ok(Close(current, ranged))
    else
      var a := args[0];
      if a.NoneArg? then Scan(args[1..], current, ranged)
      else if IsFilename(a) then Prefixed(Close(current, ranged), Scan(args[1..], Some(a.s), false))
      else if Valid(a) then
        if current.None? then Err(ValueError)
        else Prefixed([(current.value, RangeOf(a))], Scan(args[1..], current, true))
      else Err(TypeError)
  }

  /** A file name with the page ranges that follow it. */
  datatype Group = Group(file: string, ranges: seq<PageRange>)

  /** The group still collecting ranges, as a list of zero or one. */
  function OpenList(open: Option<Group>): seq<Group>
  {
    if open.Some? then [open.value] else []
  }

  /** `pre` before successful groups; errors pass through. */
  function PrependGroups(pre: seq<Group>, r: Result<seq<Group>>): (q: Result<seq<Group>>)
    ensures q.Ok? <==> r.Ok?
    ensures r.Err? ==> q == r
    ensures r.Ok? ==> q.value == pre + r.value
  {
    if r.Err? then r else Ok(pre + r.value)
  }

  /** The reference reading of the arguments: the groups of a file name and
      its ranges, in order, with the same errors as the loop.  `open` is the
      group still collecting ranges. */
  function GroupsFrom(args: seq<Arg>, open: Option<Group>): (r: Result<seq<Group>>)
    decreases |args|
  {
    if args == [] then Ok(OpenList(open))
    else
      var a := args[0];
      if a.NoneArg? then GroupsFrom(args[1..], open)
      else if IsFilename(a) then PrependGroups(OpenList(open), GroupsFrom(args[1..], Some(Group(a.s, []))))
      else if Valid(a) then
        if open.None? then Err(ValueError)
        else GroupsFrom(args[1..], Some(open.value.(ranges := open.value.ranges + [RangeOf(a)])))
      else Err(TypeError)
  }

  function Groups(args: seq<Arg>): Result<seq<Group>>
  {
    GroupsFrom(args, None)
  }

  /** The pairs of one group: its ranges, followed by `PAGE_RANGE_ALL` when
      `always` holds or when it has no ranges. */
  function Expand(g: Group, always: bool): seq<(string, PageRange)>
  {
    Pairs(g.file, g.ranges) + (if always || g.ranges == [] then [(g.file, All)] else [])
  }

  function Flatten(gs: seq<Group>, always: bool): seq<(string, PageRange)>
  {
    if gs == [] then [] else Expand(gs[0], always) + Flatten(gs[1..], always)
  }

  function FlattenResult(r: Result<seq<Group>>, always: bool): Result<seq<(string, PageRange)>>
  {
    if r.Err? then Err(r.exc) else Ok(Flatten(r.value, always))
  }

  lemma {:induction false} FlattenAppend(a: seq<Group>, b: seq<Group>, always: bool)
    ensures Flatten(a + b, always) == Flatten(a, always) + Flatten(b, always)
    decreases |a|
  {
    if a == [] {
      assert a + b == b;
    } else {
      assert (a + b)[0] == a[0] && (a + b)[1..] == a[1..] + b;
      FlattenAppend(a[1..], b, always);
    }
  }

  lemma FlattenPrepend(pre: seq<Group>, r: Result<seq<Group>>, always: bool)
    ensures FlattenResult(PrependGroups(pre, r), always) == Prefixed(Flatten(pre, always), FlattenResult(r, always))
  {
    if r.Ok? {
      FlattenAppend(pre, r.value, always);
    }
  }

  lemma PrefixedTwice(a: seq<(string, PageRange)>, b: seq<(string, PageRange)>, r: Result<seq<(string, PageRange)>>)
    ensures Prefixed(a, Prefixed(b, r)) == Prefixed(a + b, r)
  {
    if r.Ok? {
      assert a + (b + r.value) == (a + b) + r.value;
    }
  }

  lemma PrefixedEmpty(r: Result<seq<(string, PageRange)>>)
    ensures Prefixed([], r) == r
  {
    if r.Ok? {
      assert [] + r.value == r.value;
    }
  }

  lemma PairsSnoc(f: string, rs: seq<PageRange>, x: PageRange)
    ensures Pairs(f, rs + [x]) == Pairs(f, rs) + [(f, x)]
  {
  }

  /** The pairs already emitted for the open group, its file, and whether
      it has a range. */
  function OpenPairs(open: Option<Group>): seq<(string, PageRange)>
  {
    if open.Some? then Pairs(open.value.file, open.value.ranges) else []
  }

  function FileOf(open: Option<Group>): Option<string>
  {
    if open.Some? then Some(open.value.file) else None
  }

  function Ranged(open: Option<Group>): bool
  {
    open.Some? && open.value.ranges != []
  }

  /** Flattening the open group gives its pairs and then its closing pair. */
  lemma FlattenOpen(open: Option<Group>, always: bool)
    ensures Flatten(OpenList(open), always) == OpenPairs(open) + Close(FileOf(open), !always && Ranged(open))
  {
    if open.Some? {
      var g := open.value;
      assert Flatten([g], always) == Expand(g, always) + Flatten([], always);
    }
  }

  /** The loop as written equals the reference groups with every group,
      ranged or not, followed by `PAGE_RANGE_ALL`. */
  lemma {:induction false} ScanAsWrittenGroups(args: seq<Arg>, open: Option<Group>)
    ensures FlattenResult(GroupsFrom(args, open), true)
         == Prefixed(OpenPairs(open), ScanAsWritten(args, FileOf(open)))
    decreases |args|
  {
    if args == [] {
      FlattenOpen(open, true);
    } else {
      var a := args[0];
      var rest := args[1..];
      if a.NoneArg? {
        ScanAsWrittenGroups(rest, open);
      } else if IsFilename(a) {
        var next := Some(Group(a.s, []));
        ScanAsWrittenGroups(rest, next);
        FlattenPrepend(OpenList(open), GroupsFrom(rest, next), true);
        PrefixedEmpty(ScanAsWritten(rest, Some(a.s)));
        FlattenOpen(open, true);
        PrefixedTwice(OpenPairs(open), Close(FileOf(open), false), ScanAsWritten(rest, Some(a.s)));
      } else if Valid(a) && open.Some? {
        var g := open.value;
        ScanAsWrittenGroups(rest, Some(g.(ranges := g.ranges + [RangeOf(a)])));
        PairsSnoc(g.file, g.ranges, RangeOf(a));
        PrefixedTwice(Pairs(g.file, g.ranges), [(g.file, RangeOf(a))], ScanAsWritten(rest, Some(g.file)));
      }
    }
  }

  /** The corrected loop equals the reference groups, each followed by
      `PAGE_RANGE_ALL` only when it has no ranges. */
  lemma {:induction false} ScanGroups(args: seq<Arg>, open: Option<Group>)
    ensures FlattenResult(GroupsFrom(args, open), false)
         == Prefixed(OpenPairs(open), Scan(args, FileOf(open), Ranged(open)))
    decreases |args|
  {
    if args == [] {
      FlattenOpen(open, false);
    } else {
      var a := args[0];
      var rest := args[1..];
      if a.NoneArg? {
        ScanGroups(rest, open);
      } else if IsFilename(a) {
        var next := Some(Group(a.s, []));
        ScanGroups(rest, next);
        FlattenPrepend(OpenList(open), GroupsFrom(rest, next), false);
        PrefixedEmpty(Scan(rest, Some(a.s), false));
        FlattenOpen(open, false);
        PrefixedTwice(OpenPairs(open), Close(FileOf(open), Ranged(open)), Scan(rest, Some(a.s), false));
      } else if Valid(a) && open.Some? {
        var g := open.value;
        ScanGroups(rest, Some(g.(ranges := g.ranges + [RangeOf(a)])));
        PairsSnoc(g.file, g.ranges, RangeOf(a));
        PrefixedTwice(Pairs(g.file, g.ranges), [(g.file, RangeOf(a))], Scan(rest, Some(g.file), true));
      }
    }
  }

  /** `parse_filename_page_ranges(args)` as written: every file name is
      paired with `PAGE_RANGE_ALL`, after the ranges that follow it. */
  function ParseFilenamePageRangesAsWritten(args: seq<Arg>): (r: Result<seq<(string, PageRange)>>)
    ensures r == FlattenResult(Groups(args), true)
  {
    ScanAsWrittenGroups(args, None);
    PrefixedEmpty(ScanAsWritten(args, None));
    ScanAsWritten(args, None)
  }

  /** `parse_filename_page_ranges(args)` as its docstring describes it: a
      file name is paired with each page range that follows it, or with
      `PAGE_RANGE_ALL` when none does. */
  function ParseFilenamePageRanges(args: seq<Arg>): (r: Result<seq<(string, PageRange)>>)
    ensures r == FlattenResult(Groups(args), false)
  {
    ScanGroups(args, None);
    PrefixedEmpty(Scan(args, None, false));
    Scan(args, None, false)
  }

  /** The file names among the arguments, in order. */
  function Filenames(args: seq<Arg>): seq<string>
  {
    if args == [] then []
    else (if IsFilename(args[0]) then [args[0].s] else []) + Filenames(args[1..])
  }

  function Files(gs: seq<Group>): seq<string>
  {
    if gs == [] then [] else [gs[0].file] + Files(gs[1..])
  }

  /** The groups follow the file names of the arguments one to one. */
  lemma {:induction false} FilesAppend(a: seq<Group>, b: seq<Group>)
    ensures Files(a + b) == Files(a) + Files(b)
    decreases |a|
  {
    if a == [] {
      assert a + b == b;
    } else {
      assert (a + b)[0] == a[0] && (a + b)[1..] == a[1..] + b;
      FilesAppend(a[1..], b);
    }
  }

  lemma FilesOpen(open: Option<Group>)
    ensures Files(OpenList(open)) == if open.Some? then [open.value.file] else []
  {
    if open.Some? {
      assert Files([open.value]) == [open.value.file] + Files([]);
    }
  }

  lemma {:induction false} GroupFiles(args: seq<Arg>, open: Option<Group>)
    requires GroupsFrom(args, open).Ok?
    ensures Files(GroupsFrom(args, open).value) == Files(OpenList(open)) + Filenames(args)
    decreases |args|
  {
    if args == [] {
      assert Files(OpenList(open)) + [] == Files(OpenList(open));
    } else {
      var a := args[0];
      var rest := args[1..];
      if a.NoneArg? {
        assert GroupsFrom(args, open) == GroupsFrom(rest, open);
        assert Filenames(args) == Filenames(rest);
        GroupFiles(rest, open);
      } else if IsFilename(a) {
        var next := Some(Group(a.s, []));
        assert GroupsFrom(args, open) == PrependGroups(OpenList(open), GroupsFrom(rest, next));
        GroupFiles(rest, next);
        FilesOpen(next);
        var gs := GroupsFrom(rest, next).value;
        FilesAppend(OpenList(open), gs);
        assert Filenames(args) == [a.s] + Filenames(rest);
      } else {
        var next := Some(open.value.(ranges := open.value.ranges + [RangeOf(a)]));
        assert GroupsFrom(args, open) == GroupsFrom(rest, next);
        assert Filenames(args) == Filenames(rest);
        GroupFiles(rest, next);
        FilesOpen(next);
        FilesOpen(open);
      }
    }
  }

  /** Once a file name has been seen, only an argument of an unexpected
      type can fail, and it fails with TypeError. */
  lemma {:induction false} GroupsAfterFile(args: seq<Arg>, g: Group)
    ensures GroupsFrom(args, Some(g)).Ok? <==> forall k :: 0 <= k < |args| ==> !args[k].OtherArg?
    ensures GroupsFrom(args, Some(g)).Err? ==> GroupsFrom(args, Some(g)).exc == TypeError
    decreases |args|
  {
    if args != [] {
      var a := args[0];
      if a.NoneArg? {
        GroupsAfterFile(args[1..], g);
      } else if IsFilename(a) {
        GroupsAfterFile(args[1..], Group(a.s, []));
      } else if Valid(a) {
        GroupsAfterFile(args[1..], g.(ranges := g.ranges + [RangeOf(a)]));
      }
      assert forall k :: 1 <= k < |args| ==> args[k] == args[1..][k - 1];
    }
  }

  /** Before the first file name: skipped `None`s, then a page range raises
      ValueError, an unexpected type raises TypeError, and a file name
      starts the groups. */
  lemma {:induction false} GroupsLeading(args: seq<Arg>, k: nat)
    requires k < |args| && forall j :: 0 <= j < k ==> args[j].NoneArg?
    ensures Valid(args[k]) ==> Groups(args) == Err(ValueError)
    ensures args[k].OtherArg? ==> Groups(args) == Err(TypeError)
    ensures IsFilename(args[k]) ==> Groups(args) == GroupsFrom(args[k + 1..], Some(Group(args[k].s, [])))
    decreases k
  {
    if k > 0 {
      assert args[1..][k - 1] == args[k];
      GroupsLeading(args[1..], k - 1);
      assert args[1..][k - 1 + 1..] == args[k + 1..];
    } else if IsFilename(args[0]) {
      var r := GroupsFrom(args[1..], Some(Group(args[0].s, [])));
      if r.Ok? {
        assert [] + r.value == r.value;
      }
    }
  }

  /** Without a single file name, nothing but `None` succeeds, with no pairs. */
  lemma {:induction false} GroupsAllNone(args: seq<Arg>)
    requires forall j :: 0 <= j < |args| ==> args[j].NoneArg?
    ensures Groups(args) == Ok([])
    decreases |args|
  {
    if args != [] {
      GroupsAllNone(args[1..]);
    }
  }

  /** `"a.pdf"` is taken for a file name and `"0:2"` for pages 0 and 1. */
  lemma ExampleArgs()
    ensures IsFilename(StrArg("a.pdf"))
    ensures Valid(StrArg("0:2")) && RangeOf(StrArg("0:2")) == PageRange(Slice(Some(0), Some(2), None))
  {
    assert Body("a.pdf") == "a.pdf";
    assert Split("a.pdf", ':') == ["a.pdf"] by {
      FieldsOfJoin(["a.pdf"]);
      assert Join(":", ["a.pdf"]) == "a.pdf";
    }
    assert Fields("a.pdf") == ["a.pdf"];
    assert !IsIntToken("a.pdf");
    var f := Fields("a.pdf");
    assert !(f[0] == "" || IsIntToken(f[0]));
    assert IntToString(0) == "0" && IntToString(2) == "2";
    assert Join(":", ["0", "2"]) == "0:2";
    ParseFields(Some(0), Some(2), None, false);
  }

  /** The arguments `["a.pdf", "0:2"]` form one group: the file and its range. */
  lemma ExampleGroups()
    ensures Groups([StrArg("a.pdf"), StrArg("0:2")])
         == Ok([Group("a.pdf", [PageRange(Slice(Some(0), Some(2), None))])])
  {
    ExampleArgs();
    var args := [StrArg("a.pdf"), StrArg("0:2")];
    var g := Group("a.pdf", [PageRange(Slice(Some(0), Some(2), None))]);
    var r := PageRange(Slice(Some(0), Some(2), None));
    assert args[1..] == [StrArg("0:2")];
    assert [StrArg("0:2")][1..] == [];
    assert !IsFilename(StrArg("0:2"));
    assert Group("a.pdf", []).(ranges := [] + [r]) == g;
    assert GroupsFrom([StrArg("0:2")], Some(Group("a.pdf", []))) == GroupsFrom([], Some(g));
    assert GroupsFrom(args, None) == PrependGroups([], Ok([g]));
    assert [] + [g] == [g];
  }

  /** One file followed by one page range: as written the file gets the
      range and then every page again; as documented only the range. */
  lemma ParseFilenamePageRangesCounterexample()
    ensures ParseFilenamePageRangesAsWritten([StrArg("a.pdf"), StrArg("0:2")])
         == Ok([("a.pdf", PageRange(Slice(Some(0), Some(2), None))), ("a.pdf", All)])
    ensures ParseFilenamePageRanges([StrArg("a.pdf"), StrArg("0:2")])
         == Ok([("a.pdf", PageRange(Slice(Some(0), Some(2), None)))])
  {
    ExampleGroups();
    var r := PageRange(Slice(Some(0), Some(2), None));
    var g := Group("a.pdf", [r]);
    assert Pairs("a.pdf", [r]) == [("a.pdf", r)];
    assert Expand(g, true) == [("a.pdf", r), ("a.pdf", All)];
    assert Expand(g, false) == [("a.pdf", r)];
    assert [g][1..] == [];
    assert Flatten([g], true) == Expand(g, true) + Flatten([], true) == Expand(g, true);
    assert Flatten([g], false) == Expand(g, false) + Flatten([], false) == Expand(g, false);
    assert FlattenResult(Ok([g]), true) == Ok([("a.pdf", r), ("a.pdf", All)]);
    assert FlattenResult(Ok([g]), false) == Ok([("a.pdf", r)]);
  }

  /** The empty string is no page range, so it is taken for a file name,
      which with nothing after it gets every page. */
  lemma EmptyArgIsFilename()
    ensures IsFilename(StrArg(""))
    ensures ParseFilenamePageRangesAsWritten([StrArg("")]) == Ok([("", All)])
    ensures ParseFilenamePageRanges([StrArg("")]) == Ok([("", All)])
  {
    assert Fields("") == [""];
    var g := Group("", []);
    assert [StrArg("")][1..] == [];
    assert GroupsFrom([StrArg("")], None) == PrependGroups([], Ok([g]));
    assert [] + [g] == [g];
    assert Pairs("", []) == [];
    assert [g][1..] == [];
    assert Flatten([g], true) == Expand(g, true) + Flatten([], true);
    assert Flatten([g], false) == Expand(g, false) + Flatten([], false);
    assert Expand(g, true) == [("", All)] && Expand(g, false) == [("", All)];
    assert Flatten([g], true) == [("", All)] && Flatten([g], false) == [("", All)];
    assert FlattenResult(Ok([g]), true) == Ok([("", All)]);
    assert FlattenResult(Ok([g]), false) == Ok([("", All)]);
  }
}
