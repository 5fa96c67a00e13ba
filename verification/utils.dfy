/** The byte-stream scanners of `pypdf/_utils.py`, over an in-memory stream
    (`BytesIO`), and the `Version` ordering used for version strings.

    A stream is its bytes and the current offset.  The scanners are only
    ever called with the offset inside the buffer (at most one past the last
    byte), so that is their precondition. */
module Utils {
  import opened PyBase
  import opened PyText

  datatype Stream = Stream(data: seq<byte>, pos: nat)

  predicate InBounds(s: Stream) { s.pos <= |s.data| }

  /** `byte in WHITESPACES`: space, LF, CR, tab and NUL (`_utils.py:173`). */
  predicate IsWhitespace(b: byte) { b == 32 || b == 10 || b == 13 || b == 9 || b == 0 }

  /** Every byte of `data[lo..hi]` is whitespace. */
  predicate AllWhitespace(data: seq<byte>, lo: int, hi: int)
    requires 0 <= lo && hi <= |data|
  {
    forall k :: lo <= k < hi ==> IsWhitespace(data[k])
  }

  predicate NoWhitespace(bs: seq<byte>)
  {
    forall k :: 0 <= k < |bs| ==> !IsWhitespace(bs[k])
  }

  // ---------------------------------------------------------------------
  // read_until_whitespace
  // ---------------------------------------------------------------------

  /** The loop of `read_until_whitespace` from offset `i`, having collected
      `data[start..i]`.  It stops once `maxchars` bytes are collected, at the
      end of the data, or at a whitespace byte, which is consumed. */
  function UntilWhitespace(data: seq<byte>, start: nat, i: nat, maxchars: Option<int>): (r: (seq<byte>, nat))
    requires start <= i <= |data|
    requires NoWhitespace(data[start..i])
    requires maxchars.Some? ==> i - start <= Max(0, maxchars.value)
    ensures start + |r.0| <= |data| && r.0 == data[start..start + |r.0|]
    ensures i - start <= |r.0|
    ensures NoWhitespace(r.0)
    ensures maxchars.Some? ==> |r.0| <= Max(0, maxchars.value)
    ensures var e := start + |r.0|;
      (maxchars.Some? && |r.0| >= maxchars.value && r.1 == e)
      || (e == |data| && r.1 == e)
      || (e < |data| && IsWhitespace(data[e]) && r.1 == e + 1)
    decreases |data| - i
  {
    if maxchars.Some? && i - start >= maxchars.value then (data[start..i], i)
    else if i == |data| then (data[start..i], i)
    else if IsWhitespace(data[i]) then (data[start..i], i + 1)
    else
      assert data[start..i + 1] == data[start..i] + [data[i]];
      UntilWhitespace(data, start, i + 1, maxchars)
  }

  /** `read_until_whitespace(stream, maxchars)`: the bytes up to the next
      whitespace byte, the end of the stream or `maxchars` bytes, whichever
      comes first.  The result is a whitespace-free run of the stream starting
      at the old position; the stream moves past it and past the whitespace
      byte that stopped it. */
  function ReadUntilWhitespace(s: Stream, maxchars: Option<int>): (r: (seq<byte>, Stream))
    requires InBounds(s)
    ensures r.1.data == s.data && InBounds(r.1)
    ensures s.pos + |r.0| <= |s.data| && r.0 == s.data[s.pos..s.pos + |r.0|]
    ensures NoWhitespace(r.0)
    ensures maxchars.Some? ==> |r.0| <= Max(0, maxchars.value)
    ensures var e := s.pos + |r.0|;
      (maxchars.Some? && |r.0| >= maxchars.value && r.1.pos == e)
      || (e == |s.data| && r.1.pos == e)
      || (e < |s.data| && IsWhitespace(s.data[e]) && r.1.pos == e + 1)
  {
    var (bs, p) := UntilWhitespace(s.data, s.pos, s.pos, maxchars);
    (bs, Stream(s.data, p))
  }

  /** The run `read_until_whitespace` returns is the longest one allowed:
      when it is shorter than `maxchars` and the stream has not ended, the
      byte after it is whitespace. */
  lemma ReadUntilWhitespaceMaximal(s: Stream, maxchars: Option<int>)
    requires InBounds(s)
    ensures var bs := ReadUntilWhitespace(s, maxchars).0;
      ((maxchars.None? || |bs| < maxchars.value) && s.pos + |bs| < |s.data|)
      ==> IsWhitespace(s.data[s.pos + |bs|]) && ReadUntilWhitespace(s, maxchars).1.pos == s.pos + |bs| + 1
  {
  }

  // ---------------------------------------------------------------------
  // read_non_whitespace
  // ---------------------------------------------------------------------

  /** The loop of `read_non_whitespace` from offset `i`.  A byte not in
      WHITESPACES is returned; the end of the stream reads as `b""`, which is
      not in WHITESPACES either, so it is returned too: the PdfStreamError
      raised after that test can never be reached, and the loop never
      raises. */
  function NonWhitespace(data: seq<byte>, i: nat): (r: (seq<byte>, nat))
    requires i <= |data|
    ensures r.0 == [] ==> r.1 == |data| && AllWhitespace(data, i, |data|)
    ensures r.0 != [] ==>
      i < r.1 <= |data| && r.0 == [data[r.1 - 1]]
      && !IsWhitespace(data[r.1 - 1]) && AllWhitespace(data, i, r.1 - 1)
    decreases |data| - i
  {
    if i == |data| then ([], i)
    else if !IsWhitespace(data[i]) then ([data[i]], i + 1)
    else NonWhitespace(data, i + 1)
  }

  /** `read_non_whitespace(stream)`: the first byte that is not whitespace,
      with the stream just past it; `b""` at the end of the stream. */
  function ReadNonWhitespace(s: Stream): (r: (seq<byte>, Stream))
    requires InBounds(s)
    ensures r.1.data == s.data && InBounds(r.1)
    ensures r.0 == [] <==> AllWhitespace(s.data, s.pos, |s.data|)
    ensures r.0 != [] ==>
      var k := r.1.pos - 1;
      s.pos <= k && r.0 == [s.data[k]] && !IsWhitespace(s.data[k])
      && AllWhitespace(s.data, s.pos, k)
  {
    var (b, p) := NonWhitespace(s.data, s.pos);
    (b, Stream(s.data, p))
  }

  // ---------------------------------------------------------------------
  // skip_over_whitespace
  // ---------------------------------------------------------------------

  /** The loop of `skip_over_whitespace` from offset `i`.  The byte that
      ends the loop is read and then given back with `seek(-1, SEEK_CUR)`;
      at the end of the stream nothing was read, so the seek moves one byte
      back from the end (a `BytesIO` clamps the offset at 0). */
  function SkipWhitespace(data: seq<byte>, i: nat, skipped: bool): (r: (bool, nat))
    requires i <= |data|
    ensures r.0 <==> skipped || (i < |data| && IsWhitespace(data[i]))
    ensures (i <= r.1 < |data| && !IsWhitespace(data[r.1]) && AllWhitespace(data, i, r.1))
      || (AllWhitespace(data, i, |data|) && r.1 == Max(0, |data| - 1))
    decreases |data| - i
  {
    if i < |data| && IsWhitespace(data[i]) then SkipWhitespace(data, i + 1, true)
    else (skipped, if i < |data| then i else Max(0, i - 1))
  }

  /** `skip_over_whitespace(stream)`: True iff at least one whitespace byte
      was skipped.  The stream stops at the first byte that is not
      whitespace; when the rest of the stream is whitespace, it stops one byte
      before the end rather than at the end. */
  function SkipOverWhitespace(s: Stream): (r: (bool, Stream))
    requires InBounds(s)
    ensures r.1.data == s.data && InBounds(r.1)
    ensures r.0 <==> s.pos < |s.data| && IsWhitespace(s.data[s.pos])
    ensures (s.pos <= r.1.pos < |s.data| && !IsWhitespace(s.data[r.1.pos]) && AllWhitespace(s.data, s.pos, r.1.pos))
      || (AllWhitespace(s.data, s.pos, |s.data|) && r.1.pos == Max(0, |s.data| - 1))
  {
    var (skipped, p) := SkipWhitespace(s.data, s.pos, false);
    (skipped, Stream(s.data, p))
  }

  /** The same scan leaving the stream at the end when only whitespace
      remains, as the position a caller expects after skipping. */
  function SkipOverWhitespaceCorrected(s: Stream): (r: (bool, Stream))
    requires InBounds(s)
    ensures r.1.data == s.data && InBounds(r.1)
    ensures r.0 <==> s.pos < |s.data| && IsWhitespace(s.data[s.pos])
    ensures s.pos <= r.1.pos && AllWhitespace(s.data, s.pos, r.1.pos)
    ensures r.1.pos == |s.data| || !IsWhitespace(s.data[r.1.pos])
  {
    var (skipped, t) := SkipOverWhitespace(s);
    if AllWhitespace(s.data, s.pos, |s.data|) then (skipped, Stream(s.data, |s.data|)) else (skipped, t)
  }

  /** After a skip, reading on sees no whitespace (the corrected scan) */
  lemma SkipThenReadCorrected(s: Stream)
    requires InBounds(s)
    ensures var t := SkipOverWhitespaceCorrected(s).1;
      ReadNonWhitespace(t).0 == (if t.pos < |s.data| then [s.data[t.pos]] else [])
  {
    var t := SkipOverWhitespaceCorrected(s).1;
    if t.pos == |s.data| {
      assert AllWhitespace(s.data, t.pos, |s.data|);
    }
  }

  /** On a stream ending in whitespace, the scan as written leaves the
      stream on that final whitespace byte: `b"a "` from offset 1 reports a
      skip but stays at offset 1, where the corrected scan reaches 2. */
  lemma SkipAtEndCounterexample()
    ensures SkipOverWhitespace(Stream([97, 32], 1)) == (true, Stream([97, 32], 1))
    ensures SkipOverWhitespaceCorrected(Stream([97, 32], 1)) == (true, Stream([97, 32], 2))
  {
    assert SkipWhitespace([97, 32], 2, true) == (true, 1);
    assert AllWhitespace([97, 32], 1, 2);
  }

  // ---------------------------------------------------------------------
  // check_if_whitespace_only
  // ---------------------------------------------------------------------

  /** `byte in WHITESPACES` where `byte` comes from iterating a `bytes`
      value: the element is an `int`, and an `int` never equals any of the
      one-byte `bytes` objects in WHITESPACES. */
  predicate IntInWhitespaces(b: byte) { false }

  /** `check_if_whitespace_only(value)` as written: `all` over the ints of
      `value`. */
  predicate CheckIfWhitespaceOnly(value: seq<byte>)
  {
    forall k :: 0 <= k < |value| ==> IntInWhitespaces(value[k])
  }

  /** As written, only the empty value counts as whitespace-only. */
  lemma WhitespaceOnlyIffEmpty(value: seq<byte>)
    ensures CheckIfWhitespaceOnly(value) <==> value == []
  {
    if value != [] {
      assert !IntInWhitespaces(value[0]);
    }
  }

  /** The evidently intended test: every byte is one of the WHITESPACES. */
  predicate IsWhitespaceOnly(value: seq<byte>)
  {
    AllWhitespace(value, 0, |value|)
  }

  /** The intended test agrees with the scanners: a stream holds only
      whitespace from its position on iff `read_non_whitespace` finds
      nothing there. */
  lemma WhitespaceOnlyMeansNothingToRead(s: Stream)
    requires InBounds(s)
    ensures IsWhitespaceOnly(s.data[s.pos..]) <==> ReadNonWhitespace(s).0 == []
  {
    var rest := s.data[s.pos..];
    if IsWhitespaceOnly(rest) {
      forall k | s.pos <= k < |s.data|
        ensures IsWhitespace(s.data[k])
      {
        assert s.data[k] == rest[k - s.pos];
      }
    }
    if AllWhitespace(s.data, s.pos, |s.data|) {
      forall k | 0 <= k < |rest|
        ensures IsWhitespace(rest[k])
      {
        assert rest[k] == s.data[s.pos + k];
      }
    }
  }

  /** `b" "` is whitespace only, yet the test as written says it is not. */
  lemma WhitespaceOnlyCounterexample()
    ensures !CheckIfWhitespaceOnly([32])
    ensures IsWhitespaceOnly([32])
  {
    var v: seq<byte> := [32];
    assert !IntInWhitespaces(v[0]);
  }

  // ---------------------------------------------------------------------
  // read_block_backwards
  // ---------------------------------------------------------------------

  /** `stream.read(n)` from offset `p`: at most `n` bytes, everything left
      when `n` is negative, nothing beyond the end. */
  function ReadAt(data: seq<byte>, p: nat, n: int): seq<byte>
  {
    if p >= |data| then []
    else if n < 0 then data[p..]
    else data[p..Min(|data|, p + n)]
  }

  /** `read_block_backwards(stream, to_read)`: the block of (at most)
      `to_read` bytes ending at the current position, with the stream moved
      to the block's start.  A negative `to_read` starts after the position
      and, since `read` of a negative count reads everything, returns the
      rest of the stream from there. */
  function ReadBlockBackwards(s: Stream, toRead: int): (r: (seq<byte>, Stream))
    requires InBounds(s)
    ensures r.1.data == s.data
    ensures toRead >= 0 ==>
      r.1.pos == Max(0, s.pos - toRead) && r.0 == s.data[r.1.pos..s.pos]
      && |r.0| == Min(toRead, s.pos)
    ensures toRead < 0 ==>
      r.1.pos == s.pos - toRead && r.0 == (if r.1.pos < |s.data| then s.data[r.1.pos..] else [])
  {
    var start := Max(0, s.pos - toRead);
    (ReadAt(s.data, start, s.pos - start), Stream(s.data, start))
  }

  /** Reading a block backwards and then forwards again restores it: the
      block followed by the rest equals the rest from the block's start. */
  lemma ReadBlockBackwardsThenForwards(s: Stream, toRead: nat)
    requires InBounds(s)
    ensures var r := ReadBlockBackwards(s, toRead);
      r.0 + s.data[s.pos..] == s.data[r.1.pos..]
  {
    var (block, t) := ReadBlockBackwards(s, toRead);
    assert s.data[t.pos..] == s.data[t.pos..s.pos] + s.data[s.pos..];
  }

  // ---------------------------------------------------------------------
  // read_previous_line
  // ---------------------------------------------------------------------

  predicate IsEol(b: byte) { b == 13 || b == 10 }

  predicate AllEol(data: seq<byte>, lo: int, hi: int)
    requires 0 <= lo && hi <= |data|
  {
    forall k :: lo <= k < hi ==> IsEol(data[k])
  }

  predicate NoEol(bs: seq<byte>)
  {
    forall k :: 0 <= k < |bs| ==> !IsEol(bs[k])
  }

  /** The backward loop of `read_previous_line` started at offset `x`,
      about to step back from `cur`.  `line` holds the bytes gathered so far
      in forward order (the source gathers them reversed and reverses at the
      end).  Each step seeks to `cur - 1` and reads one byte, which leaves the
      stream at `cur`; a line end after a non-empty line seeks there again. */
  function PreviousLine(data: seq<byte>, x: nat, cur: nat, line: seq<byte>): (r: (seq<byte>, nat))
    requires cur <= x <= |data| && cur + |line| <= x
    requires line == data[cur..cur + |line|] && NoEol(line)
    requires AllEol(data, cur + |line|, x)
    ensures NoEol(r.0)
    ensures (1 <= r.1 <= cur && IsEol(data[r.1 - 1]) && r.0 != [] && r.1 + |r.0| <= x
             && OccursAt(data, r.0, r.1) && AllEol(data, r.1 + |r.0|, x))
         || (|r.0| <= x && OccursAt(data, r.0, 0) && AllEol(data, |r.0|, x) && r.1 == Min(x, 1))
    decreases cur
  {
    if cur == 0 then (line, Min(x, 1))
    else
      var c := cur - 1;
      if IsEol(data[c]) then
        if line != [] then (line, c + 1)
        else PreviousLine(data, x, c, line)
      else
        assert data[c..c + 1 + |line|] == [data[c]] + line;
        PreviousLine(data, x, c, [data[c]] + line)
  }

  /** `read_previous_line(stream)`: the line before the position.  Line ends
      (CR/LF) directly before the position are skipped; the result is the
      longest run without line ends before them, in forward order.  The
      stream is left at the start of that run when a line end precedes it,
      and at offset 1 when the run reaches the start of the stream (offset
      0 only if it was already there). */
  function ReadPreviousLine(s: Stream): (r: (seq<byte>, Stream))
    requires InBounds(s)
    ensures r.1.data == s.data && InBounds(r.1)
    ensures NoEol(r.0)
    ensures (r.1.pos >= 1 && IsEol(s.data[r.1.pos - 1]) && r.0 != [] && r.1.pos + |r.0| <= s.pos
             && OccursAt(s.data, r.0, r.1.pos) && AllEol(s.data, r.1.pos + |r.0|, s.pos))
         || (|r.0| <= s.pos && OccursAt(s.data, r.0, 0) && AllEol(s.data, |r.0|, s.pos)
             && r.1.pos == Min(s.pos, 1))
  {
    var (line, p) := PreviousLine(s.data, s.pos, s.pos, []);
    (line, Stream(s.data, p))
  }

  /** The position the function's own documentation promises: the start of
      the stream when no line end precedes the line. */
  function ReadPreviousLineCorrected(s: Stream): (r: (seq<byte>, Stream))
    requires InBounds(s)
    ensures r.0 == ReadPreviousLine(s).0 && r.1.data == s.data && InBounds(r.1)
    ensures r.1.pos == 0 || IsEol(s.data[r.1.pos - 1])
  {
    var (line, t) := ReadPreviousLine(s);
    if t.pos >= 1 && IsEol(s.data[t.pos - 1]) then (line, t) else (line, Stream(s.data, 0))
  }

  /** On `b"ab"` read backwards from the end, the line `b"ab"` starts at
      offset 0 but the stream is left at offset 1. */
  lemma PreviousLineCounterexample()
    ensures ReadPreviousLine(Stream([97, 98], 2)) == ([97, 98], Stream([97, 98], 1))
    ensures ReadPreviousLineCorrected(Stream([97, 98], 2)) == ([97, 98], Stream([97, 98], 0))
  {
    assert PreviousLine([97, 98], 2, 1, [98]) == PreviousLine([97, 98], 2, 0, [97, 98]);
  }

  // ---------------------------------------------------------------------
  // Version
  // ---------------------------------------------------------------------

  /** One dot-separated part of a version: its leading number and the rest. */
  datatype Component = Component(value: nat, suffix: string)

  /** The longest prefix of ASCII digits. */
  function DigitPrefix(s: string): (r: string)
    ensures |r| <= |s| && r == s[..|r|]
    ensures forall k :: 0 <= k < |r| ==> IsDigit(r[k])
    ensures |r| == |s| || !IsDigit(s[|r|])
  {
    if s != [] && IsDigit(s[0]) then [s[0]] + DigitPrefix(s[1..]) else []
  }

  /** `COMPONENT_PATTERN.match(part)` for `^(\d+)(.*)$`: a digit run, then
      anything without a line feed, up to the end or a final line feed. */
  predicate ComponentMatches(part: string)
  {
    var d := DigitPrefix(part);
    var rest := part[|d|..];
    |d| >= 1 && (forall k :: 0 <= k < |rest| - 1 ==> rest[k] != '\n')
  }

  /** One iteration of `_parse_version`: `(int(value), suffix)` on a match,
      else `(0, part)`. */
  function ParseComponent(part: string): (c: Component)
    ensures !ComponentMatches(part) ==> c == Component(0, part)
    ensures ComponentMatches(part) ==>
      var d := DigitPrefix(part);
      c.value == DigitsValue(d)
      && d + c.suffix + (if |c.suffix| + |d| < |part| then "\n" else "") == part
  {
    if ComponentMatches(part) then
      var d := DigitPrefix(part);
      var rest := part[|d|..];
      var suffix := if rest != [] && rest[|rest| - 1] == '\n' then rest[..|rest| - 1] else rest;
      assert d + rest == part;
      if suffix == rest then
        Component(DigitsValue(d), suffix)
      else
        assert rest == suffix + "\n";
        Component(DigitsValue(d), suffix)
    else Component(0, part)
  }

  /** `Version._parse_version(version_str)`. */
  function ParseVersion(v: string): (cs: seq<Component>)
    ensures |cs| == |Split(v, '.')| >= 1
    ensures forall k :: 0 <= k < |cs| ==> cs[k] == ParseComponent(Split(v, '.')[k])
  {
    var parts := Split(v, '.');
    seq(|parts|, k requires 0 <= k < |parts| => ParseComponent(parts[k]))
  }

  /** The loop of `Version.__lt__` from component `i`: the first component
      that differs in value or suffix decides; if all shared components agree,
      the shorter version is the smaller. */
  function LessFrom(a: seq<Component>, b: seq<Component>, i: nat): bool
    requires i <= Min(|a|, |b|)
    decreases Min(|a|, |b|) - i
  {
    if i == Min(|a|, |b|) then |a| < |b|
    else if a[i].value < b[i].value then true
    else if a[i].value > b[i].value then false
    else if StrLess(a[i].suffix, b[i].suffix) then true
    else if StrLess(b[i].suffix, a[i].suffix) then false
    else LessFrom(a, b, i + 1)
  }

  /** `Version.__lt__` on parsed components. */
  predicate VersionLess(a: seq<Component>, b: seq<Component>)
  {
    LessFrom(a, b, 0)
  }

  /** What `__lt__` is compared with: another version or some other object. */
  datatype Operand = AVersion(components: seq<Component>) | NotAVersion

  /** `Version.__lt__`: comparing with anything but a Version raises
      ValueError. */
  function Lt(a: seq<Component>, other: Operand): (r: Result<bool>)
    ensures other.NotAVersion? <==> r == Err(ValueError)
    ensures other.AVersion? ==> r == Ok(VersionLess(a, other.components))
  {
    match other
    case NotAVersion => Err(ValueError)
    case AVersion(b) => Ok(VersionLess(a, b))
  }

  /** `Version.__eq__`: equal components; anything but a Version is unequal. */
  function Eq(a: seq<Component>, other: Operand): (r: bool)
    ensures r <==> other.AVersion? && other.components == a
  {
    match other
    case NotAVersion => false
    case AVersion(b) => a == b
  }

  lemma {:induction false} LessFromTrichotomy(a: seq<Component>, b: seq<Component>, i: nat)
    requires i <= Min(|a|, |b|)
    requires a[..i] == b[..i]
    ensures a == b || LessFrom(a, b, i) || LessFrom(b, a, i)
    ensures !(LessFrom(a, b, i) && LessFrom(b, a, i))
    decreases Min(|a|, |b|) - i
  {
    if i == Min(|a|, |b|) {
      if |a| == |b| {
        assert a == a[..i] && b == b[..i];
      }
    } else {
      StrLessTrichotomy(a[i].suffix, b[i].suffix);
      if a[i] == b[i] {
        assert a[..i + 1] == a[..i] + [a[i]] && b[..i + 1] == b[..i] + [b[i]];
        LessFromTrichotomy(a, b, i + 1);
      }
    }
  }

  /** `Version.__lt__` with component equality is a strict total order:
      exactly one of a < b, a == b, b < a holds. */
  lemma VersionTrichotomy(a: seq<Component>, b: seq<Component>)
    ensures a == b || VersionLess(a, b) || VersionLess(b, a)
    ensures !(VersionLess(a, b) && VersionLess(b, a))
    ensures !VersionLess(a, a)
  {
    LessFromTrichotomy(a, b, 0);
    LessFromTrichotomy(a, a, 0);
  }

  lemma {:induction false} LessFromTransitive(a: seq<Component>, b: seq<Component>, c: seq<Component>, i: nat)
    requires i <= Min(Min(|a|, |b|), |c|)
    requires LessFrom(a, b, i) && LessFrom(b, c, i)
    ensures LessFrom(a, c, i)
    decreases Min(|a|, |b|) - i
  {
    if i < Min(Min(|a|, |b|), |c|) {
      if a[i].value == b[i].value == c[i].value {
        StrLessTrichotomy(a[i].suffix, b[i].suffix);
        StrLessTrichotomy(b[i].suffix, c[i].suffix);
        StrLessTrichotomy(a[i].suffix, c[i].suffix);
        if StrLess(a[i].suffix, b[i].suffix) && StrLess(b[i].suffix, c[i].suffix) {
          StrLessTransitive(a[i].suffix, b[i].suffix, c[i].suffix);
        } else if a[i].suffix == b[i].suffix == c[i].suffix {
          LessFromTransitive(a, b, c, i + 1);
        }
      }
    }
  }

  lemma VersionTransitive(a: seq<Component>, b: seq<Component>, c: seq<Component>)
    requires VersionLess(a, b) && VersionLess(b, c)
    ensures VersionLess(a, c)
  {
    LessFromTransitive(a, b, c, 0);
  }

  /** A purely numeric dotted version parses to its numbers with empty
      suffixes: "1.10" has components (1, "") and (10, ""). */
  lemma NumericVersion(ns: seq<nat>)
    requires |ns| >= 1
    ensures var parts := seq(|ns|, k requires 0 <= k < |ns| => NatToString(ns[k]));
      ParseVersion(Join(".", parts)) == seq(|ns|, k requires 0 <= k < |ns| => Component(ns[k], ""))
  {
    var parts := seq(|ns|, k requires 0 <= k < |ns| => NatToString(ns[k]));
    forall k | 0 <= k < |parts|
      ensures '.' !in parts[k]
    {
      assert forall j :: 0 <= j < |parts[k]| ==> IsDigit(parts[k][j]);
    }
    SplitJoin(parts, '.');
    forall k | 0 <= k < |ns|
      ensures ParseComponent(parts[k]) == Component(ns[k], "")
    {
      NumericComponent(ns[k]);
    }
  }

  lemma NumericComponent(n: nat)
    ensures ParseComponent(NatToString(n)) == Component(n, "")
  {
    var s := NatToString(n);
    AllDigitsPrefix(s);
    DigitsValueOfNatToString(n);
  }

  lemma {:induction false} AllDigitsPrefix(s: string)
    requires forall k :: 0 <= k < |s| ==> IsDigit(s[k])
    ensures DigitPrefix(s) == s
  {
    if s != [] {
      AllDigitsPrefix(s[1..]);
    }
  }
}
