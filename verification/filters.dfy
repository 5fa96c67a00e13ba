/** Stream filter codecs of `pypdf/filters.py`: RunLengthDecode (section
    7.4.5 of ISO 32000-1), ASCIIHexDecode (section 7.4.2), the TIFF and PNG
    predictors undone after FlateDecode (section 7.4.4.4, PNG filter types of
    RFC 2083 section 6), ASCII85Decode's delimiter handling and the
    `decode_stream_data` filter-chain dispatcher.  zlib inflate and base-85
    decoding are library codecs and enter as parameters. */
module Filters {
  import opened PyBase
  import opened PdfObjects
  import Lzw

  // ---------------------------------------------------------------------
  // RunLengthDecode
  // ---------------------------------------------------------------------

  /** `[b] * n` */
  function Fill(b: byte, n: nat): (r: seq<byte>)
    ensures |r| == n
    ensures forall k :: 0 <= k < n ==> r[k] == b
  {
    if n == 0 then [] else [b] + Fill(b, n - 1)
  }

  /** `prefix` in front of a successful decode; an error passes through. */
  function Prepend(prefix: seq<byte>, r: Result<seq<byte>>): (p: Result<seq<byte>>)
    ensures p.Ok? <==> r.Ok?
    ensures p.Ok? ==> p.value == prefix + r.value
    ensures p.Err? ==> p == r
  {
    if r.Ok? then Ok(prefix + r.value) else r
  }

  lemma PrependPrepend(a: seq<byte>, b: seq<byte>, r: Result<seq<byte>>)
    ensures Prepend(a, Prepend(b, r)) == Prepend(a + b, r)
  {
    if r.Ok? {
      assert a + (b + r.value) == (a + b) + r.value;
    }
  }

  /** RunLengthDecode.decode.  A length byte L < 128 copies the next L+1
      bytes (fewer when the data ends first: the slice is clamped), L > 128
      repeats the next byte 257-L times, and 128 ends the data.  A repeat
      header with no byte after it is the one error. */
  function RunLengthDecode(data: seq<byte>): (r: Result<seq<byte>>)
    ensures r.Err? ==> r.exc == PdfStreamError
    decreases |data|
  {
    if |data| == 0 then Ok([])
    else
      var length := data[0];
      if length == 128 then Ok([])
      else if length < 128 then
        var n := Min(length + 1, |data| - 1);
        Prepend(data[1..1 + n], RunLengthDecode(data[1 + n..]))
      else if |data| < 2 then Err(PdfStreamError)
      else Prepend(Fill(data[1], 257 - length), RunLengthDecode(data[2..]))
  }

  /** Each input byte yields at most 64 output bytes (a two-byte repeat run
      expands to at most 128). */
  lemma {:induction false} RunLengthDecodeBound(data: seq<byte>)
    ensures RunLengthDecode(data).Ok? ==> |RunLengthDecode(data).value| <= 64 * |data|
    decreases |data|
  {
    if |data| > 0 && data[0] != 128 {
      if data[0] < 128 {
        var n := Min(data[0] + 1, |data| - 1);
        RunLengthDecodeBound(data[1 + n..]);
      } else if |data| >= 2 {
        RunLengthDecodeBound(data[2..]);
      }
    }
  }

  /** One run of a run-length encoding, as an encoder would choose it. */
  datatype Run = Literal(bytes: seq<byte>) | Repeat(b: byte, count: int)

  predicate ValidRun(run: Run)
  {
    match run
    case Literal(bytes) => 1 <= |bytes| <= 128
    case Repeat(_, count) => 2 <= count <= 128
  }

  predicate ValidRuns(runs: seq<Run>)
  {
    forall run <- runs :: ValidRun(run)
  }

  function EncodeRun(run: Run): seq<byte>
    requires ValidRun(run)
  {
    match run
    case Literal(bytes) => [|bytes| - 1] + bytes
    case Repeat(b, count) => [257 - count, b]
  }

  function ExpandRun(run: Run): seq<byte>
    requires ValidRun(run)
  {
    match run
    case Literal(bytes) => bytes
    case Repeat(b, count) => Fill(b, count)
  }

  function EncodeRuns(runs: seq<Run>): seq<byte>
    requires ValidRuns(runs)
  {
    if runs == [] then [] else EncodeRun(runs[0]) + EncodeRuns(runs[1..])
  }

  function ExpandRuns(runs: seq<Run>): seq<byte>
    requires ValidRuns(runs)
  {
    if runs == [] then [] else ExpandRun(runs[0]) + ExpandRuns(runs[1..])
  }

  /** Decoding an encoded run sequence followed by anything yields the runs'
      expansion in front of whatever the rest decodes to. */
  lemma {:induction false} RunLengthDecodeRuns(runs: seq<Run>, tail: seq<byte>)
    requires ValidRuns(runs)
    ensures RunLengthDecode(EncodeRuns(runs) + tail) == Prepend(ExpandRuns(runs), RunLengthDecode(tail))
  {
    if runs == [] {
      assert EncodeRuns(runs) + tail == tail;
      var r := RunLengthDecode(tail);
      if r.Ok? {
        assert [] + r.value == r.value;
      }
    } else {
      RunLengthDecodeRuns(runs[1..], tail);
      RunLengthDecodeRunsStep(runs, tail);
    }
  }

  lemma {:induction false} RunLengthDecodeRunsStep(runs: seq<Run>, tail: seq<byte>)
    requires runs != [] && ValidRuns(runs)
    requires RunLengthDecode(EncodeRuns(runs[1..]) + tail) == Prepend(ExpandRuns(runs[1..]), RunLengthDecode(tail))
    ensures RunLengthDecode(EncodeRuns(runs) + tail) == Prepend(ExpandRuns(runs), RunLengthDecode(tail))
  {
    var rest := EncodeRuns(runs[1..]) + tail;
    EncodeRunsCons(runs, tail);
    DecodeOneRun(runs[0], rest);
    PrependPrepend(ExpandRun(runs[0]), ExpandRuns(runs[1..]), RunLengthDecode(tail));
  }

  lemma EncodeRunsCons(runs: seq<Run>, tail: seq<byte>)
    requires runs != [] && ValidRuns(runs)
    ensures EncodeRuns(runs) + tail == EncodeRun(runs[0]) + (EncodeRuns(runs[1..]) + tail)
    ensures ExpandRuns(runs) == ExpandRun(runs[0]) + ExpandRuns(runs[1..])
  {
  }

  lemma DecodeOneRun(run: Run, rest: seq<byte>)
    requires ValidRun(run)
    ensures RunLengthDecode(EncodeRun(run) + rest) == Prepend(ExpandRun(run), RunLengthDecode(rest))
  {
    var data := EncodeRun(run) + rest;
    match run
    case Literal(bytes) =>
      assert data[0] == |bytes| - 1;
      assert data[1..1 + |bytes|] == bytes;
      assert data[1 + |bytes|..] == rest;
    case Repeat(b, count) =>
      assert data[0] == 257 - count && data[1] == b;
      assert data[2..] == rest;
  }

  /** Round trip: the encoding of valid runs, terminated by the EOD byte 128,
      decodes to the runs' expansion, and anything after 128 is ignored. */
  lemma RunLengthRoundTrip(runs: seq<Run>, after: seq<byte>)
    requires ValidRuns(runs)
    ensures RunLengthDecode(EncodeRuns(runs) + [128] + after) == Ok(ExpandRuns(runs))
  {
    var t := [128] + after;
    assert RunLengthDecode(t) == Ok([]);
    RunLengthDecodeRuns(runs, t);
    assert EncodeRuns(runs) + [128] + after == EncodeRuns(runs) + t;
    assert ExpandRuns(runs) + [] == ExpandRuns(runs);
  }

  /** A repeat header as the very last byte raises PdfStreamError. */
  lemma RunLengthMissingRepeatByte(runs: seq<Run>, header: byte)
    requires ValidRuns(runs)
    requires header > 128
    ensures RunLengthDecode(EncodeRuns(runs) + [header]) == Err(PdfStreamError)
  {
    RunLengthDecodeRuns(runs, [header]);
  }

  /** A literal run cut short by the end of the data is silently truncated. */
  lemma {:induction false} RunLengthShortLiteral(runs: seq<Run>, length: byte, xs: seq<byte>)
    requires ValidRuns(runs)
    requires length < 128 && |xs| <= length
    ensures RunLengthDecode(EncodeRuns(runs) + [length] + xs) == Ok(ExpandRuns(runs) + xs)
  {
    ShortLiteralAlone(length, xs);
    DecodeAfterRuns(runs, [length] + xs, xs);
    assert EncodeRuns(runs) + [length] + xs == EncodeRuns(runs) + ([length] + xs);
  }

  lemma DecodeAfterRuns(runs: seq<Run>, t: seq<byte>, out: seq<byte>)
    requires ValidRuns(runs) && RunLengthDecode(t) == Ok(out)
    ensures RunLengthDecode(EncodeRuns(runs) + t) == Ok(ExpandRuns(runs) + out)
  {
    RunLengthDecodeRuns(runs, t);
  }

  lemma ShortLiteralAlone(length: byte, xs: seq<byte>)
    requires length < 128 && |xs| <= length
    ensures RunLengthDecode([length] + xs) == Ok(xs)
  {
    var t := [length] + xs;
    LiteralToEnd(t);
    assert t[1..] == xs;
  }

  lemma LiteralToEnd(t: seq<byte>)
    requires |t| >= 1 && t[0] < 128 && |t| - 1 <= t[0]
    ensures RunLengthDecode(t) == Ok(t[1..])
  {
    assert t[|t|..] == [];
    assert t[1..|t|] == t[1..];
    assert t[1..] + [] == t[1..];
  }

  // ---------------------------------------------------------------------
  // ASCIIHexDecode
  // ---------------------------------------------------------------------

  /** Characters CPython's `str.fromhex` skips between digit pairs. */
  predicate IsPySpaceByte(b: int) { b == 32 || (9 <= b <= 13) }

  predicate IsHexDigit(b: int)
  {
    (48 <= b <= 57) || (65 <= b <= 70) || (97 <= b <= 102)
  }

  function HexValue(b: int): (v: int)
    requires IsHexDigit(b)
    ensures 0 <= v < 16
  {
    if b <= 57 then b - 48 else if b <= 70 then b - 55 else b - 87
  }

  /** `bytes.fromhex(s)`: whitespace is skipped only before a digit pair;
      a non-hex character or an unpaired digit is a ValueError. */
  function FromHex(s: seq<byte>): (r: Result<seq<byte>>)
    ensures r.Err? ==> r.exc == ValueError
    decreases |s|
  {
    if |s| == 0 then Ok([])
    else if IsPySpaceByte(s[0]) then FromHex(s[1..])
    else if |s| < 2 || !IsHexDigit(s[0]) || !IsHexDigit(s[1]) then Err(ValueError)
    else
      Prepend([HexValue(s[0]) * 16 + HexValue(s[1])], FromHex(s[2..]))
  }

  /** `data.replace(b' ', b'').replace(b'\n', b'').replace(b'\r', b'')` */
  function RemoveSpaceLfCr(data: seq<byte>): (r: seq<byte>)
    ensures forall k :: 0 <= k < |r| ==> r[k] != 32 && r[k] != 10 && r[k] != 13
    ensures |r| <= |data|
  {
    if data == [] then []
    else if data[0] in {32, 10, 13} then RemoveSpaceLfCr(data[1..])
    else [data[0]] + RemoveSpaceLfCr(data[1..])
  }

  /** `data.rstrip(b'>')` */
  function RStripGreater(data: seq<byte>): (r: seq<byte>)
    ensures |r| <= |data| && r == data[..|r|]
    ensures r == [] || r[|r| - 1] != 62
    ensures forall k :: |r| <= k < |data| ==> data[k] == 62
  {
    if data != [] && data[|data| - 1] == 62 then RStripGreater(data[..|data| - 1]) else data
  }

  /** The digit string ASCIIHexDecode hands to `fromhex`, before the ASCII check. */
  function HexDigitsOf(data: seq<byte>): (r: seq<byte>)
    ensures |r| % 2 == 0
  {
    var d := RStripGreater(RemoveSpaceLfCr(data));
    if |d| % 2 != 0 then d + [48] else d
  }

  /** ASCIIHexDecode.decode: space, LF and CR are removed, trailing '>'s
      stripped, an odd digit count padded with '0', then the digits are
      decoded; a non-ASCII byte (UnicodeDecodeError) or a bad digit
      (ValueError) both surface as PdfStreamError. */
  function ASCIIHexDecode(data: seq<byte>): (r: Result<seq<byte>>)
    ensures r.Err? ==> r.exc == PdfStreamError
  {
    var digits := HexDigitsOf(data);
    if exists k :: 0 <= k < |digits| && digits[k] >= 128 then Err(PdfStreamError)
    else
      match FromHex(digits)
      case Ok(v) => Ok(v)
      case Err(_) => Err(PdfStreamError)
  }

  function HexDigit(v: int): (b: byte)
    requires 0 <= v < 16
    ensures IsHexDigit(b) && HexValue(b) == v
  {
    if v < 10 then 48 + v else 55 + v
  }

  /** Two upper-case hex digits per byte. */
  function HexEncode(x: seq<byte>): (r: seq<byte>)
    ensures |r| == 2 * |x|
    ensures forall k :: 0 <= k < |r| ==> IsHexDigit(r[k]) && r[k] < 128
  {
    if x == [] then [] else [HexDigit(x[0] / 16), HexDigit(x[0] % 16)] + HexEncode(x[1..])
  }

  lemma {:induction false} HexEncodeUntouched(x: seq<byte>, gts: nat)
    ensures RemoveSpaceLfCr(HexEncode(x) + Fill(62, gts)) == HexEncode(x) + Fill(62, gts)
    ensures RStripGreater(HexEncode(x) + Fill(62, gts)) == HexEncode(x)
  {
    var e := HexEncode(x);
    NoSpaceIdentity(e + Fill(62, gts));
    StripGreaterSuffix(e, gts);
  }

  lemma {:induction false} NoSpaceIdentity(s: seq<byte>)
    requires forall k :: 0 <= k < |s| ==> s[k] != 32 && s[k] != 10 && s[k] != 13
    ensures RemoveSpaceLfCr(s) == s
  {
    if s != [] {
      NoSpaceIdentity(s[1..]);
    }
  }

  lemma {:induction false} StripGreaterSuffix(e: seq<byte>, gts: nat)
    requires forall k :: 0 <= k < |e| ==> IsHexDigit(e[k])
    ensures RStripGreater(e + Fill(62, gts)) == e
    decreases gts
  {
    if gts == 0 {
      assert e + Fill(62, 0) == e;
    } else {
      var s := e + Fill(62, gts);
      assert s[..|s| - 1] == e + Fill(62, gts - 1);
      StripGreaterSuffix(e, gts - 1);
    }
  }

  /** Round trip: the two-digit hex of any bytes, with any number of closing
      '>' characters, decodes back to those bytes. */
  lemma {:induction false} ASCIIHexRoundTrip(x: seq<byte>, gts: nat)
    ensures ASCIIHexDecode(HexEncode(x) + Fill(62, gts)) == Ok(x)
  {
    HexDigitsOfEncoded(x, gts);
    FromHexAfterEncoded(x, []);
    assert HexEncode(x) + [] == HexEncode(x);
    assert x + [] == x;
    AsciiHexOfDigits(HexEncode(x) + Fill(62, gts));
  }

  lemma HexDigitsOfEncoded(x: seq<byte>, gts: nat)
    ensures HexDigitsOf(HexEncode(x) + Fill(62, gts)) == HexEncode(x)
  {
    var data := HexEncode(x) + Fill(62, gts);
    HexEncodeUntouched(x, gts);
    var d := RStripGreater(RemoveSpaceLfCr(data));
    assert d == HexEncode(x);
    DoubleIsEven(|x|);
  }

  lemma DoubleIsEven(n: nat)
    ensures (2 * n) % 2 == 0
  {
  }

  /** Once the digit string is pure ASCII, the decode is `fromhex`'s result
      with ValueError turned into PdfStreamError. */
  lemma AsciiHexOfDigits(data: seq<byte>)
    requires forall k :: 0 <= k < |HexDigitsOf(data)| ==> HexDigitsOf(data)[k] < 128
    ensures FromHex(HexDigitsOf(data)).Ok? ==> ASCIIHexDecode(data) == FromHex(HexDigitsOf(data))
  {
  }

  /** An odd digit count is padded with '0': a lone trailing digit d
      contributes the byte 16*d. */
  lemma ASCIIHexOddPadding(x: seq<byte>, d: byte)
    requires IsHexDigit(d)
    ensures ASCIIHexDecode(HexEncode(x) + [d]) == Ok(x + [HexValue(d) * 16])
  {
    OddDigitsPadded(x, d);
    FromHexAfterEncoded(x, [d, 48]);
    FromHexPadded(d);
    AsciiHexOfDigits(HexEncode(x) + [d]);
  }

  /** A digit padded with '0' is the byte sixteen times its value. */
  lemma FromHexPadded(d: byte)
    requires IsHexDigit(d)
    ensures FromHex([d, 48]) == Ok([HexValue(d) * 16])
  {
    var pair: seq<byte> := [d, 48];
    assert pair[2..] == [];
    assert HexValue(pair[0]) * 16 + HexValue(pair[1]) == HexValue(d) * 16;
    assert [HexValue(d) * 16] + [] == [HexValue(d) * 16];
  }

  lemma OddDigitsPadded(x: seq<byte>, d: byte)
    requires IsHexDigit(d)
    ensures HexDigitsOf(HexEncode(x) + [d]) == HexEncode(x) + [d, 48]
  {
    var e := HexEncode(x);
    NoSpaceIdentity(e + [d]);
    assert RStripGreater(e + [d]) == e + [d];
    OddLength(|x|);
  }

  lemma OddLength(n: nat)
    ensures (2 * n + 1) % 2 != 0
  {
  }

  lemma {:induction false} FromHexAfterEncoded(x: seq<byte>, t: seq<byte>)
    ensures FromHex(HexEncode(x) + t) == Prepend(x, FromHex(t))
  {
    if x == [] {
      assert HexEncode(x) + t == t;
      var r := FromHex(t);
      if r.Ok? {
        assert [] + r.value == r.value;
      }
    } else {
      var e := HexEncode(x) + t;
      assert e[0] == HexDigit(x[0] / 16) && e[1] == HexDigit(x[0] % 16);
      assert !IsPySpaceByte(e[0]);
      assert HexValue(e[0]) * 16 + HexValue(e[1]) == x[0];
      assert e[2..] == HexEncode(x[1..]) + t;
      FromHexAfterEncoded(x[1..], t);
      PrependPrepend([x[0]], x[1..], FromHex(t));
      assert [x[0]] + x[1..] == x;
    }
  }

  lemma {:induction false} HexEncodeAppend(x: seq<byte>, b: byte)
    ensures HexEncode(x + [b]) == HexEncode(x) + HexEncode([b])
  {
    if x != [] {
      assert (x + [b])[1..] == x[1..] + [b];
      HexEncodeAppend(x[1..], b);
    }
  }

  /** A byte that is neither a hex digit, nor whitespace, nor one of the
      removed/stripped characters makes the whole decode fail. */
  lemma ASCIIHexRejectsNonHex(data: seq<byte>, k: int)
    requires 0 <= k < |HexDigitsOf(data)|
    requires !IsHexDigit(HexDigitsOf(data)[k]) && !IsPySpaceByte(HexDigitsOf(data)[k])
    ensures ASCIIHexDecode(data) == Err(PdfStreamError)
  {
    FromHexRejects(HexDigitsOf(data), k);
  }

  lemma {:induction false} FromHexRejects(s: seq<byte>, k: int)
    requires 0 <= k < |s|
    requires !IsHexDigit(s[k]) && !IsPySpaceByte(s[k])
    ensures FromHex(s).Err?
    decreases |s|
  {
    if IsPySpaceByte(s[0]) {
      FromHexRejects(s[1..], k - 1);
    } else if |s| < 2 || !IsHexDigit(s[0]) || !IsHexDigit(s[1]) {
    } else {
      FromHexRejects(s[2..], k - 2);
    }
  }

  // ---------------------------------------------------------------------
  // Predictors (FlateDecode /DecodeParms)
  // ---------------------------------------------------------------------

  /** Python's `seq[k]` index normalisation: negative indices count from
      the end; None when the index is out of range (IndexError). */
  function WrapIndex(n: nat, k: int): (r: Option<nat>)
    ensures r.Some? ==> r.value < n
    ensures r.Some? <==> -(n as int) <= k < n
    ensures 0 <= k < n ==> r == Some(k)
  {
    if 0 <= k < n then Some(k) else if -(n as int) <= k < 0 then Some(k + n) else None
  }

  /** The Sub loop `for j in range(colors, len(row)): row[j] = (row[j] +
      row[j - colors]) % 256` run on a mutable copy of the row, from
      position j on. */
  function SubFrom(row: seq<byte>, colors: int, j: int): (r: Result<seq<byte>>)
    ensures r.Ok? ==> |r.value| == |row|
    ensures r.Err? ==> r.exc == IndexError
    decreases |row| - j
  {
    if j >= |row| then Ok(row)
    else
      var a := WrapIndex(|row|, j);
      var b := WrapIndex(|row|, j - colors);
      if a.None? || b.None? then Err(IndexError)
      else SubFrom(row[a.value := (row[a.value] as int + row[b.value]) % 256], colors, j + 1)
  }

  /** How a Sub-filtered row is undone.  `AsWritten` is the code as it
      stands: the row is an immutable `bytes` slice, so the first item
      assignment raises TypeError (after its right-hand side has been
      evaluated).  `InPlace` is the evidently intended in-place decode. */
  datatype SubMode = AsWritten | InPlace

  function UndoSub(mode: SubMode, row: seq<byte>, colors: int): (r: Result<seq<byte>>)
    ensures colors >= |row| ==> r == Ok(row)
    ensures mode.AsWritten? && r.Ok? ==> r.value == row
  {
    match mode
    case InPlace => SubFrom(row, colors, colors)
    case AsWritten =>
      if colors >= |row| then Ok(row)
      else if WrapIndex(|row|, colors).None? then Err(IndexError)
      else Err(TypeError)
  }

  /** Two decoding steps in sequence: the first error wins, otherwise the
      outputs are concatenated. */
  function Both(first: Result<seq<byte>>, rest: Result<seq<byte>>): (r: Result<seq<byte>>)
    ensures r.Ok? <==> first.Ok? && rest.Ok?
    ensures r.Ok? ==> r.value == first.value + rest.value
    ensures first.Err? ==> r == first
    ensures first.Ok? && rest.Err? ==> r == rest
  {
    if first.Err? then first else Prepend(first.value, rest)
  }

  /** The TIFF predictor loop over `range(0, len(data), row_size)`. */
  function TiffRows(mode: SubMode, data: seq<byte>, rowSize: int, colors: int): (r: Result<seq<byte>>)
    requires rowSize > 0
    ensures mode.AsWritten? && r.Ok? ==> r.value == data
    decreases |data|
  {
    if |data| == 0 then Ok([])
    else
      var m := Min(rowSize, |data|);
      assert data[..m] + data[m..] == data;
      Both(UndoSub(mode, data[..m], colors), TiffRows(mode, data[m..], rowSize, colors))
  }

  /** The PNG predictor loop: each row is a filter-type byte and up to
      `row_size - 1` data bytes; type 0 is copied, type 1 (Sub) undone, and
      rows of any other type are dropped. */
  function PngRows(mode: SubMode, data: seq<byte>, rowSize: int, colors: int): (r: Result<seq<byte>>)
    requires rowSize > 0
    ensures r.Ok? ==> |r.value| <= |data|
    decreases |data|
  {
    if |data| == 0 then Ok([])
    else
      var m := Min(rowSize, |data|);
      var filterType := data[0];
      var row := data[1..m];
      if filterType == 0 then Prepend(row, PngRows(mode, data[m..], rowSize, colors))
      else if filterType == 1 then Both(UndoSub(mode, row, colors), PngRows(mode, data[m..], rowSize, colors))
      else PngRows(mode, data[m..], rowSize, colors)
  }

  /** FlateDecode._decode_predictor with the given Sub mode.  Row sizes use
      Python floor division; a zero step is `range`'s ValueError and a
      negative one an empty loop. */
  function PredictorWith(mode: SubMode, data: seq<byte>, predictor: int, columns: int, colors: int, bpc: int): (r: Result<seq<byte>>)
    ensures predictor != 2 && !(10 <= predictor <= 15) ==> r == Err(PdfReadError)
  {
    if predictor == 2 then
      var rowSize := (columns * colors * bpc + 7) / 8;
      if rowSize == 0 then Err(ValueError)
      else if rowSize < 0 then Ok([])
      else TiffRows(mode, data, rowSize, colors)
    else if 10 <= predictor <= 15 then
      var rowSize := columns * colors * bpc / 8 + 1;
      if rowSize == 0 then Err(ValueError)
      else if rowSize < 0 then Ok([])
      else PngRows(mode, data, rowSize, colors)
    else Err(PdfReadError)
  }

  /** The predictor decode as written: a successful TIFF decode never
      changes the data, because any row long enough to hold a predicted
      sample fails. */
  function DecodePredictorAsWritten(data: seq<byte>, predictor: int, columns: int, colors: int, bpc: int): (r: Result<seq<byte>>)
    ensures predictor == 2 && r.Ok? && (columns * colors * bpc + 7) / 8 > 0 ==> r.value == data
    ensures predictor != 2 && !(10 <= predictor <= 15) ==> r == Err(PdfReadError)
  {
    PredictorWith(AsWritten, data, predictor, columns, colors, bpc)
  }

  /** The predictor decode with Sub rows undone in place. */
  function DecodePredictor(data: seq<byte>, predictor: int, columns: int, colors: int, bpc: int): (r: Result<seq<byte>>)
    ensures predictor != 2 && !(10 <= predictor <= 15) ==> r == Err(PdfReadError)
  {
    PredictorWith(InPlace, data, predictor, columns, colors, bpc)
  }

  /** Reference meaning of a Sub-decoded row: each sample past the first
      pixel is the sum, modulo 256, of its stored difference and the decoded
      sample `colors` bytes to its left. */
  function SubDecoded(row: seq<byte>, colors: nat): (r: seq<byte>)
    requires colors >= 1
    ensures |r| == |row|
    decreases |row|
  {
    if |row| <= colors then row
    else
      var p := SubDecoded(row[..|row| - 1], colors);
      p + [(row[|row| - 1] as int + p[|row| - 1 - colors]) % 256]
  }

  /** The Sub encoder: each sample past the first pixel becomes its
      difference, modulo 256, from the sample `colors` bytes to its left. */
  function SubEncode(raw: seq<byte>, colors: nat): (r: seq<byte>)
    requires colors >= 1
    ensures |r| == |raw|
    decreases |raw|
  {
    if |raw| <= colors then raw
    else SubEncode(raw[..|raw| - 1], colors) + [(raw[|raw| - 1] as int - raw[|raw| - 1 - colors]) % 256]
  }

  lemma SubRoundTripByte(a: byte, b: byte)
    ensures ((a as int - b) % 256 + b) % 256 == a
  {
    if a >= b {
      assert (a as int - b) % 256 == a - b;
    } else {
      assert (a as int - b) % 256 == a - b + 256;
    }
  }

  /** Sub decoding inverts Sub encoding. */
  lemma {:induction false} SubDecodedOfEncode(raw: seq<byte>, colors: nat)
    requires colors >= 1
    ensures SubDecoded(SubEncode(raw, colors), colors) == raw
    decreases |raw|
  {
    if |raw| > colors {
      SubDecodedOfEncode(raw[..|raw| - 1], colors);
      SubDecodedOfEncodeStep(raw, colors);
    } else {
      SubEncodeShort(raw, colors);
    }
  }

  lemma SubEncodeShort(raw: seq<byte>, colors: nat)
    requires colors >= 1 && |raw| <= colors
    ensures SubDecoded(SubEncode(raw, colors), colors) == raw
  {
    assert SubEncode(raw, colors) == raw;
  }

  lemma SubDecodedOfEncodeStep(raw: seq<byte>, colors: nat)
    requires colors >= 1 && |raw| > colors
    requires SubDecoded(SubEncode(raw[..|raw| - 1], colors), colors) == raw[..|raw| - 1]
    ensures SubDecoded(SubEncode(raw, colors), colors) == raw
  {
    var enc := SubEncode(raw, colors);
    var n := |raw|;
    SubEncodePrefix(raw, colors);
    var p := SubDecoded(enc[..n - 1], colors);
    assert p == raw[..n - 1];
    var a, b := raw[n - 1], raw[n - 1 - colors];
    assert p[n - 1 - colors] == b;
    assert enc[n - 1] == (a as int - b) % 256;
    SubRoundTripByte(a, b);
    SubDecodedLast(enc, colors);
    assert SubDecoded(enc, colors) == p + [a];
    assert raw == raw[..n - 1] + [a];
  }

  lemma SubEncodePrefix(raw: seq<byte>, colors: nat)
    requires colors >= 1 && |raw| > 0
    ensures SubEncode(raw, colors)[..|raw| - 1] == SubEncode(raw[..|raw| - 1], colors)
  {
  }

  lemma SubDecodedLast(row: seq<byte>, colors: nat)
    requires colors >= 1 && |row| > colors
    ensures SubDecoded(row, colors)
         == SubDecoded(row[..|row| - 1], colors)
            + [(row[|row| - 1] as int + SubDecoded(row[..|row| - 1], colors)[|row| - 1 - colors]) % 256]
  {
  }

  /** The in-place Sub loop, started at position j with everything before j
      already decoded, finishes with the reference decoding. */
  lemma {:induction false} SubFromDecodes(row: seq<byte>, cur: seq<byte>, colors: nat, j: nat)
    requires colors >= 1 && colors <= j <= |row| && |cur| == |row|
    requires cur[..j] == SubDecoded(row[..j], colors)
    requires cur[j..] == row[j..]
    ensures SubFrom(cur, colors, j) == Ok(SubDecoded(row, colors))
    decreases |row| - j
  {
    if j == |row| {
      assert cur == cur[..j];
      assert row[..j] == row;
    } else {
      var next := cur[j := (cur[j] as int + cur[j - colors]) % 256];
      SubStep(row, cur, next, colors, j);
      SubFromDecodes(row, next, colors, j + 1);
    }
  }

  /** One iteration of the Sub loop extends the decoded prefix by one. */
  lemma SubStep(row: seq<byte>, cur: seq<byte>, next: seq<byte>, colors: nat, j: nat)
    requires colors >= 1 && colors <= j < |row| && |cur| == |row|
    requires cur[..j] == SubDecoded(row[..j], colors)
    requires cur[j..] == row[j..]
    requires next == cur[j := (cur[j] as int + cur[j - colors]) % 256]
    ensures SubFrom(cur, colors, j) == SubFrom(next, colors, j + 1)
    ensures next[..j + 1] == SubDecoded(row[..j + 1], colors)
    ensures next[j + 1..] == row[j + 1..]
  {
    SubStepPrefix(row, cur, colors, j);
    SubStepTail(row, cur, next, j);
  }

  lemma SubStepPrefix(row: seq<byte>, cur: seq<byte>, colors: nat, j: nat)
    requires colors >= 1 && colors <= j < |row| && |cur| == |row|
    requires cur[..j] == SubDecoded(row[..j], colors)
    requires cur[j..] == row[j..]
    ensures cur[j := (cur[j] as int + cur[j - colors]) % 256][..j + 1] == SubDecoded(row[..j + 1], colors)
  {
    assert cur[j] == row[j] by { assert cur[j..][0] == row[j..][0]; }
    var p := SubDecoded(row[..j], colors);
    assert cur[j - colors] == p[j - colors];
    assert row[..j + 1][..j] == row[..j];
    SubDecodedLast(row[..j + 1], colors);
  }

  lemma SubStepTail(row: seq<byte>, cur: seq<byte>, next: seq<byte>, j: nat)
    requires j < |row| && |cur| == |row| == |next|
    requires cur[j..] == row[j..]
    requires forall k :: j + 1 <= k < |row| ==> next[k] == cur[k]
    ensures next[j + 1..] == row[j + 1..]
  {
    assert forall k :: j + 1 <= k < |row| ==> next[k] == cur[j..][k - j];
  }

  /** The corrected Sub decode computes the reference decoding. */
  lemma SubUndoMeaning(row: seq<byte>, colors: nat)
    requires colors >= 1
    ensures UndoSub(InPlace, row, colors) == Ok(SubDecoded(row, colors))
  {
    if colors < |row| {
      assert row[..colors] == SubDecoded(row[..colors], colors);
      SubFromDecodes(row, row, colors, colors);
    }
  }

  /** TIFF predictor 2 encoding, row by row. */
  function TiffEncode(data: seq<byte>, rowSize: int, colors: nat): (r: seq<byte>)
    requires rowSize > 0 && colors >= 1
    ensures |r| == |data|
    decreases |data|
  {
    if |data| == 0 then []
    else
      var m := Min(rowSize, |data|);
      SubEncode(data[..m], colors) + TiffEncode(data[m..], rowSize, colors)
  }

  /** Round trip for the corrected TIFF predictor. */
  lemma {:induction false} TiffRoundTrip(data: seq<byte>, rowSize: int, colors: nat)
    requires rowSize > 0 && colors >= 1
    ensures TiffRows(InPlace, TiffEncode(data, rowSize, colors), rowSize, colors) == Ok(data)
    decreases |data|
  {
    if |data| > 0 {
      var m := Min(rowSize, |data|);
      TiffRoundTrip(data[m..], rowSize, colors);
      TiffRoundTripStep(data, rowSize, colors);
    }
  }

  lemma TiffRoundTripStep(data: seq<byte>, rowSize: int, colors: nat)
    requires rowSize > 0 && colors >= 1 && |data| > 0
    requires TiffRows(InPlace, TiffEncode(data[Min(rowSize, |data|)..], rowSize, colors), rowSize, colors)
             == Ok(data[Min(rowSize, |data|)..])
    ensures TiffRows(InPlace, TiffEncode(data, rowSize, colors), rowSize, colors) == Ok(data)
  {
    var m := Min(rowSize, |data|);
    var enc := TiffEncode(data, rowSize, colors);
    TiffEncodeSplit(data, rowSize, colors);
    var first := UndoSub(InPlace, enc[..m], colors);
    assert first == Ok(data[..m]) by {
      SubUndoMeaning(enc[..m], colors);
      SubDecodedOfEncode(data[..m], colors);
    }
    assert TiffRows(InPlace, enc, rowSize, colors) == Both(first, Ok(data[m..]));
    assert data[..m] + data[m..] == data;
  }

  lemma TiffEncodeSplit(data: seq<byte>, rowSize: int, colors: nat)
    requires rowSize > 0 && colors >= 1 && |data| > 0
    ensures TiffEncode(data, rowSize, colors)[..Min(rowSize, |data|)] == SubEncode(data[..Min(rowSize, |data|)], colors)
    ensures TiffEncode(data, rowSize, colors)[Min(rowSize, |data|)..] == TiffEncode(data[Min(rowSize, |data|)..], rowSize, colors)
  {
  }

  /** PNG encoding with every row stored as filter type 1 (Sub). */
  function PngEncodeSub(data: seq<byte>, rowSize: int, colors: nat): (r: seq<byte>)
    requires rowSize >= 2 && colors >= 1
    decreases |data|
  {
    if |data| == 0 then []
    else
      var m := Min(rowSize - 1, |data|);
      [1] + SubEncode(data[..m], colors) + PngEncodeSub(data[m..], rowSize, colors)
  }

  /** Round trip for the corrected PNG predictor on Sub rows. */
  lemma {:induction false} PngSubRoundTrip(data: seq<byte>, rowSize: int, colors: nat)
    requires rowSize >= 2 && colors >= 1
    ensures PngRows(InPlace, PngEncodeSub(data, rowSize, colors), rowSize, colors) == Ok(data)
    decreases |data|
  {
    if |data| > 0 {
      var m := Min(rowSize - 1, |data|);
      PngSubRoundTrip(data[m..], rowSize, colors);
      PngSubRoundTripStep(data, rowSize, colors);
    }
  }

  lemma PngSubRoundTripStep(data: seq<byte>, rowSize: int, colors: nat)
    requires rowSize >= 2 && colors >= 1 && |data| > 0
    requires var m := Min(rowSize - 1, |data|);
      PngRows(InPlace, PngEncodeSub(data[m..], rowSize, colors), rowSize, colors) == Ok(data[m..])
    ensures PngRows(InPlace, PngEncodeSub(data, rowSize, colors), rowSize, colors) == Ok(data)
  {
    var m := Min(rowSize - 1, |data|);
    var row := SubEncode(data[..m], colors);
    var rest := PngEncodeSub(data[m..], rowSize, colors);
    var enc := PngEncodeSub(data, rowSize, colors);
    PngRowSplit(row, rest, m, rowSize);
    SubUndoMeaning(row, colors);
    SubDecodedOfEncode(data[..m], colors);
    AppendSplit(data, m);
  }

  /** The parts of one encoded PNG row as the decoder slices them. */
  lemma PngRowSplit(row: seq<byte>, rest: seq<byte>, m: nat, rowSize: int)
    requires |row| == m && m + 1 <= rowSize
    requires m == rowSize - 1 || rest == []
    ensures var enc := [1] + row + rest;
      Min(rowSize, |enc|) == m + 1 && enc[0] == 1 && enc[1..m + 1] == row && enc[m + 1..] == rest
  {
  }

  lemma AppendSplit<T>(s: seq<T>, m: nat)
    requires m <= |s|
    ensures s[..m] + s[m..] == s
  {
  }

  /** PNG rows whose filter type is neither 0 nor 1 vanish from the output. */
  lemma PngUnknownTypeDropped(mode: SubMode, t: byte, row: seq<byte>, rest: seq<byte>, rowSize: int, colors: int)
    requires rowSize > 0 && |row| == rowSize - 1 && t != 0 && t != 1
    ensures PngRows(mode, [t] + row + rest, rowSize, colors) == PngRows(mode, rest, rowSize, colors)
  {
    var data := [t] + row + rest;
    assert data[rowSize..] == rest;
  }

  /** As written, the TIFF predictor fails on the first row as soon as that
      row holds more than `colors` bytes. */
  lemma TiffAsWrittenFails(data: seq<byte>, rowSize: int, colors: int)
    requires rowSize > 0 && 0 <= colors < Min(rowSize, |data|)
    ensures TiffRows(AsWritten, data, rowSize, colors) == Err(TypeError)
  {
  }

  /** A concrete instance: one row of two one-byte samples [1, 1] with
      /Colors 1 and /Columns 2.  The code as written raises TypeError; the
      intended decode yields [1, 2]. */
  lemma PredictorCounterexample()
    ensures DecodePredictorAsWritten([1, 1], 2, 2, 1, 8) == Err(TypeError)
    ensures DecodePredictor([1, 1], 2, 2, 1, 8) == Ok([1, 2])
  {
    var row: seq<byte> := [1, 1];
    assert (2 * 1 * 8 + 7) / 8 == 2;
    assert row[..2] == row && row[2..] == [];
    var once := row[1 := 2];
    assert once == [1, 2];
    assert WrapIndex(2, 1) == Some(1) && WrapIndex(2, 0) == Some(0);
    assert SubFrom(row, 1, 1) == SubFrom(once, 1, 2);
    assert SubFrom(once, 1, 2) == Ok([1, 2]);
    assert TiffRows(InPlace, row, 2, 1) == Ok([1, 2] + []);
    assert [1, 2] + [] == [1, 2];
    assert PredictorWith(InPlace, row, 2, 2, 1, 8) == TiffRows(InPlace, row, 2, 1);
  }

  // ---------------------------------------------------------------------
  // FlateDecode and ASCII85Decode
  // ---------------------------------------------------------------------

  /** Python truthiness of a decode-parameters value: empty containers,
      zero and False are falsy; the null object, having no length, is
      truthy. */
  predicate PyTruthy(o: Obj)
  {
    match o
    case Null => true
    case Bool(b) => b
    case Int(i) => i != 0
    case Float(r) => r != 0.0
    case Name(n) => n != []
    case Text(t) => t != []
    case Bytes(b) => b != []
    case Array(items) => items != []
    case Dict(entries) => entries != map[]
    case Stream(header, _) => header != map[]
    case Indirect(_) => true
  }

  /** A /DecodeParms entry the row-size arithmetic of `_decode_predictor`
      uses: an integer object, its default when absent, and TypeError for
      anything else (a float makes `range` refuse the row size; `None`, a
      name, an array or a dictionary fails the arithmetic itself). */
  function IntEntry(d: map<string, Obj>, key: string, default: int): (r: Result<int>)
    ensures key !in d ==> r == Ok(default)
    ensures key in d ==> (r.Ok? <==> d[key].Int?)
    ensures r.Ok? && key in d ==> r.value == d[key].i
    ensures r.Err? ==> r.exc == TypeError
  {
    if key !in d then Ok(default)
    else if d[key].Int? then Ok(d[key].i)
    else Err(TypeError)
  }

  /** How FlateDecode and `_decode_predictor` branch on the raw /Predictor
      value: `predictor != 1` fails only for the number 1, `predictor == 2`
      holds for the number 2, `10 <= predictor <= 15` for any number in that
      range, any other number is unsupported, and a value that is not a
      number cannot be compared with 10 (TypeError). */
  datatype PredictorKind = NoPredictor | TiffPredictor | PngPredictor | Unsupported | Unordered

  function PredictorKindOf(o: Obj): (k: PredictorKind)
    ensures k == NoPredictor <==> (o.Int? && o.i == 1) || (o.Float? && o.r == 1.0)
    ensures k == TiffPredictor <==> (o.Int? && o.i == 2) || (o.Float? && o.r == 2.0)
    ensures k == PngPredictor <==> (o.Int? && 10 <= o.i <= 15) || (o.Float? && 10.0 <= o.r <= 15.0)
    ensures k == Unordered <==> !o.Int? && !o.Float?
  {
    if o.Int? then
      if o.i == 1 then NoPredictor
      else if o.i == 2 then TiffPredictor
      else if 10 <= o.i <= 15 then PngPredictor
      else Unsupported
    else if o.Float? then
      if o.r == 1.0 then NoPredictor
      else if o.r == 2.0 then TiffPredictor
      else if 10.0 <= o.r <= 15.0 then PngPredictor
      else Unsupported
    else Unordered
  }

  /** The /Predictor value of truthy dictionary parameters, 1 when absent. */
  function PredictorOf(parms: Obj): Obj
    requires IsDictLike(parms)
  {
    DictGet(EntriesOf(parms), "/Predictor", Int(1))
  }

  /** FlateDecode.decode.  `inflate` is zlib (None when both the plain and
      the wide-window attempt fail).  Falsy or missing parameters and
      /Predictor 1 leave the inflated data as it is; otherwise the
      parameters must be a dictionary, the raw /Predictor value picks the
      branch, and only the TIFF and PNG branches use /Columns, /Colors and
      /BitsPerComponent. */
  function FlateDecode(data: seq<byte>, parms: Option<Obj>, inflate: seq<byte> -> Option<seq<byte>>): (r: Result<seq<byte>>)
    ensures inflate(data).None? ==> r == Err(PdfReadError)
    ensures inflate(data).Some? && (parms.None? || !PyTruthy(parms.value)) ==> r == Ok(inflate(data).value)
    ensures inflate(data).Some? && parms.Some? && PyTruthy(parms.value) && IsDictLike(parms.value) ==>
              match PredictorKindOf(PredictorOf(parms.value))
              case NoPredictor => r == Ok(inflate(data).value)
              case Unsupported => r == Err(PdfReadError)
              case Unordered => r == Err(TypeError)
              case _ => true
  {
    match inflate(data)
    case None => Err(PdfReadError)
    case Some(inflated) =>
      if parms.None? || !PyTruthy(parms.value) then Ok(inflated)
      else if !IsDictLike(parms.value) then Err(AttributeError)
      else
        var d := EntriesOf(parms.value);
        match PredictorKindOf(PredictorOf(parms.value))
        case NoPredictor => Ok(inflated)
        case Unsupported => Err(PdfReadError)
        case Unordered => Err(TypeError)
        case TiffPredictor =>
          var columns :- IntEntry(d, "/Columns", 1);
          var colors :- IntEntry(d, "/Colors", 1);
          var bpc :- IntEntry(d, "/BitsPerComponent", 8);
          DecodePredictor(inflated, 2, columns, colors, bpc)
        case PngPredictor =>
          var columns :- IntEntry(d, "/Columns", 1);
          var colors :- IntEntry(d, "/Colors", 1);
          var bpc :- IntEntry(d, "/BitsPerComponent", 8);
          DecodePredictor(inflated, 10, columns, colors, bpc)
  }

  /** The body ASCII85Decode hands to base-85 decoding: spaces, LFs and CRs
      removed, then the `<~` `~>` delimiters cut when both are present
      (Python's `data[2:-2]`, empty when they overlap). */
  function ASCII85Body(data: seq<byte>): (r: seq<byte>)
    ensures |r| <= |data|
  {
    var d := RemoveSpaceLfCr(data);
    if |d| >= 2 && d[..2] == [60, 126] && d[|d| - 2..] == [126, 62] then
      (if |d| < 4 then [] else d[2..|d| - 2])
    else d
  }

  /** ASCII85Decode.decode with `a85` standing for `base64.a85decode`. */
  function ASCII85Decode(data: seq<byte>, a85: seq<byte> -> Result<seq<byte>>): (r: Result<seq<byte>>)
    ensures r == a85(ASCII85Body(data))
  {
    a85(ASCII85Body(data))
  }

  /** A body free of the removed whitespace, wrapped in delimiters, is
      handed to the base-85 decoder unchanged. */
  lemma ASCII85Delimited(body: seq<byte>)
    requires forall k :: 0 <= k < |body| ==> body[k] != 32 && body[k] != 10 && body[k] != 13
    ensures ASCII85Body([60, 126] + body + [126, 62]) == body
  {
    var wrapped := [60, 126] + body + [126, 62];
    RemoveSpaceLfCrKeeps(wrapped);
    assert wrapped[..2] == [60, 126];
    assert wrapped[|wrapped| - 2..] == [126, 62];
    assert wrapped[2..|wrapped| - 2] == body;
  }

  /** Without delimiters the body is just the data minus whitespace. */
  lemma ASCII85Undelimited(data: seq<byte>)
    requires forall k :: 0 <= k < |data| ==> data[k] != 32 && data[k] != 10 && data[k] != 13
    requires |data| < 2 || data[..2] != [60, 126]
    ensures ASCII85Body(data) == data
  {
    RemoveSpaceLfCrKeeps(data);
  }

  lemma {:induction false} RemoveSpaceLfCrKeeps(data: seq<byte>)
    requires forall k :: 0 <= k < |data| ==> data[k] != 32 && data[k] != 10 && data[k] != 13
    ensures RemoveSpaceLfCr(data) == data
    decreases |data|
  {
    if data != [] {
      RemoveSpaceLfCrKeeps(data[1..]);
      assert [data[0]] + data[1..] == data;
    }
  }

  // ---------------------------------------------------------------------
  // decode_stream_data
  // ---------------------------------------------------------------------

  /** The library codecs the filter chain calls out to. */
  datatype Codecs = Codecs(inflate: seq<byte> -> Option<seq<byte>>, a85: seq<byte> -> Result<seq<byte>>)

  /** An entry of the stream dictionary, None when absent. */
  function Entry(header: map<string, Obj>, key: string): (r: Option<Obj>)
    ensures r.Some? <==> key in header
    ensures r.Some? ==> r.value == header[key]
  {
    if key in header then Some(header[key]) else None
  }

  /** Every item of an array with indirect references resolved. */
  function ResolveAll(arena: Arena, items: seq<Obj>): (r: seq<Obj>)
    ensures |r| == |items|
    ensures forall k :: 0 <= k < |items| ==> r[k] == GetObject(arena, items[k])
  {
    seq(|items|, k requires 0 <= k < |items| => GetObject(arena, items[k]))
  }

  /** How a missing /Filter or /DecodeParms is read.  `AsWrittenDefaults`
      is the code as it stands: the defaults `()` and `{}` are a plain
      tuple and a plain dict, neither of which passes the type tests, so
      an absent entry raises PdfReadError.  `NoneWhenAbsent` reads an
      absent entry as no filters and no parameters. */
  datatype Defaults = AsWrittenDefaults | NoneWhenAbsent

  /** The /Filter value normalised to a list of filter names. */
  function FilterList(mode: Defaults, raw: Option<Obj>, arena: Arena): (r: Result<seq<Obj>>)
    ensures raw.None? ==> r == (if mode.AsWrittenDefaults? then Err(PdfReadError) else Ok([]))
    ensures r.Err? ==> r.exc == PdfReadError
    ensures raw.Some? && IsStr(raw.value) ==> r == Ok([raw.value])
    ensures raw.Some? && raw.value.Null? ==> r == Ok([])
  {
    if raw.None? then (if mode.AsWrittenDefaults? then Err(PdfReadError) else Ok([]))
    else
      var f := GetObject(arena, raw.value);
      if f.Array? then Ok(ResolveAll(arena, f.items))
      else if f.Null? then Ok([])
      else if IsStr(f) then Ok([f])
      else if f.Indirect? then Ok([GetObject(arena, f)])
      else Err(PdfReadError)
  }

  /** The /DecodeParms value normalised to a list (a dictionary becomes a
      one-element list, the null object an empty one). */
  function ParmsList(mode: Defaults, raw: Option<Obj>, arena: Arena): (r: Result<seq<Obj>>)
    ensures raw.None? ==> r == (if mode.AsWrittenDefaults? then Err(PdfReadError) else Ok([]))
    ensures r.Err? ==> r.exc == PdfReadError
    ensures raw.Some? && IsDictLike(raw.value) ==> r == Ok([raw.value])
    ensures raw.Some? && raw.value.Null? ==> r == Ok([])
  {
    if raw.None? then (if mode.AsWrittenDefaults? then Err(PdfReadError) else Ok([]))
    else
      var p := GetObject(arena, raw.value);
      if p.Array? then Ok(ResolveAll(arena, p.items))
      else if p.Null? then Ok([])
      else if IsDictLike(p) then Ok([p])
      else Err(PdfReadError)
  }

  /** The image filters whose data is returned undecoded, ending the chain. */
  predicate IsImageFilter(f: Obj)
  {
    StrEq(f, "/DCTDecode") || StrEq(f, "/JPXDecode") || StrEq(f, "/CCITTFaxDecode")
  }

  /** The filters the chain decodes itself. */
  predicate IsCodecFilter(f: Obj)
  {
    StrEq(f, "/FlateDecode") || StrEq(f, "/Fl") || StrEq(f, "/ASCIIHexDecode")
    || StrEq(f, "/RunLengthDecode") || StrEq(f, "/LZWDecode") || StrEq(f, "/ASCII85Decode")
  }

  /** What the chain hands from one filter to the next: `bytes`, or the
      `str` that LZWDecode returns.  Every string in the LZW table is built
      from `chr(0)` .. `chr(255)`, so a str's code points are kept as byte
      values. */
  datatype Data = Bin(bytes: seq<byte>) | Chars(points: seq<byte>)

  /** The code points of a str, or the bytes, as the LZW decoder reads
      them: `ord` of a one-element slice is the same number for both. */
  function Units(d: Data): seq<byte>
  {
    if d.Bin? then d.bytes else d.points
  }

  /** `data.encode('ascii')` when the data is a str, as ASCIIHexDecode and
      ASCII85Decode do first: a code point of 128 or more raises
      UnicodeEncodeError, a ValueError.  Bytes are left as they are. */
  function AsciiBytes(d: Data): (r: Result<seq<byte>>)
    ensures d.Bin? ==> r == Ok(d.bytes)
    ensures d.Chars? ==> (r.Ok? <==> forall k :: 0 <= k < |d.points| ==> d.points[k] < 128)
    ensures r.Ok? ==> r.value == Units(d)
    ensures r.Err? ==> r.exc == ValueError
  {
    match d
    case Bin(b) => Ok(b)
    case Chars(p) => if forall k :: 0 <= k < |p| ==> p[k] < 128 then Ok(p) else Err(ValueError)
  }

  /** A decoder's byte result as chain data. */
  function AsBin(r: Result<seq<byte>>): (q: Result<Data>)
    ensures q.Ok? <==> r.Ok?
    ensures r.Ok? ==> q.value == Bin(r.value)
    ensures r.Err? ==> q.exc == r.exc
  {
    if r.Err? then Err(r.exc) else Ok(Bin(r.value))
  }

  /** One filter of the chain applied to the data.  FlateDecode hands a str
      to zlib, which refuses it with TypeError; RunLengthDecode compares the
      first element of a non-empty str with 128, which is TypeError too; the
      LZW decoder reads a str as it reads bytes and always returns a str. */
  function DecodeOne(f: Obj, parm: Option<Obj>, data: Data, codecs: Codecs): (r: Result<Data>)
    ensures !IsCodecFilter(f) ==> r == Err(NotImplementedError)
    ensures data.Chars? && (StrEq(f, "/FlateDecode") || StrEq(f, "/Fl")) ==> r == Err(TypeError)
    ensures data.Chars? && StrEq(f, "/RunLengthDecode")
            ==> r == (if data.points == [] then Ok(Bin([])) else Err(TypeError))
    ensures (data.Chars? && (StrEq(f, "/ASCIIHexDecode") || StrEq(f, "/ASCII85Decode"))
             && exists k :: 0 <= k < |data.points| && data.points[k] >= 128)
            ==> r == Err(ValueError)
    ensures r.Ok? ==> (r.value.Chars? <==> StrEq(f, "/LZWDecode"))
  {
    if StrEq(f, "/FlateDecode") || StrEq(f, "/Fl") then
      if data.Chars? then Err(TypeError) else AsBin(FlateDecode(data.bytes, parm, codecs.inflate))
    else if StrEq(f, "/ASCIIHexDecode") then
      var b :- AsciiBytes(data);
      AsBin(ASCIIHexDecode(b))
    else if StrEq(f, "/RunLengthDecode") then
      if data.Chars? then (if data.points == [] then Ok(Bin([])) else Err(TypeError))
      else AsBin(RunLengthDecode(data.bytes))
    else if StrEq(f, "/LZWDecode") then
      var s :- Lzw.LzwDecodeCorrected(Units(data));
      Ok(Chars(s))
    else if StrEq(f, "/ASCII85Decode") then
      var b :- AsciiBytes(data);
      AsBin(ASCII85Decode(b, codecs.a85))
    else Err(NotImplementedError)
  }

  /** `decode_params[i] if i < len(decode_params) else None`. */
  function ParmAt(parms: seq<Obj>, i: nat): Option<Obj>
  {
    if i < |parms| then Some(parms[i]) else None
  }

  /** The `for i, filter_type in enumerate(filters)` loop from filter i on,
      for any decoder of one filter: an image filter ends the loop with
      the data so far, and an error ends it at once. */
  function Chain(filters: seq<Obj>, parms: seq<Obj>, i: nat, data: Data, decode: (Obj, Option<Obj>, Data) -> Result<Data>): (r: Result<Data>)
    decreases |filters| - i
  {
    if i >= |filters| then Ok(data)
    else if IsImageFilter(filters[i]) then Ok(data)
    else
      var decoded :- decode(filters[i], ParmAt(parms, i), data);
      Chain(filters, parms, i + 1, decoded, decode)
  }

  /** The library's decoder of one filter. */
  function Decoder(codecs: Codecs): (Obj, Option<Obj>, Data) -> Result<Data>
  {
    (f, p, d) => DecodeOne(f, p, d, codecs)
  }

  /** The loop with the library's decoders. */
  function ApplyFilters(filters: seq<Obj>, parms: seq<Obj>, i: nat, data: Data, codecs: Codecs): (r: Result<Data>)
  {
    Chain(filters, parms, i, data, Decoder(codecs))
  }

  /** decode_stream_data on a stream's dictionary and raw data, with the
      given reading of absent entries. */
  function DecodeStreamWith(mode: Defaults, header: map<string, Obj>, data: seq<byte>, arena: Arena, codecs: Codecs): (r: Result<Data>)
  {
    var filters :- FilterList(mode, Entry(header, "/Filter"), arena);
    var parms :- ParmsList(mode, Entry(header, "/DecodeParms"), arena);
    ApplyFilters(filters, parms, 0, Bin(data), codecs)
  }

  /** decode_stream_data as written. */
  function DecodeStreamDataAsWritten(header: map<string, Obj>, data: seq<byte>, arena: Arena, codecs: Codecs): (r: Result<Data>)
    ensures "/Filter" !in header ==> r == Err(PdfReadError)
    ensures "/DecodeParms" !in header ==> r == Err(PdfReadError)
  {
    DecodeStreamWith(AsWrittenDefaults, header, data, arena, codecs)
  }

  /** decode_stream_data with absent entries read as empty. */
  function DecodeStreamData(header: map<string, Obj>, data: seq<byte>, arena: Arena, codecs: Codecs): (r: Result<Data>)
    ensures "/Filter" !in header && "/DecodeParms" !in header ==> r == Ok(Bin(data))
  {
    DecodeStreamWith(NoneWhenAbsent, header, data, arena, codecs)
  }

  /** One step of the loop: filter `i` is decoded with the `i`-th
      parameters when there are that many and with None otherwise, and the
      rest of the chain runs on its output; an error ends the chain. */
  lemma ApplyStep(fs: seq<Obj>, ps: seq<Obj>, i: nat, data: Data, codecs: Codecs)
    requires i < |fs| && !IsImageFilter(fs[i])
    ensures ApplyFilters(fs, ps, i, data, codecs)
            == match DecodeOne(fs[i], if i < |ps| then Some(ps[i]) else None, data, codecs)
               case Ok(next) => ApplyFilters(fs, ps, i + 1, next, codecs)
               case Err(e) => Err(e)
  {
  }

  /** The parameters that belong to the filters after the first `n`. */
  function DropParms(ps: seq<Obj>, n: nat): (r: seq<Obj>)
    ensures forall j :: 0 <= j < |r| ==> n + j < |ps| && r[j] == ps[n + j]
    ensures |r| == if n <= |ps| then |ps| - n else 0
  {
    if n <= |ps| then ps[n..] else []
  }

  /** Filters are applied in list order: a chain free of image filters
      followed by more filters is the first chain's output fed to the
      second, each filter keeping the parameters of its position. */
  lemma ApplyFiltersAppend(fs: seq<Obj>, gs: seq<Obj>, ps: seq<Obj>, i: nat, data: Data, codecs: Codecs)
    requires i <= |fs|
    requires forall k :: i <= k < |fs| ==> !IsImageFilter(fs[k])
    ensures ApplyFilters(fs + gs, ps, i, data, codecs)
            == match ApplyFilters(fs, ps, i, data, codecs)
               case Ok(mid) => ApplyFilters(gs, DropParms(ps, |fs|), 0, mid, codecs)
               case Err(e) => Err(e)
  {
    ChainAppend(fs, gs, ps, i, data, Decoder(codecs));
  }

  lemma {:induction false} ChainAppend(fs: seq<Obj>, gs: seq<Obj>, ps: seq<Obj>, i: nat, data: Data, decode: (Obj, Option<Obj>, Data) -> Result<Data>)
    requires i <= |fs|
    requires forall k :: i <= k < |fs| ==> !IsImageFilter(fs[k])
    ensures Chain(fs + gs, ps, i, data, decode)
            == match Chain(fs, ps, i, data, decode)
               case Ok(mid) => Chain(gs, DropParms(ps, |fs|), 0, mid, decode)
               case Err(e) => Err(e)
    decreases |fs| - i
  {
    if i == |fs| {
      ChainShift(fs, gs, ps, 0, data, decode);
    } else {
      assert (fs + gs)[i] == fs[i];
      var step := decode(fs[i], ParmAt(ps, i), data);
      if step.Ok? {
        ChainAppend(fs, gs, ps, i + 1, step.value, decode);
      }
    }
  }

  /** Running the filters after a prefix is running the suffix alone with
      the parameters after the prefix's. */
  lemma {:induction false} ChainShift(fs: seq<Obj>, gs: seq<Obj>, ps: seq<Obj>, j: nat, data: Data, decode: (Obj, Option<Obj>, Data) -> Result<Data>)
    requires j <= |gs|
    ensures Chain(fs + gs, ps, |fs| + j, data, decode) == Chain(gs, DropParms(ps, |fs|), j, data, decode)
    decreases |gs| - j
  {
    if j < |gs| {
      assert (fs + gs)[|fs| + j] == gs[j];
      assert ParmAt(ps, |fs| + j) == ParmAt(DropParms(ps, |fs|), j);
      var step := decode(gs[j], ParmAt(ps, |fs| + j), data);
      if step.Ok? {
        ChainShift(fs, gs, ps, j + 1, step.value, decode);
      }
    }
  }

  /** An image filter ends the chain: the data so far is returned whatever
      follows. */
  lemma ImageFilterStops(fs: seq<Obj>, parms: seq<Obj>, i: nat, data: Data, codecs: Codecs)
    requires i < |fs| && IsImageFilter(fs[i])
    ensures ApplyFilters(fs, parms, i, data, codecs) == Ok(data)
  {
  }

  /** A name the chain does not know raises NotImplementedError. */
  lemma UnknownFilterRaises(fs: seq<Obj>, parms: seq<Obj>, i: nat, data: Data, codecs: Codecs)
    requires i < |fs| && !IsImageFilter(fs[i]) && !IsCodecFilter(fs[i])
    ensures ApplyFilters(fs, parms, i, data, codecs) == Err(NotImplementedError)
  {
  }

  /** With /Filter and /DecodeParms given as arrays of direct objects, the
      i-th filter gets the i-th parameters (None past the end of the
      array), in the code as written and with the corrected defaults. */
  lemma DecodeParmsPaired(fs: seq<Obj>, ps: seq<Obj>, data: seq<byte>, arena: Arena, codecs: Codecs)
    requires forall k :: 0 <= k < |fs| ==> !fs[k].Indirect?
    requires forall k :: 0 <= k < |ps| ==> !ps[k].Indirect?
    ensures var header := map["/Filter" := Array(fs), "/DecodeParms" := Array(ps)];
      DecodeStreamData(header, data, arena, codecs) == ApplyFilters(fs, ps, 0, Bin(data), codecs)
      && DecodeStreamDataAsWritten(header, data, arena, codecs) == ApplyFilters(fs, ps, 0, Bin(data), codecs)
  {
    assert ResolveAll(arena, fs) == fs;
    assert ResolveAll(arena, ps) == ps;
  }

  /** A single parameter dictionary belongs to the first filter alone: the
      second filter of the chain gets None. */
  lemma DictParmsFirstOnly(f: Obj, g: Obj, d: map<string, Obj>, data: seq<byte>, arena: Arena, codecs: Codecs)
    requires !f.Indirect? && !g.Indirect? && !IsImageFilter(f) && !IsImageFilter(g)
    ensures var header := map["/Filter" := Array([f, g]), "/DecodeParms" := Dict(d)];
      DecodeStreamData(header, data, arena, codecs)
      == match DecodeOne(f, Some(Dict(d)), Bin(data), codecs)
         case Ok(mid) => DecodeOne(g, None, mid, codecs)
         case Err(e) => Err(e)
  {
    var fs := [f, g];
    assert ResolveAll(arena, fs) == fs;
    ApplyStep(fs, [Dict(d)], 0, Bin(data), codecs);
    var step := DecodeOne(f, Some(Dict(d)), Bin(data), codecs);
    if step.Ok? {
      ApplyStep(fs, [Dict(d)], 1, step.value, codecs);
      var second := DecodeOne(g, None, step.value, codecs);
      if second.Ok? {
        assert ApplyFilters(fs, [Dict(d)], 2, second.value, codecs) == Ok(second.value);
      }
    }
  }

  /** LZWDecode hands on a str: a non-empty one makes a following
      RunLengthDecode or FlateDecode fail with TypeError, while an ASCII one
      goes through ASCIIHexDecode as its bytes would. */
  lemma LzwStrInChain(lzwData: seq<byte>, s: seq<byte>, parm: Option<Obj>, codecs: Codecs)
    requires Lzw.LzwDecodeCorrected(lzwData) == Ok(s)
    ensures DecodeOne(Name("/LZWDecode"), parm, Bin(lzwData), codecs) == Ok(Chars(s))
    ensures s != [] ==> DecodeOne(Name("/RunLengthDecode"), None, Chars(s), codecs) == Err(TypeError)
    ensures DecodeOne(Name("/FlateDecode"), parm, Chars(s), codecs) == Err(TypeError)
    ensures (forall k :: 0 <= k < |s| ==> s[k] < 128)
            ==> DecodeOne(Name("/ASCIIHexDecode"), None, Chars(s), codecs) == AsBin(ASCIIHexDecode(s))
  {
    LzwGivesStr(lzwData, s, parm, codecs);
    StrRefused(s, parm, codecs);
    AsciiStrHex(s, codecs);
  }

  lemma LzwGivesStr(lzwData: seq<byte>, s: seq<byte>, parm: Option<Obj>, codecs: Codecs)
    requires Lzw.LzwDecodeCorrected(lzwData) == Ok(s)
    ensures DecodeOne(Name("/LZWDecode"), parm, Bin(lzwData), codecs) == Ok(Chars(s))
  {
  }

  lemma StrRefused(s: seq<byte>, parm: Option<Obj>, codecs: Codecs)
    ensures s != [] ==> DecodeOne(Name("/RunLengthDecode"), None, Chars(s), codecs) == Err(TypeError)
    ensures DecodeOne(Name("/FlateDecode"), parm, Chars(s), codecs) == Err(TypeError)
  {
  }

  lemma AsciiStrHex(s: seq<byte>, codecs: Codecs)
    ensures (forall k :: 0 <= k < |s| ==> s[k] < 128)
            ==> DecodeOne(Name("/ASCIIHexDecode"), None, Chars(s), codecs) == AsBin(ASCIIHexDecode(s))
  {
  }

  /** The stream dictionary of a hex-then-run-length stream. */
  function HexRunLengthHeader(): map<string, Obj>
  {
    map["/Filter" := Array([Name("/ASCIIHexDecode"), Name("/RunLengthDecode")])]
  }

  /** A run-length stream stored in hex decodes to its runs' bytes through
      the two-filter chain (hex first, as listed). */
  lemma {:induction false} HexRunLengthChain(runs: seq<Run>, after: seq<byte>, gts: nat, arena: Arena, codecs: Codecs)
    requires ValidRuns(runs)
    ensures DecodeStreamData(HexRunLengthHeader(), HexEncode(EncodeRuns(runs) + [128] + after) + Fill(62, gts), arena, codecs)
            == Ok(Bin(ExpandRuns(runs)))
  {
    var fs := [Name("/ASCIIHexDecode"), Name("/RunLengthDecode")];
    var encoded := EncodeRuns(runs) + [128] + after;
    var data := HexEncode(encoded) + Fill(62, gts);
    HexRunLengthLists(arena);
    ASCIIHexRoundTrip(encoded, gts);
    RunLengthRoundTrip(runs, after);
    ApplyStep(fs, [], 0, Bin(data), codecs);
    ApplyStep(fs, [], 1, Bin(encoded), codecs);
  }

  lemma HexRunLengthLists(arena: Arena)
    ensures FilterList(NoneWhenAbsent, Entry(HexRunLengthHeader(), "/Filter"), arena)
            == Ok([Name("/ASCIIHexDecode"), Name("/RunLengthDecode")])
    ensures ParmsList(NoneWhenAbsent, Entry(HexRunLengthHeader(), "/DecodeParms"), arena) == Ok([])
  {
    var fs := [Name("/ASCIIHexDecode"), Name("/RunLengthDecode")];
    assert ResolveAll(arena, fs) == fs;
  }

  /** A stream with one filter name and no parameters is that filter's
      decode (or the raw data, for an image filter). */
  lemma SingleFilter(name: string, data: seq<byte>, arena: Arena, codecs: Codecs)
    ensures var f := Name(name);
      DecodeStreamData(map["/Filter" := f], data, arena, codecs)
      == if IsImageFilter(f) then Ok(Bin(data)) else DecodeOne(f, None, Bin(data), codecs)
  {
    var f := Name(name);
    var header := map["/Filter" := f];
    assert FilterList(NoneWhenAbsent, Entry(header, "/Filter"), arena) == Ok([f]);
    assert ParmsList(NoneWhenAbsent, Entry(header, "/DecodeParms"), arena) == Ok([]);
    if !IsImageFilter(f) {
      ApplyStep([f], [], 0, Bin(data), codecs);
    }
  }

  /** A hex-encoded stream with only a /Filter entry.  As written the
      missing /DecodeParms raises PdfReadError; read as "no parameters"
      the stream decodes to "A". */
  lemma AbsentParmsCounterexample(arena: Arena, codecs: Codecs)
    ensures DecodeStreamDataAsWritten(map["/Filter" := Name("/ASCIIHexDecode")], [52, 49], arena, codecs) == Err(PdfReadError)
    ensures DecodeStreamData(map["/Filter" := Name("/ASCIIHexDecode")], [52, 49], arena, codecs) == Ok(Bin([65]))
  {
    HexOfA();
    SingleFilter("/ASCIIHexDecode", [52, 49], arena, codecs);
  }

  /** "41" is the hex encoding of "A". */
  lemma HexOfA()
    ensures ASCIIHexDecode([52, 49]) == Ok([65])
  {
    ASCIIHexRoundTrip([65], 0);
    assert HexEncode([65]) + Fill(62, 0) == [52, 49];
  }

  /** Inflated data with no parameters, or /Predictor 1, is returned as is. */
  lemma FlateNoPredictor(data: seq<byte>, entries: map<string, Obj>, inflate: seq<byte> -> Option<seq<byte>>)
    requires inflate(data).Some?
    requires "/Predictor" !in entries || entries["/Predictor"] == Int(1)
    ensures FlateDecode(data, Some(Dict(entries)), inflate) == Ok(inflate(data).value)
  {
  }

  /** Truthy parameters that are not a dictionary raise AttributeError on
      `.get`. */
  lemma FlateParmsNotDict(data: seq<byte>, parms: Obj, inflate: seq<byte> -> Option<seq<byte>>)
    requires inflate(data).Some? && PyTruthy(parms) && !IsDictLike(parms)
    ensures FlateDecode(data, Some(parms), inflate) == Err(AttributeError)
  {
  }

  /** The predictor value is compared as it is: an unsupported number is
      refused before /Columns is looked at, and the real 2.0 selects the TIFF
      predictor just as the integer 2 does. */
  lemma FlateRawPredictor(data: seq<byte>, columns: Obj, inflate: seq<byte> -> Option<seq<byte>>)
    requires inflate(data).Some?
    ensures FlateDecode(data, Some(Dict(map["/Predictor" := Int(3), "/Columns" := columns])), inflate)
         == Err(PdfReadError)
    ensures FlateDecode(data, Some(Dict(map["/Predictor" := Float(2.0), "/Columns" := columns])), inflate)
         == FlateDecode(data, Some(Dict(map["/Predictor" := Int(2), "/Columns" := columns])), inflate)
    ensures FlateDecode(data, Some(Dict(map["/Predictor" := Name("/Two")])), inflate) == Err(TypeError)
  {
    FlatePredictorThree(data, columns, inflate);
    var pf := Dict(map["/Predictor" := Float(2.0), "/Columns" := columns]);
    var pi := Dict(map["/Predictor" := Int(2), "/Columns" := columns]);
    assert PredictorOf(pf) == Float(2.0) && PredictorOf(pi) == Int(2);
    FlateSameParms(data, pf, pi, inflate);
    FlatePredictorName(data, inflate);
  }

  lemma FlatePredictorThree(data: seq<byte>, columns: Obj, inflate: seq<byte> -> Option<seq<byte>>)
    requires inflate(data).Some?
    ensures FlateDecode(data, Some(Dict(map["/Predictor" := Int(3), "/Columns" := columns])), inflate)
         == Err(PdfReadError)
  {
    var p3 := Dict(map["/Predictor" := Int(3), "/Columns" := columns]);
    assert PredictorOf(p3) == Int(3);
  }

  lemma FlatePredictorName(data: seq<byte>, inflate: seq<byte> -> Option<seq<byte>>)
    requires inflate(data).Some?
    ensures FlateDecode(data, Some(Dict(map["/Predictor" := Name("/Two")])), inflate) == Err(TypeError)
  {
    var pn := Dict(map["/Predictor" := Name("/Two")]);
    assert PredictorOf(pn) == Name("/Two");
  }

  /** Both dictionaries lack `key`, or both map it to the same object. */
  predicate SameEntry(d: map<string, Obj>, e: map<string, Obj>, key: string)
  {
    (key in d <==> key in e) && (key in d ==> d[key] == e[key])
  }

  /** Two truthy parameter dictionaries that select the same predictor and
      agree on /Columns, /Colors and /BitsPerComponent decode alike. */
  lemma FlateSameParms(data: seq<byte>, p: Obj, q: Obj, inflate: seq<byte> -> Option<seq<byte>>)
    requires IsDictLike(p) && IsDictLike(q) && PyTruthy(p) && PyTruthy(q)
    requires PredictorKindOf(PredictorOf(p)) == PredictorKindOf(PredictorOf(q))
    requires SameEntry(EntriesOf(p), EntriesOf(q), "/Columns") && SameEntry(EntriesOf(p), EntriesOf(q), "/Colors")
    requires SameEntry(EntriesOf(p), EntriesOf(q), "/BitsPerComponent")
    ensures FlateDecode(data, Some(p), inflate) == FlateDecode(data, Some(q), inflate)
  {
    var d := EntriesOf(p);
    var e := EntriesOf(q);
    assert IntEntry(d, "/Columns", 1) == IntEntry(e, "/Columns", 1);
    assert IntEntry(d, "/Colors", 1) == IntEntry(e, "/Colors", 1);
    assert IntEntry(d, "/BitsPerComponent", 8) == IntEntry(e, "/BitsPerComponent", 8);
  }

  /** The TIFF predictor parameters for `columns` one-byte samples of
      `colors` components. */
  function TiffParms(columns: int, colors: int): Obj
  {
    Dict(map["/Predictor" := Int(2), "/Columns" := Int(columns), "/Colors" := Int(colors)])
  }

  /** FlateDecode undoes a TIFF-predicted image whose inflated rows were
      predictor-encoded: the predictor parameters reach the corrected
      predictor decode with 8 bits per component by default. */
  lemma FlateTiffRoundTrip(data: seq<byte>, x: seq<byte>, columns: nat, colors: nat, inflate: seq<byte> -> Option<seq<byte>>)
    requires columns >= 1 && colors >= 1
    requires inflate(data) == Some(TiffEncode(x, columns * colors, colors))
    ensures FlateDecode(data, Some(TiffParms(columns, colors)), inflate) == Ok(x)
  {
    var rowSize := columns * colors;
    TiffParmsRead(columns, colors);
    TiffRowSize(columns, colors);
    TiffRoundTrip(x, rowSize, colors);
    assert DecodePredictor(inflate(data).value, 2, columns, colors, 8) == Ok(x);
  }

  lemma TiffParmsRead(columns: int, colors: int)
    ensures var p := TiffParms(columns, colors);
      PyTruthy(p) && IsDictLike(p) && PredictorKindOf(PredictorOf(p)) == TiffPredictor &&
      IntEntry(EntriesOf(p), "/Columns", 1) == Ok(columns) &&
      IntEntry(EntriesOf(p), "/Colors", 1) == Ok(colors) &&
      IntEntry(EntriesOf(p), "/BitsPerComponent", 8) == Ok(8)
  {
    var e := EntriesOf(TiffParms(columns, colors));
    assert "/Predictor" in e && "/BitsPerComponent" !in e;
  }

  /** With 8-bit samples the TIFF row size is one byte per sample. */
  lemma TiffRowSize(columns: nat, colors: nat)
    requires columns >= 1 && colors >= 1
    ensures columns * colors >= 1
    ensures (columns * colors * 8 + 7) / 8 == columns * colors
  {
    var n := columns * colors;
    assert n * 8 + 7 == 8 * n + 7;
  }
}
