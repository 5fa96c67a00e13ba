/** The inline-image scanners of `pypdf/generic/_image_inline.py`: each
    reads an inline image's data up to its terminator (`>>` for hex, `~>` for
    base-85, `EI` otherwise) and decodes it.

    The one-byte loops never test for the end of the stream: there `read(1)`
    keeps returning `b""` and the loop never ends.  A scan is therefore
    `None` when it runs off the end, and the extractors require a scan that
    ends.

    Two faults in the module are modelled as written and corrected:
    `SEEK_CUR` is never imported, so every `stream.seek(..., SEEK_CUR)` raises
    NameError, and `from .filters import ...` inside `pypdf/generic` names a
    module that does not exist, so it raises ImportError. */
module ImageInline {
  import opened PyBase
  import opened Utils
  import opened Filters

  /** `BUFFER_SIZE`, the chunk size of the DCT scan. */
  const BUFFER_SIZE: nat := 8192

  const EI: seq<byte> := [69, 73]

  /** A finished scan: the bytes collected and the offset it stopped at. */
  datatype Scan = Scan(bytes: seq<byte>, end: nat)

  /** An extracted image: its data and the stream after it. */
  datatype Extracted = Extracted(bytes: seq<byte>, stream: Stream)

  /** `prefix` in front of a finished scan's bytes. */
  function Cons(prefix: seq<byte>, r: Option<Scan>): (c: Option<Scan>)
    ensures c.Some? <==> r.Some?
    ensures c.Some? ==> c.value == Scan(prefix + r.value.bytes, r.value.end)
  {
    match r
    case None => None
    case Some(Scan(out, p)) => Some(Scan(prefix + out, p))
  }

  /** Bytes found at `i` followed by a scan's bytes found just after them
      are found together at `i`. */
  lemma ConsOccurs(data: seq<byte>, prefix: seq<byte>, r: Option<Scan>, i: nat)
    requires OccursAt(data, prefix, i)
    requires r.Some? ==> OccursAt(data, r.value.bytes, i + |prefix|)
    ensures Cons(prefix, r).Some? ==> OccursAt(data, Cons(prefix, r).value.bytes, i)
  {
    if r.Some? {
      var n, m := |prefix|, |r.value.bytes|;
      assert data[i..i + n + m] == data[i..i + n] + data[i + n..i + n + m];
    }
  }

  // ---------------------------------------------------------------------
  // extract_inline_AHx
  // ---------------------------------------------------------------------

  /** The loop of `extract_inline_AHx` from offset `i`: whitespace is
      skipped, `>>` ends the scan, and a `>` followed by any other byte is
      kept together with that byte, which is not looked at again.  The result
      is the collected bytes and the offset just past `>>`. */
  function ScanAHx(data: seq<byte>, i: nat): (r: Option<Scan>)
    ensures r.Some? ==> i + 2 <= r.value.end && OccursAt(data, [62, 62], r.value.end - 2)
    ensures r.Some? ==> i + |r.value.bytes| + 2 <= r.value.end
    decreases |data| - i
  {
    if i >= |data| then None
    else if data[i] == 62 then
      if i + 1 >= |data| then None
      else if data[i + 1] == 62 then Some(Scan([], i + 2))
      else Cons([62, data[i + 1]], ScanAHx(data, i + 2))
    else if IsWhitespace(data[i]) then ScanAHx(data, i + 1)
    else Cons([data[i]], ScanAHx(data, i + 1))
  }

  /** `extract_inline_AHx(stream)`: the scanned digits are decoded as ASCII
      (a byte from 128 up is a UnicodeDecodeError, a ValueError) and passed
      to `bytes.fromhex` (a bad digit is a ValueError).  The stream ends just
      past `>>`. */
  function ExtractInlineAHx(s: Stream): (r: Result<Extracted>)
    requires InBounds(s) && ScanAHx(s.data, s.pos).Some?
    ensures r.Err? ==> r.exc == ValueError
    ensures r.Ok? ==> (r.value.stream.data == s.data && s.pos + 2 <= r.value.stream.pos
      && OccursAt(s.data, [62, 62], r.value.stream.pos - 2))
  {
    var Scan(hex, p) := ScanAHx(s.data, s.pos).value;
    if exists k :: 0 <= k < |hex| && hex[k] >= 128 then Err(ValueError)
    else
      match Filters.FromHex(hex)
      case Ok(v) => Ok(Extracted(v, Stream(s.data, p)))
      case Err(_) => Err(ValueError)
  }

  /** A payload free of whitespace and of `>` is collected whole. */
  lemma {:induction false} ScanAHxPayload(data: seq<byte>, i: nat, payload: seq<byte>)
    requires i + |payload| + 2 <= |data| && data[i..i + |payload|] == payload
    requires data[i + |payload|..i + |payload| + 2] == [62, 62]
    requires forall k :: 0 <= k < |payload| ==> payload[k] != 62 && !IsWhitespace(payload[k])
    ensures ScanAHx(data, i) == Some(Scan(payload, i + |payload| + 2))
    decreases |payload|
  {
    if payload == [] {
      assert data[i] == 62 && data[i + 1] == 62;
    } else {
      assert data[i] == payload[0];
      assert data[i + 1..i + 1 + |payload[1..]|] == payload[1..];
      ScanAHxPayload(data, i + 1, payload[1..]);
      assert [payload[0]] + payload[1..] == payload;
    }
  }

  /** The bytes of `s` that are not whitespace, in order. */
  function DropWhitespace(s: seq<byte>): (r: seq<byte>)
    ensures |r| <= |s|
    ensures forall k :: 0 <= k < |r| ==> !IsWhitespace(r[k])
  {
    if s == [] then [] else (if IsWhitespace(s[0]) then [] else [s[0]]) + DropWhitespace(s[1..])
  }

  /** Up to the first `>`, the scan collects every byte that is not
      whitespace; when that `>` starts `>>` the scan ends just past it. */
  lemma {:induction false} ScanAHxFirst(data: seq<byte>, i: nat, q: nat)
    requires i <= q && q + 2 <= |data| && data[q..q + 2] == [62, 62]
    requires forall k :: i <= k < q ==> data[k] != 62
    ensures ScanAHx(data, i) == Some(Scan(DropWhitespace(data[i..q]), q + 2))
    decreases q - i
  {
    if i < q {
      ScanAHxFirst(data, i + 1, q);
      var rest := DropWhitespace(data[i + 1..q]);
      assert data[i..q][0] == data[i] && data[i..q][1..] == data[i + 1..q];
      if IsWhitespace(data[i]) {
        assert DropWhitespace(data[i..q]) == [] + rest == rest;
      } else {
        assert DropWhitespace(data[i..q]) == [data[i]] + rest;
      }
    } else {
      assert data[q] == 62 && data[q + 1] == 62;
    }
  }

  /** A `>` that does not start `>>` is kept with the byte after it, even
      whitespace or a byte that would otherwise be skipped, and the scan
      goes on after the pair. */
  lemma ScanAHxPair(data: seq<byte>, i: nat, q: nat)
    requires i + 2 <= q && q + 2 <= |data| && data[q..q + 2] == [62, 62]
    requires data[i] == 62 && data[i + 1] != 62
    requires forall k :: i + 2 <= k < q ==> data[k] != 62
    ensures ScanAHx(data, i) == Some(Scan([62, data[i + 1]] + DropWhitespace(data[i + 2..q]), q + 2))
  {
    ScanAHxFirst(data, i + 2, q);
  }

  /** Round trip: hex-encoding bytes and terminating them with `>>` gives the
      bytes back, whatever follows. */
  lemma {:induction false} ExtractInlineAHxRoundTrip(x: seq<byte>, rest: seq<byte>)
    ensures var data := Filters.HexEncode(x) + [62, 62] + rest;
      ScanAHx(data, 0).Some?
      && ExtractInlineAHx(Stream(data, 0)) == Ok(Extracted(x, Stream(data, 2 * |x| + 2)))
  {
    HexDecodesBack(x);
    AHxOfDigits(Filters.HexEncode(x), x, rest);
  }

  /** Digits that decode to `x`, terminated by `>>`, extract to `x`. */
  lemma {:induction false} AHxOfDigits(hex: seq<byte>, x: seq<byte>, rest: seq<byte>)
    requires forall k :: 0 <= k < |hex| ==> Filters.IsHexDigit(hex[k]) && hex[k] < 128
    requires Filters.FromHex(hex) == Ok(x) && |hex| == 2 * |x|
    ensures var data := hex + [62, 62] + rest;
      ScanAHx(data, 0).Some?
      && ExtractInlineAHx(Stream(data, 0)) == Ok(Extracted(x, Stream(data, 2 * |x| + 2)))
  {
    ScanAHxTerminated(hex, rest);
    AHxOfScan(Stream(hex + [62, 62] + rest, 0), hex, |hex| + 2, x);
  }

  /** Hex digits are neither `>` nor whitespace, so the scan takes them all. */
  lemma ScanAHxTerminated(hex: seq<byte>, rest: seq<byte>)
    requires forall k :: 0 <= k < |hex| ==> Filters.IsHexDigit(hex[k])
    ensures ScanAHx(hex + [62, 62] + rest, 0) == Some(Scan(hex, |hex| + 2))
  {
    var data := hex + [62, 62] + rest;
    assert data[0..|hex|] == hex;
    assert data[|hex|..|hex| + 2] == [62, 62];
    ScanAHxPayload(data, 0, hex);
  }

  lemma HexDecodesBack(x: seq<byte>)
    ensures Filters.FromHex(Filters.HexEncode(x)) == Ok(x)
  {
    Filters.FromHexAfterEncoded(x, []);
    assert Filters.HexEncode(x) + [] == Filters.HexEncode(x);
    assert x + [] == x;
  }

  lemma AHxOfScan(s: Stream, hex: seq<byte>, p: nat, x: seq<byte>)
    requires InBounds(s) && ScanAHx(s.data, s.pos) == Some(Scan(hex, p))
    requires forall k :: 0 <= k < |hex| ==> hex[k] < 128
    requires Filters.FromHex(hex) == Ok(x)
    ensures ExtractInlineAHx(s) == Ok(Extracted(x, Stream(s.data, p)))
  {
  }

  /** Whitespace between the digits is skipped. */
  lemma ScanAHxSkipsWhitespace(data: seq<byte>, i: nat)
    requires i < |data| && IsWhitespace(data[i])
    ensures ScanAHx(data, i) == ScanAHx(data, i + 1)
  {
  }

  // ---------------------------------------------------------------------
  // extract_inline_A85
  // ---------------------------------------------------------------------

  /** The loop of `extract_inline_A85` from offset `i`: every byte is kept
      until `~>`; a `~` followed by another byte is kept with that byte,
      which is not looked at again. */
  function ScanA85(data: seq<byte>, i: nat): (r: Option<Scan>)
    requires i <= |data|
    ensures r.Some? ==> i + 2 <= r.value.end && OccursAt(data, [126, 62], r.value.end - 2)
    ensures r.Some? ==> i + |r.value.bytes| + 2 == r.value.end
    decreases |data| - i
  {
    if i == |data| then None
    else if data[i] == 126 then
      if i + 1 == |data| then None
      else if data[i + 1] == 62 then Some(Scan([], i + 2))
      else Cons([126, data[i + 1]], ScanA85(data, i + 2))
    else Cons([data[i]], ScanA85(data, i + 1))
  }

  /** The bytes the scan keeps are the ones it passed over, up to the
      `~>`. */
  lemma {:induction false} ScanA85Occurs(data: seq<byte>, i: nat)
    requires i <= |data|
    ensures ScanA85(data, i).Some? ==> OccursAt(data, ScanA85(data, i).value.bytes, i)
    decreases |data| - i
  {
    if i < |data| && data[i] == 126 && i + 1 < |data| && data[i + 1] != 62 {
      ScanA85Occurs(data, i + 2);
      assert data[i..i + 2] == [126, data[i + 1]];
      ConsOccurs(data, [126, data[i + 1]], ScanA85(data, i + 2), i);
    } else if i < |data| && data[i] != 126 {
      ScanA85Occurs(data, i + 1);
      assert data[i..i + 1] == [data[i]];
      ConsOccurs(data, [data[i]], ScanA85(data, i + 1), i);
    }
  }

  /** `extract_inline_A85(stream)` as written: once `~>` is found, the
      relative import of `.filters` fails. */
  function ExtractInlineA85AsWritten(s: Stream): (r: Result<Extracted>)
    requires InBounds(s) && ScanA85(s.data, s.pos).Some?
    ensures r == Err(ImportError)
  {
    var _ := ScanA85(s.data, s.pos).value;
    Err(ImportError)
  }

  /** `extract_inline_A85` with the import resolved to the stream filters:
      the bytes before `~>` go to ASCII85Decode (`a85` standing for
      `base64.a85decode`), and the stream ends just past `~>`. */
  function ExtractInlineA85(s: Stream, a85: seq<byte> -> Result<seq<byte>>): (r: Result<Extracted>)
    requires InBounds(s) && ScanA85(s.data, s.pos).Some?
    ensures r.Ok? ==> (r.value.stream.data == s.data && s.pos + 2 <= r.value.stream.pos
      && OccursAt(s.data, [126, 62], r.value.stream.pos - 2)
      && r.value.stream.pos == ScanA85(s.data, s.pos).value.end
      && Filters.ASCII85Decode(ScanA85(s.data, s.pos).value.bytes, a85) == Ok(r.value.bytes))
    ensures r.Err? ==> Filters.ASCII85Decode(ScanA85(s.data, s.pos).value.bytes, a85).Err?
  {
    var Scan(body, p) := ScanA85(s.data, s.pos).value;
    var v :- Filters.ASCII85Decode(body, a85);
    Ok(Extracted(v, Stream(s.data, p)))
  }

  /** The scan stops at the first `~>` when no other `~` comes before it. */
  lemma {:induction false} ScanA85First(data: seq<byte>, i: nat, q: nat)
    requires i <= q && q + 2 <= |data| && data[q..q + 2] == [126, 62]
    requires forall k :: i <= k < q ==> data[k] != 126
    ensures ScanA85(data, i) == Some(Scan(data[i..q], q + 2))
    decreases q - i
  {
    if i < q {
      ScanA85First(data, i + 1, q);
      assert [data[i]] + data[i + 1..q] == data[i..q];
    }
  }

  /** `~~>` hides its `~>`: the first `~` swallows the second. */
  lemma ScanA85Pairing()
    ensures ScanA85([126, 126, 62], 0) == None
  {
    assert ScanA85([126, 126, 62], 2) == None;
  }

  /** As written the import fails, while the corrected scan hands `"87cUR"`
      from `87cUR~>` to the base-85 decoder. */
  const A85Example: seq<byte> := [56, 55, 99, 85, 82, 126, 62]

  lemma A85Counterexample(a85: seq<byte> -> Result<seq<byte>>)
    ensures var data := A85Example;
      ScanA85(data, 0).Some?
      && ExtractInlineA85AsWritten(Stream(data, 0)) == Err(ImportError)
      && (a85([56, 55, 99, 85, 82]).Ok? ==>
            ExtractInlineA85(Stream(data, 0), a85) == Ok(Extracted(a85([56, 55, 99, 85, 82]).value, Stream(data, 7))))
  {
    var data: seq<byte> := [56, 55, 99, 85, 82, 126, 62];
    var body: seq<byte> := [56, 55, 99, 85, 82];
    assert data[5..7] == [126, 62];
    ScanA85First(data, 0, 5);
    assert data[0..5] == body;
    ExampleBodyUndelimited();
  }

  lemma ExampleBodyUndelimited()
    ensures Filters.ASCII85Body([56, 55, 99, 85, 82]) == [56, 55, 99, 85, 82]
  {
    var body: seq<byte> := [56, 55, 99, 85, 82];
    assert body[..2] == [56, 55];
    assert body[0] != 60;
    Filters.ASCII85Undelimited(body);
  }

  // ---------------------------------------------------------------------
  // extract_inline_default and extract_inline_RL
  // ---------------------------------------------------------------------

  /** The loop shared by `extract_inline_RL` and `extract_inline_default`
      from offset `i`: every byte read is written out, an `E` followed by
      `I` ends the scan at the `E`, and an `E` followed by anything else is
      written with its successor, which is not looked at again.  The result
      is the bytes written and the offset of the terminating `E`. */
  function ScanEI(data: seq<byte>, i: nat): (r: Option<Scan>)
    requires i <= |data|
    ensures r.Some? ==> i <= r.value.end && OccursAt(data, EI, r.value.end)
    ensures r.Some? ==> OccursAt(data, r.value.bytes, i) && i + |r.value.bytes| == r.value.end
    decreases |data| - i
  {
    if i == |data| then None
    else if data[i] == 69 then
      if i + 1 == |data| then None
      else if data[i + 1] == 73 then Some(Scan([], i))
      else
        assert data[i..i + 2] == [69, data[i + 1]];
        ConsOccurs(data, [69, data[i + 1]], ScanEI(data, i + 2), i);
        Cons([69, data[i + 1]], ScanEI(data, i + 2))
    else
      assert data[i..i + 1] == [data[i]];
      ConsOccurs(data, [data[i]], ScanEI(data, i + 1), i);
      Cons([data[i]], ScanEI(data, i + 1))
  }

  /** `extract_inline_default(stream)` as written: finding `EI` triggers
      `seek(-2, SEEK_CUR)`, a NameError. */
  function ExtractInlineDefaultAsWritten(s: Stream): (r: Result<Extracted>)
    requires InBounds(s) && ScanEI(s.data, s.pos).Some?
    ensures r == Err(NameError)
  {
    var _ := ScanEI(s.data, s.pos).value;
    Err(NameError)
  }

  /** `extract_inline_default` with the seek working: the bytes before the
      terminating `EI`, with the stream moved back onto its `E`. */
  function ExtractInlineDefault(s: Stream): (r: Extracted)
    requires InBounds(s) && ScanEI(s.data, s.pos).Some?
    ensures r.stream.data == s.data && s.pos <= r.stream.pos && OccursAt(s.data, EI, r.stream.pos)
    ensures OccursAt(s.data, r.bytes, s.pos) && s.pos + |r.bytes| == r.stream.pos
  {
    var Scan(out, p) := ScanEI(s.data, s.pos).value;
    Extracted(out, Stream(s.data, p))
  }

  /** The scan stops at the first `EI` when no other `E` comes before it. */
  lemma {:induction false} ScanEIFirst(data: seq<byte>, i: nat, q: nat)
    requires i <= q && q + 2 <= |data| && data[q..q + 2] == EI
    requires forall k :: i <= k < q ==> data[k] != 69
    ensures ScanEI(data, i) == Some(Scan(data[i..q], q))
    decreases q - i
  {
    if i < q {
      ScanEIFirst(data, i + 1, q);
    }
  }

  /** An `E` directly before `EI` hides it: in `EEIEI` the scan pairs the
      first two `E`s, reads past the `EI` at offset 1 and stops at offset 3. */
  lemma ScanEIPairing()
    ensures ScanEI([69, 69, 73, 69, 73], 0) == Some(Scan([69, 69, 73], 3))
  {
    var data: seq<byte> := [69, 69, 73, 69, 73];
    assert ScanEI(data, 3) == Some(Scan([], 3));
    assert [73] + [] == [73];
    assert ScanEI(data, 2) == Some(Scan([73], 3));
    assert [69, 69] + [73] == [69, 69, 73];
  }

  /** As written `abEI` raises NameError; corrected, it yields `ab` and
      leaves the stream on the `E`. */
  const DefaultExample: seq<byte> := [97, 98, 69, 73]

  lemma DefaultCounterexample()
    ensures var data := DefaultExample;
      ScanEI(data, 0).Some?
      && ExtractInlineDefaultAsWritten(Stream(data, 0)) == Err(NameError)
      && ExtractInlineDefault(Stream(data, 0)) == Extracted([97, 98], Stream(data, 2))
  {
    var data: seq<byte> := [97, 98, 69, 73];
    assert data[2..4] == EI;
    ScanEIFirst(data, 0, 2);
    assert data[0..2] == [97, 98];
  }

  /** `extract_inline_RL` with the seek and the import working: the bytes
      the default scan returns, run-length decoded. */
  function ExtractInlineRL(s: Stream): (r: Result<Extracted>)
    requires InBounds(s) && ScanEI(s.data, s.pos).Some?
    ensures r.Ok? ==> (r.value.stream == ExtractInlineDefault(s).stream
      && Filters.RunLengthDecode(ExtractInlineDefault(s).bytes) == Ok(r.value.bytes))
    ensures r.Err? ==> r == Err(PdfStreamError)
  {
    var Scan(out, p) := ScanEI(s.data, s.pos).value;
    var v :- Filters.RunLengthDecode(out);
    Ok(Extracted(v, Stream(s.data, p)))
  }

  /** `extract_inline_RL` runs the loop of `extract_inline_default`, seek
      included, so as written it raises the same NameError on every input
      that ends in `EI`.  On `00 61 80 EI`, the run-length encoding of `a`
      with its end marker, the corrected extractor yields `a` and leaves the
      stream on the `E`. */
  const RLExample: seq<byte> := [0, 97, 128, 69, 73]

  lemma RLCounterexample()
    ensures var data := RLExample;
      ScanEI(data, 0).Some?
      && ExtractInlineDefaultAsWritten(Stream(data, 0)) == Err(NameError)
      && ExtractInlineRL(Stream(data, 0)) == Ok(Extracted([97], Stream(data, 3)))
  {
    var data: seq<byte> := [0, 97, 128, 69, 73];
    var enc: seq<byte> := [0, 97, 128];
    assert data[3..5] == EI;
    ScanEIFirst(data, 0, 3);
    assert data[0..3] == enc;
    assert enc[1..2] == [97] && enc[2..] == [128];
    assert Filters.RunLengthDecode(enc) == Filters.Prepend([97], Filters.RunLengthDecode([128]));
    assert [97] + [] == [97];
  }

  /** Round trip: run-length encoded runs with no `E` byte in their
      encoding, ended by the EOD byte 128 and `EI`, decode to the runs'
      expansion and leave the stream on the `E`. */
  lemma ExtractInlineRLRoundTrip(runs: seq<Run>, rest: seq<byte>)
    requires Filters.ValidRuns(runs)
    requires forall k :: 0 <= k < |Filters.EncodeRuns(runs)| ==> Filters.EncodeRuns(runs)[k] != 69
    ensures var enc := Filters.EncodeRuns(runs) + [128];
      var data := enc + EI + rest;
      ScanEI(data, 0).Some?
      && ExtractInlineRL(Stream(data, 0)) == Ok(Extracted(Filters.ExpandRuns(runs), Stream(data, |enc|)))
  {
    var enc := Filters.EncodeRuns(runs) + [128];
    var data := enc + EI + rest;
    assert data[|enc|..|enc| + 2] == EI;
    ScanEIFirst(data, 0, |enc|);
    assert data[0..|enc|] == enc;
    Filters.RunLengthRoundTrip(runs, []);
    assert enc + [] == enc;
  }

  // ---------------------------------------------------------------------
  // extract_inline_DCT
  // ---------------------------------------------------------------------

  predicate HasEI(chunk: seq<byte>)
  {
    exists k :: 0 <= k < |chunk| && OccursAt(chunk, EI, k)
  }

  /** An `EI` inside a slice is an `EI` inside any wider slice. */
  lemma HasEIWiden(data: seq<byte>, lo: nat, hi: nat, lo2: nat, hi2: nat)
    requires lo2 <= lo <= hi <= hi2 <= |data|
    requires HasEI(data[lo..hi])
    ensures HasEI(data[lo2..hi2])
  {
    var k :| 0 <= k < hi - lo && OccursAt(data[lo..hi], EI, k);
    EIAt(data[lo..hi], k);
    EIAt(data[lo2..hi2], lo - lo2 + k);
  }

  /** `EI` occurs at `k` when the bytes at `k` and `k + 1` are `E` and `I`. */
  lemma EIAt(s: seq<byte>, k: int)
    ensures OccursAt(s, EI, k) <==> 0 <= k && k + 2 <= |s| && s[k] == 69 && s[k + 1] == 73
  {
    if 0 <= k && k + 2 <= |s| && s[k] == 69 && s[k + 1] == 73 {
      assert s[k..k + 2] == [s[k], s[k + 1]];
    }
  }

  /** The chunk loop of `extract_inline_DCT` from offset `p`: 8192-byte
      reads until one contains `EI`; an empty read (the end of the stream)
      raises PdfReadError.  The result is the offset where reading stopped.
      An `EI` split across two reads is not seen. */
  function ReadChunks(data: seq<byte>, p: nat): (r: Result<nat>)
    requires p <= |data|
    ensures r.Err? ==> r.exc == PdfReadError
    ensures r.Ok? ==> p < r.value <= |data|
    decreases |data| - p
  {
    var chunk := data[p..Min(|data|, p + BUFFER_SIZE)];
    if chunk == [] then Err(PdfReadError)
    else if HasEI(chunk) then Ok(p + |chunk|)
    else ReadChunks(data, p + |chunk|)
  }

  /** Reading stops only after the data read contains an `EI`. */
  lemma {:induction false} ReadChunksFindsEI(data: seq<byte>, p: nat)
    requires p <= |data| && ReadChunks(data, p).Ok?
    ensures HasEI(data[p..ReadChunks(data, p).value])
    decreases |data| - p
  {
    var e := Min(|data|, p + BUFFER_SIZE);
    var chunk := data[p..e];
    if HasEI(chunk) {
      assert ReadChunks(data, p).value == e;
    } else {
      ReadChunksFindsEI(data, e);
      HasEIWiden(data, e, ReadChunks(data, p).value, p, ReadChunks(data, p).value);
    }
  }

  /** `jpeg_data.rfind(b'EI')`: the last occurrence from offset `k` down. */
  function LastEIFrom(s: seq<byte>, k: int): (r: Option<nat>)
    requires k < |s|
    ensures r.Some? ==> (r.value <= k && OccursAt(s, EI, r.value)
      && forall j :: r.value < j <= k ==> !OccursAt(s, EI, j))
    ensures r.None? ==> forall j :: 0 <= j <= k ==> !OccursAt(s, EI, j)
    decreases k + 1
  {
    if k < 0 then None
    else if OccursAt(s, EI, k) then Some(k)
    else LastEIFrom(s, k - 1)
  }

  function RFindEI(s: seq<byte>): (r: Option<nat>)
    ensures r.Some? ==> OccursAt(s, EI, r.value) && forall j :: r.value < j ==> !OccursAt(s, EI, j)
    ensures r.None? ==> !HasEI(s)
  {
    LastEIFrom(s, |s| - 1)
  }

  /** `extract_inline_DCT(stream)` as written: truncated data raises
      PdfReadError; otherwise the `seek(..., SEEK_CUR)` raises NameError. */
  function ExtractInlineDCTAsWritten(s: Stream): (r: Result<Extracted>)
    requires InBounds(s)
    ensures r.Err? && (r.exc == PdfReadError || r.exc == NameError)
    ensures ReadChunks(s.data, s.pos).Err? ==> r == Err(PdfReadError)
  {
    var e :- ReadChunks(s.data, s.pos);
    var jpeg := s.data[s.pos..e];
    match RFindEI(jpeg)
    case None => Err(PdfReadError)
    case Some(_) => Err(NameError)
  }

  /** `extract_inline_DCT` with the seek working: the data read up to its
      last `EI`, with the stream moved back onto that `E`. */
  function ExtractInlineDCT(s: Stream): (r: Result<Extracted>)
    requires InBounds(s)
    ensures r.Err? ==> r.exc == PdfReadError
    ensures r.Ok? ==> (r.value.stream.data == s.data && s.pos <= r.value.stream.pos
      && OccursAt(s.data, EI, r.value.stream.pos)
      && OccursAt(s.data, r.value.bytes, s.pos) && s.pos + |r.value.bytes| == r.value.stream.pos)
  {
    var e :- ReadChunks(s.data, s.pos);
    var jpeg := s.data[s.pos..e];
    match RFindEI(jpeg)
    case None => Err(PdfReadError)
    case Some(q) =>
      EIAt(jpeg, q);
      EIAt(s.data, s.pos + q);
      Ok(Extracted(jpeg[..q], Stream(s.data, s.pos + q)))
  }

  /** The DCT scan fails exactly when the chunk reads run out: once a read
      has found `EI`, `rfind` cannot fail, and as written the seek then
      raises NameError. */
  lemma DCTFailsOnlyWhenTruncated(s: Stream)
    requires InBounds(s)
    ensures ExtractInlineDCT(s).Err? <==> ReadChunks(s.data, s.pos).Err?
    ensures ExtractInlineDCTAsWritten(s) == Err(PdfReadError) <==> ReadChunks(s.data, s.pos).Err?
  {
    if ReadChunks(s.data, s.pos).Ok? {
      ReadChunksFindsEI(s.data, s.pos);
    }
  }

  /** With no `EI` anywhere after the position the DCT scan reports
      truncation. */
  lemma {:induction false} DCTTruncated(data: seq<byte>, p: nat)
    requires p <= |data|
    requires !HasEI(data[p..])
    ensures ReadChunks(data, p) == Err(PdfReadError)
    decreases |data| - p
  {
    var e := Min(|data|, p + BUFFER_SIZE);
    if e > p {
      assert data[p..] == data[p..|data|];
      if HasEI(data[p..e]) {
        HasEIWiden(data, p, e, p, |data|);
      }
      if HasEI(data[e..]) {
        assert data[e..] == data[e..|data|];
        HasEIWiden(data, e, |data|, p, |data|);
      }
      DCTTruncated(data, e);
    }
  }

  /** Data that fits one read is returned up to its last `EI`. */
  lemma DCTOneChunk(data: seq<byte>, q: nat)
    requires |data| <= BUFFER_SIZE && OccursAt(data, EI, q)
    requires forall j :: q < j ==> !OccursAt(data, EI, j)
    ensures ExtractInlineDCT(Stream(data, 0)) == Ok(Extracted(data[..q], Stream(data, q)))
  {
    assert data[0..Min(|data|, BUFFER_SIZE)] == data;
    assert HasEI(data);
    assert ReadChunks(data, 0) == Ok(|data|);
    assert data[0..|data|] == data;
  }

  /** No `EI` starts inside a run of zero bytes ending in `E`. */
  lemma NoEIInZerosThenE(first: seq<byte>)
    requires |first| >= 1 && first[|first| - 1] == 69
    requires forall k :: 0 <= k < |first| - 1 ==> first[k] == 0
    ensures !HasEI(first)
  {
    forall k | 0 <= k < |first|
      ensures !OccursAt(first, EI, k)
    {
      if k + 2 <= |first| {
        assert first[k..k + 2][0] == first[k];
      }
    }
  }

  /** An `EI` straddling the 8192-byte read boundary is missed: with `E` as
      the last byte of the first read and `I` the first of the second, the
      scan runs off the end. */
  lemma DCTStraddleMissed()
    ensures ExtractInlineDCT(Stream(Filters.Fill(0, 8191) + EI, 0)) == Err(PdfReadError)
  {
    var data := Filters.Fill(0, 8191) + EI;
    var first := data[0..8192];
    assert forall k :: 0 <= k < 8191 ==> first[k] == 0;
    NoEIInZerosThenE(first);
    var second := data[8192..8193];
    assert second == [73];
    assert !HasEI(second);
    assert data[8193..Min(|data|, 8193 + BUFFER_SIZE)] == [];
    assert ReadChunks(data, 8193) == Err(PdfReadError);
    assert ReadChunks(data, 8192) == Err(PdfReadError);
  }

  /** As written `abEI` raises NameError at the seek; corrected it yields
      `ab`. */
  lemma DCTCounterexample()
    ensures ExtractInlineDCTAsWritten(Stream([97, 98, 69, 73], 0)) == Err(NameError)
    ensures ExtractInlineDCT(Stream([97, 98, 69, 73], 0)) == Ok(Extracted([97, 98], Stream([97, 98, 69, 73], 2)))
  {
    var data: seq<byte> := [97, 98, 69, 73];
    assert data[2..4] == EI;
    assert OccursAt(data, EI, 2);
    DCTOneChunk(data, 2);
    assert data[..2] == [97, 98];
    DCTFailsOnlyWhenTruncated(Stream(data, 0));
  }
}
