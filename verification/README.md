# pypdf core in Dafny

A model of the core of pypdf, a pure-Python PDF library, in seven parts:

- the stream filters (run-length, ASCII hex, ASCII85, LZW, Flate with
  TIFF/PNG predictors, and the filter chain `decode_stream_data`), the byte
  stream helpers of `_utils.py` with the `Version` comparison, and the
  inline-image data scanners;
- page labels with their number-tree array, page ranges and their
  command-line grouping, the user-access permission flags, the field
  dictionary attribute list of `constants.py`, the colour-space to
  image-mode mapping, and the fallback crypt providers (the identity cipher
  and the RC4 key schedule);
- the layout-mode text extraction: the `Font` width maps and word widths,
  the text state stack (`TextStateManager`, `TextStateParams`), and the
  fixed-width page walk that turns text operations into lines of text;
  with them `Transformation` (the affine matrices of the content stream)
  and `RectangleObject`;
- the generic data structures: dictionary item access with its `None`
  rejection, `/Parent` inheritance, deep `clone`, `ContentStream`
  concatenation and `Destination` shaping;
- the page-tree and outline edits: `TreeObject` removal and the deletion
  of a page through the document's `_VirtualList`;
- the reader's loader checks (the `%PDF-` header, the `%%EOF` marker, the
  cross-reference probe), page lookup by number and by object number, and
  the two AcroForm top-name edits;
- the writer's cross-reference table, the page-layout setter, the
  bookkeeping of `add_outline_item`, and how `merge` plans the pages it
  inserts; and the font information that `_cmap.py` derives for text
  extraction (encoding, space width).

Every operation is a pure function or a lemma over immutable values:

- a byte stream is a `Stream(data, pos)` value, and each reading helper
  returns what it read together with the moved stream;
- PDF objects are the `Obj` datatype of `pdf_objects.dfy`, with indirect
  references resolved through an `Arena` (the document's object table);
  an edit of a dictionary in place is a new arena;
- Python exceptions are the `Exc` values of a `Result`, so every error path
  of the source is a value the contracts talk about; a loop the source
  could run forever on a cyclic structure takes a `fuel` bound, and `None`
  stands for running out.

Modules follow the source files: `PyBase` and `PyText` (Python built-ins the
code leans on), `PdfObjects`, `Filters` and `Lzw` (`pypdf/filters.py`),
`Utils` (`pypdf/_utils.py`), `ImageInline`
(`pypdf/generic/_image_inline.py`), `PageLabels` (`pypdf/_page_labels.py`),
`PageRanges` (`pypdf/pagerange.py`), `Permissions` and `FieldAttributes`
(`pypdf/constants.py`), `ImageMode` (`pypdf/_xobj_image_helpers.py`),
`Crypt` (`pypdf/_crypt_providers/_base.py` and `_fallback.py`), `LayoutFont`,
`TextState` and `FixedWidth` (`pypdf/_text_extraction/_layout_mode/`),
`Transformations` and `VirtualLists` (`pypdf/_page.py`), `Rectangles`
(`pypdf/generic/_rectangle.py`), `DataStructures` and `TreeObjects`
(`pypdf/generic/_data_structures.py`), `CMap` (`pypdf/_cmap.py`), `Reader`
(`pypdf/_reader.py`) and `Writer` (`pypdf/_writer.py`).

Where the code as written cannot do what it evidently means to (a name that
is never imported, a `bytes` row assigned in place, a linked list left
half-linked), the model keeps the as-written behaviour as its own member,
shows the failing input in a lemma, and defines the corrected behaviour next
to it; the rest of the model uses the corrected one.  These are listed under
"Findings".  The fixed-width walk, whose as-written and corrected behaviour
differ in one call, takes the choice as a switch of its context (`passText`).
One quirk is kept as written and only exhibited: a `Q` that pops the last
frame of the text state leaves an empty map, so the next effective transform
raises KeyError (`TextState.EffectiveDefined`).

## Model

| member | source | states |
|---|---|---|
| Filters.RunLengthDecode | pypdf/filters.py:191-206 | the only failure the decoder has is PdfStreamError (its decoding rules are stated by the lemmas below) |
| Filters.RunLengthDecodeBound | pypdf/filters.py:191-206 | the decoded output is at most 64 times the input length (a two-byte repeat run yields 128 bytes) |
| Filters.RunLengthRoundTrip | pypdf/filters.py:191-206 | decoding an encoder's runs, ended by the EOD byte 128, yields the runs' expansion whatever follows EOD |
| Filters.RunLengthDecodeRuns | pypdf/filters.py:194-203 | decoding encoded runs followed by any tail is the runs' expansion in front of the tail's decode |
| Filters.RunLengthMissingRepeatByte | pypdf/filters.py:201-206 | a repeat header as the very last byte raises PdfStreamError |
| Filters.RunLengthShortLiteral | pypdf/filters.py:198-200 | a literal run cut short by the end of the data is silently truncated, not an error |
| Filters.ASCIIHexDecode | pypdf/filters.py:146-160 | every failure (non-ASCII input, a byte `bytes.fromhex` rejects) surfaces as PdfStreamError |
| Filters.ASCIIHexRoundTrip | pypdf/filters.py:146-160 | the upper-case two-digit hex of any bytes, with any number of closing '>', decodes back to those bytes |
| Filters.ASCIIHexOddPadding | pypdf/filters.py:154-155 | a lone trailing digit d decodes as the byte d0 |
| Filters.ASCIIHexRejectsNonHex | pypdf/filters.py:151-160 | a byte that is neither a hex digit, whitespace nor a removed character makes the decode fail |
| Filters.SubDecodedOfEncode | pypdf/filters.py:87-88 | undoing the Sub predictor inverts Sub encoding, byte arithmetic modulo 256 |
| Filters.SubUndoMeaning | pypdf/filters.py:100-101 | the corrected in-place Sub loop computes the reference Sub decoding of a row |
| Filters.TiffRoundTrip | pypdf/filters.py:82-90 | the corrected TIFF predictor 2 undoes TIFF encoding row by row, the last row possibly short |
| Filters.PngSubRoundTrip | pypdf/filters.py:91-104 | the corrected PNG predictor undoes rows stored with filter type 1 (Sub), each row a type byte plus up to `row_size - 1` bytes |
| Filters.PngUnknownTypeDropped | pypdf/filters.py:97-103 | a PNG row whose filter type is neither 0 nor 1 vanishes from the output |
| Filters.DecodePredictor | pypdf/filters.py:79-106 | a predictor other than 2 (TIFF) or 10..15 (PNG) is PdfReadError |
| Filters.FlateDecode | pypdf/filters.py:49-76 | failed inflation is PdfReadError; absent or falsy parameters return the inflated data unchanged; the raw /Predictor decides: 1 (integer or real) returns the data, an unsupported number is PdfReadError, and a value that is no number TypeError; TIFF-predicted rows are undone by the corrected predictor (the `pypdf/filters.py:86-88` row under "## Findings"), where the `bytes` rows as written raise TypeError |
| Filters.PredictorKindOf | pypdf/filters.py:69-75 | the /Predictor value is classified as Python compares it: 1, 2 and 10..15 match as integers or as reals of the same value, and a value that is no number cannot be ordered |
| Filters.FlateRawPredictor | pypdf/filters.py:69-75 | the predictor is dispatched on its raw value: `/Predictor 3` is PdfReadError whatever /Columns holds, a real `/Predictor 2.0` decodes as the integer 2, and a name raises TypeError |
| Filters.FlateSameParms | pypdf/filters.py:69-75 | the result depends only on the kind of predictor and on the /Columns, /Colors and /BitsPerComponent entries |
| Filters.FlateNoPredictor | pypdf/filters.py:69-76 | inflated data with no parameters, or with /Predictor 1, comes back unchanged |
| Filters.FlateParmsNotDict | pypdf/filters.py:69-70 | truthy parameters that are not a dictionary raise AttributeError at `.get` |
| Filters.FlateTiffRoundTrip | pypdf/filters.py:69-90 | FlateDecode undoes a TIFF-predicted image whose inflated rows were TIFF-encoded |
| Filters.ASCII85Decode | pypdf/filters.py:327-335 | whitespace removed, one pair of `<~`/`~>` delimiters stripped when both are present, the body handed to base-85 decoding |
| Filters.ASCII85Delimited | pypdf/filters.py:331-335 | a whitespace-free body wrapped in delimiters reaches base-85 decoding unchanged |
| Filters.ASCII85Undelimited | pypdf/filters.py:331-335 | without delimiters the body is the data minus spaces, LFs and CRs |
| Filters.FilterList | pypdf/filters.py:383-394 | /Filter normalised: a name becomes a one-element list, null no filters; every failure is PdfReadError; an absent /Filter fails as written and is empty when corrected |
| Filters.ParmsList | pypdf/filters.py:396-405 | /DecodeParms normalised: a dictionary becomes a one-element list, null none; every failure is PdfReadError; an absent entry fails as written and is empty when corrected |
| Filters.DecodeStreamData | pypdf/filters.py:365-427 | a stream with neither /Filter nor /DecodeParms comes back as stored (corrected defaults) |
| Filters.DecodeOne | pypdf/filters.py:410-425 | an unknown filter raises NotImplementedError; LZW is the only filter that yields a `str`; a `str` fed to Flate raises TypeError, to run-length TypeError unless it is empty, and to the hex or ASCII85 decoder ValueError when it holds a code point above 127 |
| Filters.ApplyStep | pypdf/filters.py:410-418 | filter `i` of the chain gets `/DecodeParms[i]` when the list is that long and None otherwise, and its output feeds filter `i + 1` |
| Filters.DecodeParmsPaired | pypdf/filters.py:383-418 | with a /Filter array and a /DecodeParms array of direct objects, both the code as written and the corrected defaults run the chain with the filters and parameters paired by position |
| Filters.DictParmsFirstOnly | pypdf/filters.py:404-418 | a single /DecodeParms dictionary is given to the first filter only; the second filter gets None |
| Filters.DecodeStreamDataAsWritten | pypdf/filters.py:383-407 | as written, a stream without /Filter or without /DecodeParms raises PdfReadError |
| Filters.LzwStrInChain | pypdf/filters.py:410-420 | the `str` that LZW decoding yields makes a following non-empty run-length stage or a Flate stage raise TypeError, while the hex decoder reads an ASCII `str` as it reads bytes |
| Filters.ApplyFiltersAppend | pypdf/filters.py:408-427 | a chain free of image filters followed by another chain decodes as the first chain then the second |
| Filters.ImageFilterStops | pypdf/filters.py:421-423 | an image filter returns the data decoded so far, whatever follows it |
| Filters.UnknownFilterRaises | pypdf/filters.py:424-425 | a filter name the chain does not know raises NotImplementedError |
| Filters.HexRunLengthChain | pypdf/filters.py:408-427 | a run-length stream stored in hex decodes through `[/ASCIIHexDecode /RunLengthDecode]` to its runs' bytes |
| Filters.SingleFilter | pypdf/filters.py:408-427 | a stream with one filter name and no parameters decodes as that filter alone |
| Lzw.GetNextCode | pypdf/filters.py:263-281 | reads `width` bits from bit `pos` a byte-aligned chunk at a time; the code is the big-endian value of those bits and the position moves past them; running out of bytes is PdfReadError |
| Lzw.ReaderAgrees | pypdf/filters.py:263-281 | the bit-string view of a code read agrees with the chunked reader |
| Lzw.InitialTable | pypdf/filters.py:218-227 | slots 0..255 hold the single bytes, the rest are empty, size 258, width 9 bits |
| Lzw.ResetTable | pypdf/filters.py:293-295 | a reset puts size and width back to 258 and 9 and keeps every slot's string |
| Lzw.AddCode | pypdf/filters.py:283-291 | the string goes into the next free slot, the width grows at sizes 512, 1024 and 2048, writing past slot 4095 is IndexError |
| Lzw.Decode | pypdf/filters.py:229-261 | the decoder loop, step by step over the bytes, computes exactly the as-written decode of the bit string |
| Lzw.DecodeLiterals | pypdf/filters.py:244-260 | a run of literal codes at the growing width decodes to its bytes, whatever follows STOP |
| Lzw.LiteralStreamRoundTrip | pypdf/filters.py:229-261 | the corrected decoder reads back a literal-only stream (CLEAR, the bytes, STOP) |
| Lzw.CorrectedAgrees | pypdf/filters.py:241-243 | when the stream does not open with CLEAR the corrected decoder and the code as written agree |
| Lzw.LeadingClearIgnored | pypdf/filters.py:248-252 | corrected, a leading CLEAR changes nothing |
| Utils.ReadUntilWhitespace | pypdf/_utils.py:24-43 | the bytes read are a whitespace-free slice starting at the position, at most `maxchars` long; reading stops at `maxchars`, at the end, or after consuming one whitespace byte |
| Utils.ReadNonWhitespace | pypdf/_utils.py:45-60 | the result is empty exactly when only whitespace remains; otherwise it is the first non-whitespace byte and the stream is just past it |
| Utils.SkipOverWhitespaceCorrected | pypdf/_utils.py:62-79 | reports whether the first byte was whitespace and leaves the stream on the first non-whitespace byte, or at the end |
| Utils.SkipThenReadCorrected | pypdf/_utils.py:62-79 | after skipping whitespace, reading a non-whitespace byte takes the byte the skip stopped on |
| Utils.WhitespaceOnlyIffEmpty | pypdf/_utils.py:81-91 | as written, `check_if_whitespace_only` is true only of empty input |
| Utils.WhitespaceOnlyMeansNothingToRead | pypdf/_utils.py:45-91 | corrected, a rest that is whitespace only is exactly one from which no non-whitespace byte can be read |
| Utils.ReadBlockBackwards | pypdf/_utils.py:114-133 | reads the `to_read` bytes before the position, or all of them when fewer, and leaves the stream at the start of the block |
| Utils.ReadBlockBackwardsThenForwards | pypdf/_utils.py:114-133 | the block read backwards is the data between the new and the old position |
| Utils.ReadPreviousLine | pypdf/_utils.py:135-163 | the line returned holds no CR/LF; it stops after an EOL that follows a non-empty line, skipping EOL runs before the line |
| Utils.ReadPreviousLineCorrected | pypdf/_utils.py:135-163 | the same line, with the stream at the start of the data when no EOL precedes it |
| Utils.ParseVersion | pypdf/_utils.py:369-378 | one component per '.'-separated part: leading digits as the number and the rest as suffix, or 0 and the whole part when there are no leading digits |
| Utils.Lt | pypdf/_utils.py:352-367 | comparing with a non-Version is ValueError; otherwise component-wise lexicographic order |
| Utils.Eq | pypdf/_utils.py:347-350 | equal exactly when the other is a Version with the same components |
| Utils.VersionTrichotomy | pypdf/_utils.py:352-367 | version order is a strict total order: irreflexive, asymmetric, and any two distinct versions compare |
| Utils.VersionTransitive | pypdf/_utils.py:352-367 | version order is transitive |
| Utils.NumericVersion | pypdf/_utils.py:369-378 | a version written as dot-joined decimals parses back to those numbers with empty suffixes |
| ImageInline.ScanAHx | pypdf/generic/_image_inline.py:13-26 | a scan that succeeds ends just past a `>>` and collects no more bytes than it passed over |
| ImageInline.ScanAHxFirst | pypdf/generic/_image_inline.py:13-26 | with no `>` before the first `>>`, the scan collects exactly the non-whitespace bytes before it and ends just past it |
| ImageInline.ScanAHxPair | pypdf/generic/_image_inline.py:16-22 | a `>` followed by another byte keeps both bytes, and the scan goes on to the next `>>` dropping whitespace |
| ImageInline.ScanAHxSkipsWhitespace | pypdf/generic/_image_inline.py:23-24 | a whitespace byte is skipped without changing what the scan finds |
| ImageInline.ScanAHxTerminated | pypdf/generic/_image_inline.py:13-26 | hex digits followed by `>>` are collected as they are, and the scan ends just past `>>` |
| ImageInline.ExtractInlineAHx | pypdf/generic/_image_inline.py:8-29 | failures are ValueError; on success the stream stands just past a `>>` |
| ImageInline.ExtractInlineAHxRoundTrip | pypdf/generic/_image_inline.py:8-29 | the hex of any bytes followed by `>>` reads back to those bytes, with the stream just past `>>` |
| ImageInline.ScanA85 | pypdf/generic/_image_inline.py:36-46 | a scan that succeeds ends just past a `~>` and collects one byte for every byte it passed before that marker |
| ImageInline.ScanA85First | pypdf/generic/_image_inline.py:36-46 | with no `~` before the first `~>`, the scan collects exactly the bytes before it and ends just past it |
| ImageInline.ScanA85Pairing | pypdf/generic/_image_inline.py:39-44 | a `~` swallows the byte after it, so `~~>` is not an end marker |
| ImageInline.ExtractInlineA85 | pypdf/generic/_image_inline.py:31-50 | corrected: the bytes before `~>` go through ASCII85Decode and the stream ends after `~>` |
| ImageInline.ScanEI | pypdf/generic/_image_inline.py:101-112 | the bytes collected are exactly those before the `EI` the scan stops at |
| ImageInline.ScanEIFirst | pypdf/generic/_image_inline.py:101-112 | with no `E` before the first `EI`, the scan collects exactly the bytes before it and stops on the `E` |
| ImageInline.ScanEIPairing | pypdf/generic/_image_inline.py:104-110 | an `E` swallows the byte after it, so in `EEIEI` the first `EI` is passed over |
| ImageInline.ExtractInlineDefault | pypdf/generic/_image_inline.py:96-113 | corrected: the bytes before `EI`, with the stream moved back onto the `E` |
| ImageInline.ExtractInlineRL | pypdf/generic/_image_inline.py:52-72 | corrected: the default scan's bytes, run-length decoded |
| ImageInline.ExtractInlineRLRoundTrip | pypdf/generic/_image_inline.py:52-72 | run-length encoded runs with no `E` byte, ended by EOD and `EI`, decode to the runs' expansion |
| ImageInline.RLCounterexample | pypdf/generic/_image_inline.py:52-72 | as written the run-length extractor raises NameError at the seek on `00 61 80 EI`; corrected it yields `a` and leaves the stream on the `E` |
| ImageInline.ExtractInlineDCT | pypdf/generic/_image_inline.py:74-94 | corrected: the data up to the last `EI` of the chunks read, the stream moved onto that `E`; running out of data is PdfReadError |
| ImageInline.DCTFailsOnlyWhenTruncated | pypdf/generic/_image_inline.py:80-91 | the DCT scan fails exactly when the 8192-byte reads run out before one contains `EI` |
| ImageInline.DCTOneChunk | pypdf/generic/_image_inline.py:80-94 | data that fits one read is returned up to its last `EI` |
| ImageInline.DCTStraddleMissed | pypdf/generic/_image_inline.py:80-86 | an `EI` split across the 8192-byte read boundary is not seen |
| PageLabels.RomanFrom | pypdf/_page_labels.py:111-121 | the greedy numeral is upper case and its first digit is worth no more than the table entry it started from |
| PageLabels.RomanRoundTrip | pypdf/_page_labels.py:111-121 | reading the numeral back with subtractive pairs gives the number, 0 for numbers below 1 |
| PageLabels.RomanInjective | pypdf/_page_labels.py:111-121 | different positive numbers get different numerals |
| PageLabels.RomanExamples | pypdf/_page_labels.py:111-121 | 4 is IV, 9 is IX, 14 is XIV, 0 and negatives are empty |
| PageLabels.ToAlpha | pypdf/_page_labels.py:123-128 | the letters are upper case |
| PageLabels.AlphaRoundTrip | pypdf/_page_labels.py:123-128 | reading the letters back in bijective base 26 gives the number |
| PageLabels.AlphaInverse | pypdf/_page_labels.py:123-128 | every upper-case letter string is the rendering of its bijective base-26 value |
| PageLabels.AlphaExamples | pypdf/_page_labels.py:123-128 | 1 is A, 26 is Z, 27 is AA, 52 is AZ, 53 is BA, 0 is empty |
| PageLabels.KeyAbove | pypdf/_page_labels.py:142 | a key compares with an integer exactly when it is a number, integer or real, and then by value; any other key is TypeError |
| PageLabels.InsertPos | pypdf/_page_labels.py:141-146 | the insertion point is the end, or a key position whose key is a number greater than the new key; a failure is TypeError |
| PageLabels.InsertPosSound | pypdf/_page_labels.py:141-146 | every key the loop passes is a number at most the new key, and the loop fails exactly when a key that is no number comes before a greater one |
| PageLabels.NumsInsert | pypdf/_page_labels.py:130-146 | the pair goes in at a point where every earlier key is a number at most the new key and the next one is a number greater than it; a failure is TypeError |
| PageLabels.InsertKeepsSorted | pypdf/_page_labels.py:130-146 | inserting into a sorted number tree keeps it sorted and well formed, and an equal key already present is kept, not replaced |
| PageLabels.ScanBelow | pypdf/_page_labels.py:160-164 | the scan passes keys that are numbers below the bound and stops at the end or at a number at or above it; it fails with TypeError exactly when a key that is no number comes first |
| PageLabels.NumsClearRange | pypdf/_page_labels.py:148-165 | the result is the array with one contiguous stretch removed, and everything up to the pair after the first item equal in value to `key` (an integer or a real number) is kept; a failure is TypeError |
| PageLabels.ClearRangeInTree | pypdf/_page_labels.py:159-165 | the removed stretch starts after the pair for `key` (at the front when `key` is absent), holds only keys below the bound and ends at the first key at or above it |
| PageLabels.ClearRangeKeepsSorted | pypdf/_page_labels.py:148-165 | clearing keeps a sorted number tree sorted and well formed |
| PageLabels.NextPos | pypdf/_page_labels.py:177-180 | the first key that is a number greater than `key`, past keys that are numbers not above it, with its value; a key with no value after it is IndexError, any other failure TypeError |
| PageLabels.NextPosFails | pypdf/_page_labels.py:177-178 | the loop fails with TypeError exactly when a key that is no number comes before a greater one |
| PageLabels.RealKeysCompare | pypdf/_page_labels.py:141-180 | a real key compares by value in all three loops (kept before a greater inserted key, cleared below the bound, found after a smaller key) and in the `key in nums` test (clearing after key 2 starts past a `2.0` pair), and a name key is TypeError |
| PageLabels.NextIsSmallestGreater | pypdf/_page_labels.py:167-180 | in a sorted tree the next entry has the smallest key above `key`, and there is none exactly when no key is above it |
| PageLabels.ClearThenNext | pypdf/_page_labels.py:148-180 | after clearing up to a bound, the entry after `key` is the first entry at or above the bound |
| PageLabels.FindLabelPos | pypdf/_page_labels.py:83-87 | the loop stops at the first key above the page index and keeps the last pair before it |
| PageLabels.IndexToLabel | pypdf/_page_labels.py:65-79 | without /PageLabels the label is `index + 1` in decimal; a /PageLabels that is not a dictionary is TypeError, one without /Nums KeyError |
| PageLabels.LabelObject | pypdf/_page_labels.py:87 | `reader.get_object` resolves a reference through the object table and reads an integer `n` as the reference `n 0 R` |
| PageLabels.LabelFromNums | pypdf/_page_labels.py:79-90 | the loop over whatever /Nums holds: an object without a length is TypeError; an empty one leaves the label `index + 1`; a non-empty dictionary is KeyError and a non-empty string TypeError; a byte string whose first byte is above the index gives `index + 1`, and one of a single byte not above it IndexError |
| PageLabels.LabelNumsNotArray | pypdf/_page_labels.py:79-87 | a /Nums entry that is no array labels every page `index + 1` when empty, and is KeyError as a non-empty dictionary and TypeError as a non-empty string or an object without a length |
| PageLabels.LabelFromBytes | pypdf/_page_labels.py:79-96 | a byte string as /Nums is read as its bytes: the first byte is the first key and the next byte names the label dictionary by object number |
| PageLabels.LabelBeforeFirstKey | pypdf/_page_labels.py:76-90 | with a sorted tree, a page before the first key (or an empty /Nums) is labelled `index + 1` |
| PageLabels.LabelFromEntry | pypdf/_page_labels.py:79-109 | with a sorted tree, the page is rendered from the dictionary of the last key not above it, counting from that key; a value that is not a dictionary is AttributeError |
| PageLabels.LabelFromGreatestKey | pypdf/_page_labels.py:79-90 | in a sorted tree the label dictionary is that of the greatest key not above the page index; with none the page is numbered `index + 1` |
| PageLabels.MissingStyleIgnoresPrefix | pypdf/_page_labels.py:92-109 | a label dictionary without /S gives plain `index + 1`, ignoring /P |
| PageLabels.DecimalLabelsDistinct | pypdf/_page_labels.py:96-99 | within one decimal range different pages get different labels |
| PageLabels.RomanLabelsDistinct | pypdf/_page_labels.py:96-101 | within one upper-case Roman range different pages numbered from 1 get different labels |
| PageLabels.AlphaLabelsDistinct | pypdf/_page_labels.py:96-105 | within one upper-case letter range different pages numbered from 1 get different labels |
| PageLabels.LabelExampleRoman | pypdf/_page_labels.py:65-109 | with `/Nums [0 {/S /r} 4 {/S /D}]` page 0 is "i" |
| PageLabels.LabelExampleDecimal | pypdf/_page_labels.py:65-109 | with `/Nums [0 {/S /r} 4 {/S /D}]` pages 4 and 5 are "1" and "2" |
| PageRanges.ParseStr | pypdf/pagerange.py:61-69 | a string is accepted exactly when it matches the page-range pattern, and any other string raises ParseError; with two or more fields the stop is present exactly when the second field is not empty, and with fewer than three there is no step |
| PageRanges.New | pypdf/pagerange.py:55-69 | construction succeeds exactly for the inputs `valid` accepts (so `PageRange("")` raises ParseError); a slice is taken as it is, a PageRange is copied, and anything else raises ParseError |
| PageRanges.ParseAll | pypdf/pagerange.py:61-63 | `":"` and `"::"` parse to `PAGE_RANGE_ALL`, while `""` and a lone newline match no page range and raise ParseError (the pattern of line 12; `PAGE_RANGE_ALL` is line 140) |
| PageRanges.TrailingNewline | pypdf/pagerange.py:61 | a final newline does not change what a string parses to |
| PageRanges.ParseLone | pypdf/pagerange.py:64-67 | a lone integer `k` other than -1 parses to `slice(k, k + 1)` |
| PageRanges.ParseMinusOne | pypdf/pagerange.py:64-67 | `"-1"` parses to `slice(-1, None)` |
| PageRanges.ParseFields | pypdf/pagerange.py:69 | start, stop and an optional step printed as colon-separated fields parse back to the same bounds |
| PageRanges.StrRoundTrip | pypdf/pagerange.py:92-102 | corrected: the printed form of every page range parses back to that range |
| PageRanges.StrAsWrittenRoundTrip | pypdf/pagerange.py:92-102 | as written, the printed form parses back to the range for every slice except `slice(-1, 0)` |
| PageRanges.MinusOnePages | pypdf/pagerange.py:108-121 | in a document of at least one page `slice(-1, 0)` selects no page and `slice(-1, None)` selects the last |
| PageRanges.StrAsWrittenCounterexample | pypdf/pagerange.py:92-102 | `PageRange("-1:0")` prints as `-1`, which parses to the last page instead of the empty range; the corrected form prints `-1:0` |
| PageRanges.StrChars | pypdf/pagerange.py:92-106 | the printed form holds only digits, `-` and `:` |
| PageRanges.Repr | pypdf/pagerange.py:104-106 | the repr is `PageRange('...')` around a string that parses back to the range |
| PageRanges.Indices | pypdf/pagerange.py:108-121 | `slice.indices(n)`: ValueError exactly for a negative length or a zero step; the step defaults to 1; with a positive step start and stop lie in `0..n`, with a negative step in `-1..n-1`; a start inside the sequence is kept |
| PageRanges.PagesInBounds | pypdf/pagerange.py:108-121 | every page index a range selects lies in `0..n-1` |
| PageRanges.AllPages | pypdf/pagerange.py:140 | `PAGE_RANGE_ALL` selects pages `0..n-1` in order |
| PageRanges.SinglePage | pypdf/pagerange.py:64-67 | `PageRange(str(k))` selects page `k` alone, and `PageRange("-1")` the last page |
| PageRanges.Add | pypdf/pagerange.py:128-139 | a step in either range raises ValueError; the sum exists exactly for stride-free ranges with all four bounds whose spans do not leave a gap, and then spans the smaller start to the larger stop; a gap between present bounds is ValueError, other failures TypeError |
| PageRanges.AddUnion | pypdf/pagerange.py:128-139 | with non-negative bounds the sum selects exactly the pages either range selects |
| PageRanges.AddNegative | pypdf/pagerange.py:133-139 | with a negative bound the sum is taken on the raw numbers: `0:5` plus `-1:6` is `-1:6`, which selects nothing from ten pages |
| PageRanges.ScanAsWritten | pypdf/pagerange.py:154-179 | the loop as written fails only with ValueError or TypeError |
| PageRanges.Scan | pypdf/pagerange.py:154-179 | the corrected loop fails only with ValueError or TypeError |
| PageRanges.ScanAsWrittenGroups | pypdf/pagerange.py:154-179 | the loop as written equals the reference grouping of file names and ranges, with `PAGE_RANGE_ALL` after every file's ranges |
| PageRanges.ScanGroups | pypdf/pagerange.py:154-179 | the corrected loop equals the reference grouping, with `PAGE_RANGE_ALL` only for a file that has no ranges |
| PageRanges.ParseFilenamePageRangesAsWritten | pypdf/pagerange.py:142-179 | as written, each file name is paired with its ranges and then with `PAGE_RANGE_ALL` |
| PageRanges.ParseFilenamePageRanges | pypdf/pagerange.py:142-179 | corrected, as the docstring describes: each file name is paired with the ranges that follow it, or with `PAGE_RANGE_ALL` when none does |
| PageRanges.EmptyArgIsFilename | pypdf/pagerange.py:157-168 | the empty string is no page range, so it is taken for a file name, and `[""]` gives `[("", all pages)]` both as written and corrected |
| PageRanges.GroupFiles | pypdf/pagerange.py:157-168 | the groups follow the file-name arguments one to one and in order |
| PageRanges.GroupsAfterFile | pypdf/pagerange.py:157-174 | once a file name has been seen, the arguments fail exactly when one has an unexpected type, and then with TypeError |
| PageRanges.GroupsLeading | pypdf/pagerange.py:157-174 | after leading `None`s, a page range raises ValueError, an unexpected type raises TypeError, and a file name opens the first group |
| PageRanges.GroupsAllNone | pypdf/pagerange.py:157-179 | arguments that are all `None` give no pairs |
| PageRanges.ExampleArgs | pypdf/pagerange.py:160-164 | `"a.pdf"` is taken for a file name and `"0:2"` for the range of pages 0 and 1 |
| PageRanges.ExampleGroups | pypdf/pagerange.py:157-168 | `["a.pdf", "0:2"]` forms one group of the file and its range |
| PageRanges.ParseFilenamePageRangesCounterexample | pypdf/pagerange.py:160-177 | for `["a.pdf", "0:2"]` the loop as written also pairs `a.pdf` with every page; the corrected loop gives only the range |
| Permissions.HighMembersReserved | pypdf/constants.py:66-90 | every member from R13 to R32 has a reserved name |
| Permissions.UnreservedMembers | pypdf/constants.py:54-90 | the members with unreserved names are exactly the eight grantable permissions, in declaration order |
| Permissions.ActiveIsReserved | pypdf/constants.py:87-95 | every name `_is_active` accepts is a reserved name |
| Permissions.ToDict | pypdf/constants.py:97-99 | the dictionary has the eight grantable names in declaration order, each mapped to whether its bit is set |
| Permissions.LookupNone | pypdf/constants.py:107 | a name lookup fails exactly when no member has that name |
| Permissions.LookupGrantable | pypdf/constants.py:54-107 | each grantable name looks up to its own bit |
| Permissions.LookupMissing | pypdf/constants.py:54-107 | a name that does not start with `R` and is none of the twelve low members is unknown |
| Permissions.FromDictFrom | pypdf/constants.py:104-108 | the loop only adds bits, and its only failure is KeyError |
| Permissions.FromDictFromError | pypdf/constants.py:104-108 | the loop fails exactly when some entry set to true has an unknown name; false entries are never looked up |
| Permissions.FromDict | pypdf/constants.py:101-108 | `from_dict` raises KeyError exactly when a true entry names no member |
| Permissions.FromGrantDict | pypdf/constants.py:101-108 | from a dictionary of the grantable names, exactly the bits of the true entries are set |
| Permissions.ToDictIsGrantDict | pypdf/constants.py:97-99 | `to_dict(p)` is the grantable-name dictionary of the bits of `p` |
| Permissions.FromToDict | pypdf/constants.py:97-108 | `from_dict(to_dict(p))` is `p` masked to the eight grantable bits |
| Permissions.ToFromDict | pypdf/constants.py:97-108 | `to_dict(from_dict(d))` gives back a dictionary `d` of the grantable names |
| Permissions.FromDictReserved | pypdf/constants.py:101-108 | reserved names are accepted: `{R1: true, PRINT: true}` sets bits 0 and 2 |
| Permissions.FromDictUnknown | pypdf/constants.py:105-107 | an unknown name set to false is ignored, and set to true raises KeyError |
| FieldAttributes.PublicStrsOfClass | pypdf/constants.py:318-398 | the public `str` attributes of the class are exactly the eleven field entries, in definition order |
| FieldAttributes.LStrip | pypdf/constants.py:414 | `lstrip` removes exactly the leading run of the character |
| FieldAttributes.EntriesSlashed | pypdf/constants.py:325-335 | each field entry's value is its own name behind a `/` |
| FieldAttributes.AttributesAsWrittenAreNames | pypdf/constants.py:385-414 | as written, `attributes()` lists the Python names of the entries, and `attributes_dict()` maps each name to itself |
| FieldAttributes.AttributesDictStripsSlash | pypdf/constants.py:385-414 | corrected, `attributes()` lists the entry keys in order and `attributes_dict()` maps each key to its name without the `/` |
| FieldAttributes.AttributesDiffer | pypdf/constants.py:398 | the first attribute is `FT` as written and `/FT` as documented |
| ImageMode.GetImageMode | pypdf/_xobj_image_helpers.py:24-53 | past depth 10 the previous mode comes back uninverted; only CMYK is ever inverted; the mode is the previous one, L, RGB or CMYK; a colour space that is neither a device space nor a wrapper falls to the component table (1 L, 3 RGB, 4 CMYK inverted, else the previous mode) |
| ImageMode.DeviceSpaces | pypdf/_xobj_image_helpers.py:33-39 | within the depth bound `/DeviceRGB` is RGB, `/DeviceCMYK` is inverted CMYK and `/DeviceGray` is L, whatever the component count |
| ImageMode.WrapDepth | pypdf/_xobj_image_helpers.py:40-44 | looking through `n` `/ICCBased` or `/Indexed` arrays costs `n` levels: the inner colour space decides within the bound, and the previous mode comes back beyond it |
| ImageMode.NestingBound | pypdf/_xobj_image_helpers.py:22-44 | `/DeviceRGB` inside ten `/ICCBased` arrays is still RGB, and inside eleven the previous mode comes back |
| Crypt.NewBase | pypdf/_crypt_providers/_base.py:2-3 | a new base provider holds no key |
| Crypt.NewIdentity | pypdf/_crypt_providers/_base.py:14-16 | a new identity provider holds no key |
| Crypt.SetKey | pypdf/_crypt_providers/_base.py:11-12 | the key becomes the one given, and the provider's kind and state do not change |
| Crypt.Encrypt | pypdf/_crypt_providers/_base.py:5-19 | only the identity provider encrypts, and it returns its input; the base provider and the fallback RC4 provider raise NotImplementedError |
| Crypt.Decrypt | pypdf/_crypt_providers/_base.py:8-22 | only the identity provider decrypts, and it returns its input; the others raise NotImplementedError |
| Crypt.IdentityRoundTrip | pypdf/_crypt_providers/_base.py:14-22 | with the identity provider, decrypting what was encrypted gives the input back, with or without a key |
| Crypt.Identity256 | pypdf/_crypt_providers/_fallback.py:11 | the starting state holds each byte value at its own index |
| Crypt.SwapPermutes | pypdf/_crypt_providers/_fallback.py:15 | a swap keeps the multiset of state values |
| Crypt.ScheduleFromPermutes | pypdf/_crypt_providers/_fallback.py:11-15 | the key schedule keeps the multiset of state values |
| Crypt.PermutationHoldsEveryByte | pypdf/_crypt_providers/_fallback.py:11-15 | a permutation of 0..255 holds every byte value exactly once |
| Crypt.NewRC4 | pypdf/_crypt_providers/_fallback.py:8-15 | an empty key raises ZeroDivisionError, and only an empty key does; otherwise the key is stored as given and the state is a permutation of 0..255 that equals the recursive key schedule |
| CMap.ReplacementTable | pypdf/_cmap.py:77 | the unknown font's table maps exactly the codes 0..255, each to U+FFFD |
| CMap.Lookup | pypdf/_cmap.py:22 | a subscript succeeds exactly on a dictionary holding the key and yields the resolved value; a missing key is KeyError, a non-dictionary TypeError |
| CMap.EncodingOf | pypdf/_cmap.py:44-54 | without /Encoding the encoding is utf-8; a name is translated through the predefined CMap table, and any other name loses one leading slash |
| CMap.SpaceWidthOf | pypdf/_cmap.py:67-74 | unless /FirstChar, /LastChar and /Widths are all present, the given space width is kept; a failure is TypeError or KeyError |
| CMap.SpaceWidthHalves | pypdf/_cmap.py:67-74 | with integer bounds, the space width is the default when 32 lies outside them or beyond `len(/Widths)`; an object without a length is TypeError; a dictionary that reaches 32 is KeyError; otherwise it is half the item at character 32 when that is a number, and TypeError when it is not |
| CMap.SpaceWidthFromSequence | pypdf/_cmap.py:71-74 | a byte string as /Widths gives half the byte at character 32; a string long enough gives TypeError; a dictionary gives KeyError when long enough and the default otherwise |
| CMap.FromDict | pypdf/_cmap.py:30-76 | a non-dictionary is AttributeError; otherwise the result fails exactly when the encoding or the space width fails; the subtype defaults to "", and the character map is the parser's result, or empty when /ToUnicode is absent or its parsing fails |
| CMap.FontLookup | pypdf/_cmap.py:22 | a found font is the result of the three subscripts /Resources, /Font and the font name, each succeeding in turn |
| CMap.BuildCharMap | pypdf/_cmap.py:8-28 | a KeyError on the way to the font gives the unknown font with a null dictionary, any other lookup error propagates, and a found font gives its information together with its dictionary |
| Rectangles.New | pypdf/generic/_rectangle.py:18-20 | the constructor succeeds exactly on four numbers and raises AssertionError otherwise |
| Rectangles.CornersAgree | pypdf/generic/_rectangle.py:25-55 | the two left corners share their x, the two right corners theirs, the two lower corners their y and the two upper corners theirs |
| Rectangles.CornersRoundTrip | pypdf/generic/_rectangle.py:18-55 | the lower-left and upper-right corners give back the four numbers the rectangle was built from |
| Transformations.MultApply | pypdf/_page.py:92-104 | applying the product of two matrices to a point is applying the first, then the second |
| Transformations.MultIdentity | pypdf/_page.py:50-51 | the default matrix `(1, 0, 0, 1, 0, 0)` is neutral on both sides of the product |
| Transformations.ApplyDetermines | pypdf/_page.py:163-178 | two matrices that agree on the points (0,0), (1,0) and (0,1) are equal |
| Transformations.MultAssoc | pypdf/_page.py:92-104 | the product is associative |
| Transformations.Default | pypdf/_page.py:50-51 | the default transformation leaves every point where it is |
| Transformations.Expanded | pypdf/_page.py:53-61 | the 3×3 form has `(0, 0, 1)` as its last column |
| Transformations.CompressRoundTrip | pypdf/_page.py:53-74 | `compress` undoes `matrix`, and `matrix` undoes `compress` on every 3×3 matrix whose last column is `(0, 0, 1)` |
| Transformations.TransformComposes | pypdf/_page.py:76-178 | `apply_on` of `t1.transform(t2)` is `apply_on` of `t1`, then of `t2`; the default transformation is neutral on both sides |
| Transformations.TranslateShifts | pypdf/_page.py:106-118 | a translation moves every image by `(tx, ty)`, and two translations add up |
| Transformations.ScaleStretches | pypdf/_page.py:120-141 | scaling multiplies the coordinates of every image by the factors; with both factors absent the transformation is unchanged, and one absent factor takes the other's value |
| LayoutFont.Chr | pypdf/_text_extraction/_layout_mode/_font.py:29 | `chr(n)` succeeds exactly for code points 0..0x10FFFF and raises ValueError otherwise |
| LayoutFont.WidthKey | pypdf/_text_extraction/_layout_mode/_font.py:29 | the key of width `idx` is the encoding's character for `idx + first_char` when it has one; the key fails exactly when `chr(idx + first_char)` does |
| LayoutFont.WidthsPrefix | pypdf/_text_extraction/_layout_mode/_font.py:27-29 | the comprehension over `/Widths` succeeds exactly when every key does, and the last entry's key is in the map |
| LayoutFont.WidthsPrefixKeys | pypdf/_text_extraction/_layout_mode/_font.py:29 | the width map's keys are exactly the keys of the entries |
| LayoutFont.WidthsPrefixLastWins | pypdf/_text_extraction/_layout_mode/_font.py:29 | an entry whose key no later entry repeats keeps its own width in the map |
| LayoutFont.OrdMap | pypdf/_text_extraction/_layout_mode/_font.py:36 | `ord_map` succeeds exactly when every key of the character map is one character, and then maps each key's code to its value and holds no other code |
| LayoutFont.ZipWidthsKeys | pypdf/_text_extraction/_layout_mode/_font.py:45-48 | the `start [w…]` form adds exactly the characters of the mapped CIDs it covers |
| LayoutFont.ZipWidthsUntouched | pypdf/_text_extraction/_layout_mode/_font.py:45-48 | a key that no covered CID maps to keeps its width |
| LayoutFont.ZipWidthsAssigned | pypdf/_text_extraction/_layout_mode/_font.py:45-48 | a covered, mapped CID gets its own width unless a later covered CID maps to the same character |
| LayoutFont.FillRangeContents | pypdf/_text_extraction/_layout_mode/_font.py:49-52 | the `start stop w` form gives `w` to every mapped CID from start to stop inclusive and leaves every other key as it was |
| LayoutFont.WShapes | pypdf/_text_extraction/_layout_mode/_font.py:39-52 | a `/W` array of one `start [w…]` entry is the zip of its widths, and one of a single `start stop w` entry is the range fill |
| LayoutFont.Descendants | pypdf/_text_extraction/_layout_mode/_font.py:30-36 | no descendant fonts leave the width map alone, and with descendants a character map holding a key that is not one character is TypeError |
| LayoutFont.StandardFor | pypdf/_text_extraction/_layout_mode/_font.py:53-57 | the table found is the first whose name follows `/` at the start of `/BaseFont`; none is found exactly when no name matches; with any table to try, a byte string is TypeError and any other non-string AttributeError |
| LayoutFont.NewFont | pypdf/_text_extraction/_layout_mode/_font.py:26-57 | the font keeps the space width it was given, takes `/Widths` through the encoding table, and has an empty width map when it declares neither widths nor a base font |
| LayoutFont.DeclaredWidthsKept | pypdf/_text_extraction/_layout_mode/_font.py:27-29 | every declared width's key is in the font's width map, with that width when no later entry has the same key |
| LayoutFont.StandardFallback | pypdf/_text_extraction/_layout_mode/_font.py:53-57 | a font without declared widths takes the first standard table its base font matches, or none, and fails exactly when that lookup fails (TypeError for a byte-string base font, AttributeError for another non-string) |
| LayoutFont.WordWidth | pypdf/_text_extraction/_layout_mode/_font.py:59-61 | the empty word has width 0 |
| LayoutFont.WordWidthAdditive | pypdf/_text_extraction/_layout_mode/_font.py:59-61 | the width of a concatenation is the sum of the widths of its parts, and it exists exactly when both do |
| LayoutFont.WordWidthUnmapped | pypdf/_text_extraction/_layout_mode/_font.py:59-61 | a word of characters without a mapped width is as wide as its length times the space width |
| TextState.NewTransform | pypdf/_text_extraction/_layout_mode/_text_state_manager.py:109-120 | `new_transform` takes up to eight arguments, with defaults, the identity and no tags when none are given; the text and render tags are set exactly when the seventh and eighth arguments are truthy |
| TextState.Init | pypdf/_text_extraction/_layout_mode/_text_state_manager.py:30-40 | a new manager holds one untagged identity frame, a q depth of `[0]`, an empty q queue, Tz 100, the other parameters 0 and no font |
| TextState.SetStateParam | pypdf/_text_extraction/_layout_mode/_text_state_manager.py:42-64 | the value is a number or a list's first element; an empty list, and only that, is IndexError; Tc, Tw, Tz, TL and Ts set their own parameter and any other operator changes nothing |
| TextState.SetStateParamFrame | pypdf/_text_extraction/_layout_mode/_text_state_manager.py:55-64 | each of Tc, Tw, Tz, TL and Ts sets its own parameter, and any other operator changes nothing |
| TextState.SetFont | pypdf/_text_extraction/_layout_mode/_text_state_manager.py:66-75 | the font and its size are set and nothing else changes |
| TextState.AddCm | pypdf/_text_extraction/_layout_mode/_text_state_manager.py:148-152 | `cm` pushes one frame on the chain and changes nothing else; more than eight operands is TypeError |
| TextState.CompleteMatrix | pypdf/_text_extraction/_layout_mode/_text_state_manager.py:154-158 | two operands become the translation by them; any other operand list is kept |
| TextState.TaggedTransform | pypdf/_text_extraction/_layout_mode/_text_state_manager.py:160-172 | the completed operands give a text-tagged frame carrying the requested render tag |
| TextState.AddTm | pypdf/_text_extraction/_layout_mode/_text_state_manager.py:160-165 | `Tm` pushes one text-tagged, render-untagged frame and changes nothing else; two operands push the translation by them |
| TextState.AddTrm | pypdf/_text_extraction/_layout_mode/_text_state_manager.py:167-172 | the text rendering matrix pushes one frame tagged both text and render and changes nothing else |
| TextState.Keep | pypdf/_text_extraction/_layout_mode/_text_state_manager.py:124-129 | the filter keeps exactly the frames not dropped, and no more of them than there were |
| TextState.ResetTm | pypdf/_text_extraction/_layout_mode/_text_state_manager.py:122-125 | after `reset_tm` no frame is tagged text or render, and every untagged frame is still there |
| TextState.ResetTrm | pypdf/_text_extraction/_layout_mode/_text_state_manager.py:127-130 | after `reset_trm` no frame is tagged render, and every other frame is still there |
| TextState.ResetTmIdempotent | pypdf/_text_extraction/_layout_mode/_text_state_manager.py:122-125 | `reset_tm` twice is `reset_tm` once, and it removes a frame `Tm` pushed (frames tagged by `add_tm`, lines 160-165) |
| TextState.RemoveQ | pypdf/_text_extraction/_layout_mode/_text_state_manager.py:132-141 | `Q` drops the top frame (leaving an empty map when it was the last), unwinds the q depth only when it is positive, and pops at most one level |
| TextState.AddQ | pypdf/_text_extraction/_layout_mode/_text_state_manager.py:143-146 | `q` keeps the frames and pushes a q depth one deeper |
| TextState.PopUndoesPush | pypdf/_text_extraction/_layout_mode/_text_state_manager.py:132-152 | `Q` after `cm` gives back the frames there were before |
| TextState.Effective | pypdf/_text_extraction/_layout_mode/_text_state_manager.py:174-180 | the only way the effective transform fails is KeyError |
| TextState.EffectiveDefined | pypdf/_text_extraction/_layout_mode/_text_state_manager.py:174-180 | the effective transform exists exactly when no map on the chain is empty |
| TextState.EffectivePush | pypdf/_text_extraction/_layout_mode/_text_state_manager.py:148-180 | after `cm` the effective transform is the previous effective transform multiplied by the pushed matrix |
| TextState.EffectiveSingle | pypdf/_text_extraction/_layout_mode/_text_state_manager.py:174-180 | a chain of one frame has that frame's matrix as its effective transform |
| TextState.EffectiveInit | pypdf/_text_extraction/_layout_mode/_text_state_manager.py:174-180 | a new manager's effective transform is the identity (the stack `__init__` builds at line 31) |
| TextState.EffectiveTransform | pypdf/_text_extraction/_layout_mode/_text_state_manager.py:174-180 | the loop over the reversed chain computes the recursive effective transform |
| TextState.BlankBelow | pypdf/_text_extraction/_layout_mode/_text_state_manager.py:136-180 | an empty map anywhere on the chain (what `Q` leaves after the last frame) makes the effective transform KeyError |
| TextState.Count | pypdf/_text_extraction/_layout_mode/_text_state_params.py:97 | a character occurs no more often than the string is long |
| TextState.CountAppend | pypdf/_text_extraction/_layout_mode/_text_state_params.py:97 | occurrences in a concatenation add up |
| TextState.WordTx | pypdf/_text_extraction/_layout_mode/_text_state_params.py:94-99 | the displacement of a word exists exactly when its width does |
| TextState.WordTxAdditive | pypdf/_text_extraction/_layout_mode/_text_state_params.py:94-99 | the displacement of a concatenation is the sum of the displacements of its parts |
| TextState.WordTxEmpty | pypdf/_text_extraction/_layout_mode/_text_state_params.py:94-99 | the empty word moves by the TD offset only |
| TextState.SplitDisplacement | pypdf/_text_extraction/_layout_mode/_text_state_params.py:98 | the displacement formula is additive in width, space count and length together |
| TextState.DisplacementMatrix | pypdf/_text_extraction/_layout_mode/_text_state_params.py:80-92 | the displacement matrix exists exactly when the word's width does, and is the identity for the empty word without offset |
| TextState.DisplacedX | pypdf/_text_extraction/_layout_mode/_text_state_params.py:69-72 | displacing by `w` moves the x of the transform by `w` times its `a` |
| TextState.RenderY | pypdf/_text_extraction/_layout_mode/_text_state_params.py:74-78 | the render transform raises the baseline by the text rise times the font size times the transform's `d` |
| TextState.Upright | pypdf/_text_extraction/_layout_mode/_text_state_params.py:50-55 | the transform is kept exactly when its orientation is neither 90 nor 270, nor 180 with a negative `a`; then the text is not marked rotated |
| TextState.NewParams | pypdf/_text_extraction/_layout_mode/_text_state_params.py:49-63 | the parameters exist exactly when the text's and the space's widths do; they hold the uprighted transform, `tx` is its `e`, and the text is flipped exactly when its `d` is below −1e-6 |
| TextState.NewParamsPlacement | pypdf/_text_extraction/_layout_mode/_text_state_params.py:56-58 | the text ends at its start plus its displacement scaled by the transform's `a`, and its baseline is the transform's `f` raised by the scaled text rise |
| TextState.NewParamsEnd | pypdf/_text_extraction/_layout_mode/_text_state_params.py:56-72 | the displaced x is the start plus the displacement scaled by the transform's `a` |
| TextState.NewParamsBaseline | pypdf/_text_extraction/_layout_mode/_text_state_params.py:58-78 | `ty` is the transform's `f` raised by the text rise times the font size times `d` |
| TextState.TextStateParams | pypdf/_text_extraction/_layout_mode/_text_state_manager.py:77-107 | no font is PdfReadError, an empty map on the chain is KeyError, and the parameters carry the manager's font, size, spacing and uprighted effective transform |
| TextState.EmptyTextStays | pypdf/_text_extraction/_layout_mode/_text_state_params.py:56-92 | the empty string ends where it starts |
| TextState.TextStateParamsEmpty | pypdf/_text_extraction/_layout_mode/_text_state_manager.py:77-107 | the parameters built for the default empty text end where they start |
| FixedWidth.ParamName | pypdf/_text_extraction/_layout_mode/_fixed_width_page.py:96-97 | a text-state operator's name is two characters starting with `T` |
| FixedWidth.BtGroup | pypdf/_text_extraction/_layout_mode/_fixed_width_page.py:40-58 | a group carries the parameters' position, the rendered text and the given end, and sorts flipped exactly when the text is flipped |
| FixedWidth.Values | pypdf/_text_extraction/_layout_mode/_text_state_manager.py:148-165 | the stored operands keep their count, and each number its value |
| FixedWidth.Start | pypdf/_text_extraction/_layout_mode/_text_state_manager.py:30-40 | a fresh text state is the manager's initial one, holds one frame, and stores nothing that is not a number |
| FixedWidth.PushCm | pypdf/_text_extraction/_layout_mode/_text_state_manager.py:148-152 | `cm` fails only with more than eight operands (TypeError); otherwise it pushes one frame whatever the operands are, remembers whether one of its six entries is not a number, and changes nothing else |
| FixedWidth.PushTm | pypdf/_text_extraction/_layout_mode/_text_state_manager.py:160-165 | `Tm` fails only with more than six operands (TypeError); otherwise the same as `cm` |
| FixedWidth.Open | pypdf/_text_extraction/_layout_mode/_text_state_manager.py:143-146 | `q` leaves the chain and what is stored alone |
| FixedWidth.Close | pypdf/_text_extraction/_layout_mode/_text_state_manager.py:132-141 | `Q` drops the newest frame and what is remembered about it, leaving an empty map after the last; the font size and parameters stay |
| FixedWidth.JoinText | pypdf/_text_extraction/_layout_mode/_fixed_width_page.py:100 | a `TJ` array without strings renders as the empty string |
| FixedWidth.TjText | pypdf/_text_extraction/_layout_mode/_fixed_width_page.py:100 | the rendered text is a string for every operand but a number, and a string operand is rendered as itself |
| FixedWidth.CountShowSplit | pypdf/_text_extraction/_layout_mode/_fixed_width_page.py:98-104 | the number of text-showing operators in adjacent ranges adds up |
| FixedWidth.StateOp | pypdf/_text_extraction/_layout_mode/_fixed_width_page.py:93-97 | `Tf` succeeds exactly with two operands naming a page font, a text-state operator exactly with an operand; the size or value is stored whatever it is and remembered as not a number exactly when it is not one; the font is set; the frames and the q depth are untouched |
| FixedWidth.ShowOp | pypdf/_text_extraction/_layout_mode/_fixed_width_page.py:98-104 | as written: no font is PdfReadError, then an empty map on the chain KeyError, then a stored value that is not a number TypeError, and a recorded group ends where it starts; corrected, the parameters are those of the rendered text; either way success needs every value computed with to be a number, and the group is the parameters' position with the rendered text, kept exactly when it is not a rotated one being stripped |
| FixedWidth.Rendered | pypdf/_text_extraction/_layout_mode/_fixed_width_page.py:100 | the rendered text is the first operand of `Tj` and the joined array of `TJ`; no operand is IndexError |
| FixedWidth.ParamText | pypdf/_text_extraction/_layout_mode/_text_state_manager.py:94-95 | the text the parameters are built for is the string itself, or a byte string decoded as UTF-8; anything else is TypeError |
| FixedWidth.ShownGroupsMove | pypdf/_text_extraction/_layout_mode/_text_state_params.py:56-57 | with the text passed on, a group starts at the parameters' x and ends advanced by the text's width scaled by the transform |
| FixedWidth.ParamsPlacement | pypdf/_text_extraction/_layout_mode/_text_state_params.py:56-72 | the parameters of a text end advanced by the text's width |
| FixedWidth.NewParamsAdvance | pypdf/_text_extraction/_layout_mode/_text_state_params.py:56-72 | the same, stated for the parameters' constructor |
| FixedWidth.StepStoresAnything | pypdf/_text_extraction/_layout_mode/_fixed_width_page.py:89-97 | whether a `cm`, `Tm`, `Tf` or text-state operator succeeds depends only on its operand count and the font it names, never on whether the values are numbers |
| FixedWidth.LeadingNeverComputed | pypdf/_text_extraction/_layout_mode/_text_state_params.py:49-63 | whatever `TL` stores, a string shown afterwards fails or succeeds as after `0 TL`, with the same group |
| FixedWidth.NonNumberStored | pypdf/_text_extraction/_layout_mode/_fixed_width_page.py:60-106 | `BT /F1 12 Tf /X Tc ET` yields no group and no error |
| FixedWidth.NonNumberMatrixStored | pypdf/_text_extraction/_layout_mode/_fixed_width_page.py:167-168 | a top-level `[/X 0 0 1 0 0] cm` on its own yields no group and no error |
| FixedWidth.NonNumberFailsWhenShown | pypdf/_text_extraction/_layout_mode/_fixed_width_page.py:98-99 | adding `(a) Tj` before its `ET` makes the walk fail with TypeError, as written |
| FixedWidth.StepOp | pypdf/_text_extraction/_layout_mode/_fixed_width_page.py:89-97 | a step keeps the state well formed, and operators other than `cm`, `Tm`, `Tf` and the text-state ones leave it alone |
| FixedWidth.StepOpEffects | pypdf/_text_extraction/_layout_mode/_fixed_width_page.py:89-97 | a `Tf` naming a font the page does not have is KeyError; `cm` and `Tm` push one frame and change nothing else; `Tf` and the text-state operators keep the frames |
| FixedWidth.StationaryConcat | pypdf/_text_extraction/_layout_mode/_fixed_width_page.py:82-83 | groups that do not move, joined, do not move |
| FixedWidth.Prepend | pypdf/_text_extraction/_layout_mode/_fixed_width_page.py:81-88 | extending the walk's lists keeps groups and parameters consistent and adds the lengths |
| FixedWidth.Recur | pypdf/_text_extraction/_layout_mode/_fixed_width_page.py:60-106 | the walk consumes at least one operator when there is one, stays within the stream and keeps the manager well formed |
| FixedWidth.Single | pypdf/_text_extraction/_layout_mode/_fixed_width_page.py:89-104 | one operator records parameters exactly when it shows text |
| FixedWidth.Block | pypdf/_text_extraction/_layout_mode/_fixed_width_page.py:80-88 | a `BT` or `q` block consumes at least its opening operator and keeps the manager well formed |
| FixedWidth.RecurSound | pypdf/_text_extraction/_layout_mode/_fixed_width_page.py:60-106 | the walk records parameters for every text-showing operator it consumes, and a group for each unless it is a stripped rotated one; as written no group moves |
| FixedWidth.NestedSound | pypdf/_text_extraction/_layout_mode/_fixed_width_page.py:80-88 | the same after a nested `BT` or `q` block |
| FixedWidth.SingleSound | pypdf/_text_extraction/_layout_mode/_fixed_width_page.py:89-104 | the same after a single operator |
| FixedWidth.BlockSound | pypdf/_text_extraction/_layout_mode/_fixed_width_page.py:80-88 | the same for a whole block |
| FixedWidth.BlockKeepsFrames | pypdf/_text_extraction/_layout_mode/_fixed_width_page.py:77-90 | the closing operator ends the block without undoing anything: a frame `cm` pushed inside it stays on the chain after it |
| FixedWidth.TextShow | pypdf/_text_extraction/_layout_mode/_fixed_width_page.py:154-179 | the page-level walk yields no more groups than text-showing operators, and as written none of them moves |
| FixedWidth.TopLevelIgnores | pypdf/_text_extraction/_layout_mode/_fixed_width_page.py:157-168 | at page level every operator other than `BT`, `q`, `Q` and `cm` is skipped |
| FixedWidth.TextShowOperations | pypdf/_text_extraction/_layout_mode/_fixed_width_page.py:141-179 | `text_show_operations` yields at most one group per text-showing operator, and nothing for an empty stream |
| FixedWidth.RoundHalfEven | pypdf/_text_extraction/_layout_mode/_fixed_width_page.py:122 | `round` gives the nearest integer, and the even one at a tie (the same `round` at lines 231 and 240) |
| FixedWidth.Bucket | pypdf/_text_extraction/_layout_mode/_fixed_width_page.py:120-125 | a bucket holds only groups whose rounded baseline is its key |
| FixedWidth.Buckets | pypdf/_text_extraction/_layout_mode/_fixed_width_page.py:120-125 | the buckets form a dictionary: each key once, listed exactly when it has an entry |
| FixedWidth.BucketEmpty | pypdf/_text_extraction/_layout_mode/_fixed_width_page.py:120-125 | a baseline no group rounds to has an empty bucket |
| FixedWidth.BucketsAreFilters | pypdf/_text_extraction/_layout_mode/_fixed_width_page.py:120-125 | a baseline has an entry exactly when some group rounds to it, and the entry is the groups that do, in order |
| FixedWidth.Insert | pypdf/_text_extraction/_layout_mode/_fixed_width_page.py:128-129 | inserting adds the one group to the list's contents |
| FixedWidth.InsertSorted | pypdf/_text_extraction/_layout_mode/_fixed_width_page.py:128-129 | inserting into a list sorted by x keeps it sorted |
| FixedWidth.SortByTx | pypdf/_text_extraction/_layout_mode/_fixed_width_page.py:128-129 | the sort is a permutation sorted by x |
| FixedWidth.WithTxAppend | pypdf/_text_extraction/_layout_mode/_fixed_width_page.py:128-129 | the groups at one x in a concatenation are those of each part, in order |
| FixedWidth.InsertWithTx | pypdf/_text_extraction/_layout_mode/_fixed_width_page.py:128-129 | inserting places the new group after the groups with the same x |
| FixedWidth.SortStable | pypdf/_text_extraction/_layout_mode/_fixed_width_page.py:128-129 | the sort is stable: the groups with one x keep their order |
| FixedWidth.YGroups | pypdf/_text_extraction/_layout_mode/_fixed_width_page.py:108-139 | `y_coordinate_groups` keeps the bucket keys in order, and each line is its bucket sorted by x |
| FixedWidth.YGroupsLines | pypdf/_text_extraction/_layout_mode/_fixed_width_page.py:108-139 | a line exists exactly when some group rounds to it, holds exactly its groups, and keeps the order of the groups with the same x |
| FixedWidth.Accumulate | pypdf/_text_extraction/_layout_mode/_fixed_width_page.py:198-205 | a group adds to the totals exactly when its text has a length |
| FixedWidth.FixedCharWidth | pypdf/_text_extraction/_layout_mode/_fixed_width_page.py:181-210 | the average exists exactly when the totals do |
| FixedWidth.TotalsUniform | pypdf/_text_extraction/_layout_mode/_fixed_width_page.py:194-205 | when every group spends `c` per character, the total width is `c` times the total weight |
| FixedWidth.AccumulateUniform | pypdf/_text_extraction/_layout_mode/_fixed_width_page.py:198-205 | one loop pass keeps the total width at `c` times the total weight |
| FixedWidth.TotalsWeightPositive | pypdf/_text_extraction/_layout_mode/_fixed_width_page.py:194-205 | the total weight is never negative, and positive exactly when some group has text |
| FixedWidth.FixedCharWidthUniform | pypdf/_text_extraction/_layout_mode/_fixed_width_page.py:181-210 | when every group spends `c` per character, the average is `c`, or 0 without any text |
| FixedWidth.StationaryWidthZero | pypdf/_text_extraction/_layout_mode/_fixed_width_page.py:181-210 | groups that end where they start give a character width of 0 |
| FixedWidth.AddGroup | pypdf/_text_extraction/_layout_mode/_fixed_width_page.py:230-234 | a group pads the line with spaces up to its column `round(tx / cw)` and appends its text, keeping the line so far; a zero width is ZeroDivisionError |
| FixedWidth.SpacesAreSpaces | pypdf/_text_extraction/_layout_mode/_fixed_width_page.py:232-233 | the padding is all spaces |
| FixedWidth.Line | pypdf/_text_extraction/_layout_mode/_fixed_width_page.py:229-234 | a non-empty line with a zero character width is ZeroDivisionError |
| FixedWidth.LineKeepsPrefix | pypdf/_text_extraction/_layout_mode/_fixed_width_page.py:229-234 | the line of the first groups is a prefix of the whole line |
| FixedWidth.Blanks | pypdf/_text_extraction/_layout_mode/_fixed_width_page.py:240 | the blank-line count exists exactly when the width is not zero |
| FixedWidth.PageLines | pypdf/_text_extraction/_layout_mode/_fixed_width_page.py:225-241 | there is at least one line per baseline, and none ends in whitespace |
| FixedWidth.Stripped | pypdf/_text_extraction/_layout_mode/_fixed_width_page.py:236-241 | a line is stripped on the right and followed by the given number of empty lines |
| FixedWidth.PageLinesStep | pypdf/_text_extraction/_layout_mode/_fixed_width_page.py:228-241 | each baseline gives its stripped line, followed, with vertical spacing and before the last line, by `round((y - next) / (2 cw)) - 1` empty lines |
| FixedWidth.PageLinesPlain | pypdf/_text_extraction/_layout_mode/_fixed_width_page.py:228-236 | without vertical spacing there is exactly one line per baseline, its line stripped on the right |
| FixedWidth.FixedWidthPage | pypdf/_text_extraction/_layout_mode/_fixed_width_page.py:212-243 | a page without lines is the empty string |
| FixedWidth.ZeroWidthFails | pypdf/_text_extraction/_layout_mode/_fixed_width_page.py:231 | a zero character width fails the page as soon as any line holds a group |
| FixedWidth.PageLinesFailAt | pypdf/_text_extraction/_layout_mode/_fixed_width_page.py:231 | the same for the lines of any baselines that include a non-empty one |
| DataStructures.GetItem | pypdf/generic/_data_structures.py:139-140 | `d[key]` succeeds exactly when the key is present, and raises KeyError otherwise |
| DataStructures.SetItem | pypdf/generic/_data_structures.py:132-137 | `d[key] = value` succeeds exactly when both key and value are PDF objects, and raises ValueError otherwise; the key then holds the value and every other entry is unchanged |
| DataStructures.SetThenGet | pypdf/generic/_data_structures.py:132-140 | an entry just stored reads back as the stored object, resolved; other keys read as before; a Python value such as None is refused |
| DataStructures.ParentOf | pypdf/generic/_data_structures.py:125-128 | a parent is found exactly when /Parent is present and resolves to a dictionary |
| DataStructures.GetInherited | pypdf/generic/_data_structures.py:110-130 | a key held by the dictionary itself is returned resolved; a missing key with no dictionary parent gives the default |
| DataStructures.InheritedFromNearest | pypdf/generic/_data_structures.py:110-130 | the inherited value is the one held by the nearest ancestor on the /Parent chain that has the key |
| DataStructures.InheritedDefault | pypdf/generic/_data_structures.py:110-130 | when no dictionary on the chain holds the key, the default comes back |
| DataStructures.InheritedFuelMonotone | pypdf/generic/_data_structures.py:110-130 | climbing further never changes an answer already reached |
| DataStructures.Clone | pypdf/generic/_data_structures.py:84-96 | a cloned array has as many items; a cloned dictionary has the source's keys minus the ignored ones; anything else is itself (arrays by `ArrayObject.clone`, lines 29-40) |
| DataStructures.CloneStreamFree | pypdf/generic/_data_structures.py:84-96 | a clone holds no stream anywhere inside it |
| DataStructures.CloneKeepsAll | pypdf/generic/_data_structures.py:84-96 | with nothing to ignore, cloning a stream-free object gives it back (arrays by lines 29-40) |
| DataStructures.CloneIdempotent | pypdf/generic/_data_structures.py:84-96 | cloning a clone with the same ignore list changes nothing more (arrays by lines 29-40) |
| DataStructures.PartsData | pypdf/generic/_data_structures.py:320-323 | the data of an array of streams has one entry per part, each that part's resolved `get_data()` |
| DataStructures.JoinAsWrittenLength | pypdf/generic/_data_structures.py:320-324 | as written, the joined data is exactly one byte per part longer than the parts: every part gets a newline |
| DataStructures.JoinFromStep | pypdf/generic/_data_structures.py:320-324 | one round of the corrected loop on a non-empty part appends the part and, unless it ends with one, a newline |
| DataStructures.JoinFromTerminated | pypdf/generic/_data_structures.py:320-324 | the corrected loop keeps the data so far and appends each non-empty part with a newline only where it lacks one |
| DataStructures.JoinCorrectedParts | pypdf/generic/_data_structures.py:320-324 | corrected, the data is the non-empty parts, each followed by a newline only when it does not end with one |
| DataStructures.JoinCounterexample | pypdf/generic/_data_structures.py:322-323 | as written, a single part `q\n` becomes `q\n\n`; corrected, it stays `q\n` |
| DataStructures.ContentData | pypdf/generic/_data_structures.py:314-331 | no stream gives empty data, a single stream gives its own data, and an array gives data exactly when every part does |
| DataStructures.PadXYZ | pypdf/generic/_data_structures.py:485-491 | the arguments are padded with 0 up to three entries and otherwise kept |
| DataStructures.Destination | pypdf/generic/_data_structures.py:477-510 | a destination carries its /Title, /Page and /Type; it fails exactly for /XYZ with more than three arguments (ValueError), /FitR with arguments but not four (ValueError), and an unknown type with arguments (PdfReadError) |
| DataStructures.DestinationXYZ | pypdf/generic/_data_structures.py:485-492 | an /XYZ destination always carries /Left, /Top and /Zoom, each its argument or 0 |
| DataStructures.DestinationFitR | pypdf/generic/_data_structures.py:495-496 | a /FitR destination with four arguments carries them as /Left, /Bottom, /Right and /Top |
| DataStructures.DestinationSide | pypdf/generic/_data_structures.py:493-508 | a fit other than /XYZ without arguments carries nothing more; /FitH and /FitBH carry /Top and /FitV and /FitBV carry /Left, the single argument or null when there is not exactly one |
| DataStructures.FitAfterDestination | pypdf/generic/_data_structures.py:480-491 | the caller's fit keeps its type; for /XYZ its own argument list is padded in place with 0 up to three entries, the given arguments kept in front; other types leave it unchanged |
| DataStructures.DestinationReadsPaddedFit | pypdf/generic/_data_structures.py:480-492 | an /XYZ destination's /Left, /Top and /Zoom are exactly the three arguments the caller's fit holds after the call |
| DataStructures.DestinationPageRoundTrip | pypdf/generic/_data_structures.py:477-523 | a destination built on a page reference reports that reference's object number, and one built on anything else reports none |
| TreeObjects.SetEntries | pypdf/generic/_data_structures.py:132-137 | replacing a node's entries changes that node only, keeps every object and its kind, and reads back as the new entries |
| TreeObjects.Target | pypdf/generic/_data_structures.py:209-218 | a link entry of a node names an object of the arena through an indirect reference |
| TreeObjects.Without | pypdf/generic/_data_structures.py:177-201 | the children without the one at `k` are the others, in order |
| TreeObjects.WellLinkedFrame | pypdf/generic/_data_structures.py:177-201 | the children are linked alike in two arenas that agree on the parent and the children |
| TreeObjects.DecrementCount | pypdf/generic/_data_structures.py:201 | a missing /Count is KeyError; an integer /Count drops by one; nothing else changes |
| TreeObjects.RemoveNode | pypdf/generic/_data_structures.py:177-201 | a removal keeps every object of the arena and its kind |
| TreeObjects.Walk | pypdf/generic/_data_structures.py:209-218 | a walk that finds the node keeps every object of the arena and its kind |
| TreeObjects.Reset | pypdf/generic/_data_structures.py:221-234 | the reset fails with KeyError exactly when /Parent is missing, and otherwise deletes the node's /Parent, /Next and /Prev and nothing else |
| TreeObjects.RemoveFromTree | pypdf/generic/_data_structures.py:203-205 | a node without /Parent is left alone |
| TreeObjects.WalkReaches | pypdf/generic/_data_structures.py:209-218 | on well-linked children the walk from /First reaches the node with its predecessor in hand |
| TreeObjects.OnlyEdits | pypdf/generic/_data_structures.py:187-201 | corrected, removing the only child deletes the parent's /First and /Last and lowers its /Count, changing nothing else |
| TreeObjects.FirstEdits | pypdf/generic/_data_structures.py:187-201 | corrected, removing the first of several children moves /First to the second child, which loses /Prev, and lowers /Count |
| TreeObjects.LastEdits | pypdf/generic/_data_structures.py:187-201 | corrected, removing the last of several children moves /Last to the one before, which loses /Next, and lowers /Count |
| TreeObjects.FirstWellLinked | pypdf/generic/_data_structures.py:191-193 | after the first child's removal the others are well linked |
| TreeObjects.FirstParents | pypdf/generic/_data_structures.py:191-193 | after the first child's removal the others keep their /Parent |
| TreeObjects.FirstAdjacent | pypdf/generic/_data_structures.py:191-193 | after the first child's removal the others stay linked to their neighbours |
| TreeObjects.LastWellLinked | pypdf/generic/_data_structures.py:194-196 | after the last child's removal the others are well linked |
| TreeObjects.LastParents | pypdf/generic/_data_structures.py:194-196 | after the last child's removal the others keep their /Parent |
| TreeObjects.LastAdjacent | pypdf/generic/_data_structures.py:194-196 | after the last child's removal the others stay linked to their neighbours |
| TreeObjects.MiddleEdits | pypdf/generic/_data_structures.py:197-201 | removing a middle child points its predecessor's /Next and its successor's /Prev at each other and lowers /Count, changing nothing else |
| TreeObjects.RelinkedWellLinked | pypdf/generic/_data_structures.py:197-199 | after a middle child's removal the others are well linked |
| TreeObjects.RelinkedParents | pypdf/generic/_data_structures.py:197-199 | after a middle child's removal the others keep their /Parent |
| TreeObjects.RelinkedAdjacent | pypdf/generic/_data_structures.py:197-199 | after a middle child's removal the others stay linked to their neighbours |
| TreeObjects.RemoveAt | pypdf/generic/_data_structures.py:177-201 | corrected, removing the child at any position leaves the others well linked in their order, lowers /Count by one, and changes only the parent and the remaining children |
| TreeObjects.StartOfWalk | pypdf/generic/_data_structures.py:206-210 | the walk starts at the parent's /First, compares with its /Last, and the node's /Parent is that parent |
| TreeObjects.RemoveFromTreeUnlinks | pypdf/generic/_data_structures.py:203-234 | corrected, `remove_from_tree` on any child leaves the other children well linked in their order, lowers the parent's /Count by one, strips the node's /Parent, /Next and /Prev, and changes no object outside the parent and its children |
| TreeObjects.ResetAfterRemove | pypdf/generic/_data_structures.py:219-234 | the final reset touches only the removed node, which is no longer among the children |
| TreeObjects.WithoutDrops | pypdf/generic/_data_structures.py:177-201 | taking a child out leaves only other children, and not it |
| TreeObjects.RemoveEndsAsWritten | pypdf/generic/_data_structures.py:187-196 | as written, removing the first or the last child raises ValueError, because None is assigned to an entry |
| TreeObjects.RemoveMiddleAsWritten | pypdf/generic/_data_structures.py:197-199 | as written, removing a child between two others does what the corrected removal does |
| TreeObjects.WalkMissing | pypdf/generic/_data_structures.py:209-218 | a node that is not among the children is never found: the walk runs off the last child, whose missing /Next raises KeyError |
| TreeObjects.RemoveStranger | pypdf/generic/_data_structures.py:203-218 | `remove_from_tree` on a node that names a parent without being its child raises KeyError |
| VirtualLists.Normalize | pypdf/_page.py:693-697 | a negative index counts from the end; the index is accepted exactly when `-n <= i < n`, otherwise IndexError; the position found is below `n` and congruent to `i` modulo `n` |
| VirtualLists.GetItem | pypdf/_page.py:686-698 | a non-int, non-slice index raises TypeError; an int index succeeds exactly when it is in range and fails with IndexError otherwise; a slice fails exactly when its step is zero; every page position yielded lies below the length |
| VirtualLists.GetItemIsListIndex | pypdf/_page.py:693-698 | for an in-range index, `[]` reads the same page as Python list indexing of the flattened pages, from the front or from the back |
| VirtualLists.SliceViewIsListSlice | pypdf/_page.py:687-690 | the view for `[a:b]` with `0 <= a <= b <= n` holds exactly the positions `a, ..., b - 1`, as list slicing does |
| VirtualLists.IndexOf | pypdf/_page.py:721 | `list.index`: the position found holds the element, and none is found exactly when the element is absent |
| VirtualLists.LowerCount | pypdf/_page.py:728-729 | an integer /Count drops by one; a node without /Count is left as it is; no other object changes and every /Parent entry is kept |
| VirtualLists.RemoveFirstSplice | pypdf/_page.py:721-722 | `del kids[kids.index(x)]` is the list with its first `x` taken out (VirtualLists.RemoveFirst, defined by recursion on the list) |
| VirtualLists.Unhook | pypdf/_page.py:720-736 | one level of the deletion: a parent without /Kids is KeyError; a /Kids that is not a list is TypeError or AttributeError; a page absent from the kids is PdfReadError; a page present, under a count that is absent or an integer, succeeds; on success the parent's kids are the old kids with the first reference to the page taken out, the flag tells whether none are left, the parent's other entries but /Count are unchanged, /Count stays present or absent, an integer count drops by one, and every object and /Parent entry of the tree is kept |
| VirtualLists.UnhookFrame | pypdf/_page.py:721-729 | one level changes no object but the parent and the kids array its /Kids refers to |
| VirtualLists.UnhookOnChain | pypdf/_page.py:721-731 | when the node holds the page in its own /Kids and has an integer /Count, one level succeeds, takes the first reference to the page out of that /Kids array, leaves the node's other entries but /Count as they were, lowers that count by one, changes no other object, keeps the node's /Parent, and reports the kids empty exactly when the page was the only kid |
| VirtualLists.ClimbKeeps | pypdf/_page.py:718-734 | the loop over the ancestors keeps every object of the tree and every /Parent entry |
| VirtualLists.ProceedKeeps | pypdf/_page.py:730-734 | the step to the next ancestor keeps every object of the tree and every /Parent entry |
| VirtualLists.CountAboveKeeps | pypdf/_page.py:728-734 | lowering the counts of the ancestors keeps every object and every /Parent entry |
| VirtualLists.ClimbFlat | pypdf/_page.py:718-727 | the loop only removes pages from the flattened list; in the corrected loop the only page removed is the one at the index, at the first level |
| VirtualLists.ProceedFlat | pypdf/_page.py:730-734 | the levels above only remove pages from the flattened list, and in the corrected loop they remove none |
| VirtualLists.DelIndex | pypdf/_page.py:708-736 | `del pages[i]` raises IndexError exactly outside `-n <= i < n`; on success the page tree keeps every object and every /Parent entry, /Parent stays indirect, and the list still holds pages; corrected, the page at the normalised index leaves the list when it has a /Parent and nothing else leaves it |
| VirtualLists.DelItem | pypdf/_page.py:700-714 | a non-int, non-slice index raises TypeError; an int index out of range raises IndexError; a slice with a zero step raises ValueError |
| VirtualLists.LowerChainLowers | pypdf/_page.py:728-734 | reference for the counts: lowering the chain of ancestors one node at a time lowers each count by exactly one and changes nothing off the chain |
| VirtualLists.CountAboveIs | pypdf/_page.py:728-734 | with enough fuel, lowering the counts from the first ancestor upward is the reference `LowerChain` |
| VirtualLists.CountAboveLowers | pypdf/_page.py:728-734 | lowering the counts from the first ancestor upward lowers every count on the chain by one and changes nothing off the chain |
| VirtualLists.ProceedKept | pypdf/_page.py:733-734 | corrected, once an ancestor keeps other kids every count above it is lowered by one, the flattened list is unchanged, and nothing off the chain changes |
| VirtualLists.ClimbLowers | pypdf/_page.py:718-734 | corrected, when the page's parent keeps other kids (or is the root), the climb lowers the count of every ancestor by one, changes nothing off the chain, and removes the page from the list once |
| VirtualLists.DelIndexLowers | pypdf/_page.py:708-736 | corrected, deleting a page whose parent keeps other kids removes exactly that page from the flattened list, takes its reference out of the parent's /Kids, lowers every ancestor's /Count by one and changes nothing else |
| VirtualLists.DelIndexNotKid | pypdf/_page.py:717-736 | deleting a page whose /Parent does not list it among the kids raises PdfReadError; a /Parent without /Kids raises KeyError |
| VirtualLists.FlatCounterexample | pypdf/_page.py:718-732 | on a root over an intermediate node with one page and a second page, deleting the first page as written empties the list (the second page is removed too), while the corrected deletion leaves `[second page]` |
| VirtualLists.StaleCountCounterexample | pypdf/_page.py:728-734 | on a root over one intermediate node with two pages, deleting the first page as written leaves the root's /Count at 2 over one page |
| VirtualLists.StaleCountCorrected | pypdf/_page.py:728-734 | the corrected deletion of the same page lowers the root's /Count to 1 |
| Reader.BasicValidation | pypdf/_reader.py:187-194 | the file is accepted exactly when it starts with the five bytes `%PDF-`; an empty file raises EmptyFileError and any other rejected file PdfReadError |
| Reader.BasicValidationReadsFive | pypdf/_reader.py:189-190 | only the first five bytes decide: whatever follows them never changes the verdict |
| Reader.RFind | pypdf/_reader.py:206 | `bytes.rfind`: the position found holds a match and no match starts after it; no position is found exactly when there is no match anywhere |
| Reader.FindEofMarker | pypdf/_reader.py:196-209 | the offset found is the rightmost `%%EOF`, in any letter case, that starts within the last 1024 bytes; PdfReadError exactly when no such marker starts there |
| Reader.EofMarkerAtEnd | pypdf/_reader.py:196-209 | a file that ends in `%%EOF` has its marker found at its very end, whatever precedes it |
| Reader.GetPage | pypdf/_reader.py:147-162 | page `n` is returned exactly when `0 <= n < len(pages)`, and it is the `n`-th flattened page; IndexError otherwise (no negative indexing) |
| Reader.GetPageAgainstVirtualList | pypdf/_reader.py:160-162 | for non-negative numbers `_get_page` succeeds exactly when `pages[n]` does, and reads the same position; a negative number that `pages[n]` accepts is rejected by `_get_page` |
| Reader.IdMap | pypdf/_reader.py:174-178 | the map holds exactly the object numbers of the pages; each maps to a page that has that number, and no later page has it (the last write wins) |
| Reader.GetPageNumberByIndirect | pypdf/_reader.py:164-185 | the memo is built from the page list on the first call and kept unchanged afterwards; None and the null object give None |
| Reader.LookupFindsLastPage | pypdf/_reader.py:174-185 | on a fresh reader an object number is found exactly when some page has it, and the page number given is the last page with that number |
| Reader.LookupInvertsPages | pypdf/_reader.py:174-185 | with distinct object numbers the lookup of page `i`'s reference gives `i` |
| Reader.MemoIgnoresPages | pypdf/_reader.py:174-178 | once the memo exists, later changes to the page list do not change any lookup |
| Reader.XrefIssues | pypdf/_reader.py:228-245 | a negative offset raises ValueError; otherwise the result is 0 exactly when `xref ` starts at the offset and 1 otherwise |
| Reader.PyIn | pypdf/_reader.py:290-293 | `key in o` on a dictionary is key membership |
| Reader.PyGet | pypdf/_reader.py:292-295 | `o[key]` on a dictionary holding the key resolves the value it stores |
| Reader.SetInAcroForm | pypdf/_reader.py:299 | after `acroform[key] = v` the AcroForm dictionary holds exactly its old entries with `key` set to `v` |
| Reader.AddFormTopname | pypdf/_reader.py:280-300 | None without /AcroForm or without /Fields; otherwise the new field has /T the name and /Kids the old fields, and /Fields becomes the one-element array of the new field, the other AcroForm entries unchanged |
| Reader.RenameFormTopname | pypdf/_reader.py:302-324 | None without /AcroForm or /Fields; for an array of fields, a field is renamed exactly when there is one field and it is a dictionary, and the renamed field is that field with /T set to the name |
| Reader.AddThenRename | pypdf/_reader.py:280-324 | after `add_form_topname(a)`, `rename_form_topname(b)` finds the new top field and returns it named `b` with the old fields as its kids |
| Writer.Pad10Value | pypdf/_writer.py:494 | `f"{n:010d}"` is all decimal digits, reads back as `n`, and is exactly ten characters for `n < 10^10` |
| Writer.EntryOffset | pypdf/_writer.py:494 | an entry decodes only when it is 20 bytes that end in ` 00000 n \n` |
| Writer.XrefEntryRoundTrip | pypdf/_writer.py:494 | for offsets below 10^10 the in-use entry is 20 bytes and decodes back to the offset |
| Writer.Entries | pypdf/_writer.py:493-494 | one in-use entry per object, in object order |
| Writer.TableLookup | pypdf/_writer.py:489-494 | the 20 bytes at the position of object `k + 1`'s entry decode to that object's offset, so a reader can seek straight to any entry |
| Writer.Write | pypdf/_writer.py:482-494 | the output is the header line and the objects' bytes up to `xref_location`, and the cross-reference table from there on |
| Writer.WrittenKeyword | pypdf/_writer.py:488-489 | the five bytes at `xref_location` are `xref\n` |
| Writer.WrittenTableFlagged | pypdf/_writer.py:488-489 | the reader's probe reports issue 1 for every table the writer emits |
| Writer.XrefIssuesCorrected | pypdf/_reader.py:228-245 | corrected probe: a negative offset still fails; otherwise 0 exactly when `xref` followed by a space, CR or LF starts at the offset |
| Writer.WrittenTableAccepted | pypdf/_writer.py:488-489 | the corrected probe accepts every table the writer emits |
| Writer.SetPageLayout | pypdf/_writer.py:782-786 | ValueError exactly for a plain string outside the seven valid layouts (or an argument of another type); otherwise /PageLayout is set to the name and every other catalog entry is kept (the names of `_valid_layouts`, line 728) |
| Writer.SetPageLayoutTwice | pypdf/_writer.py:782-786 | setting a layout after a successful one gives the same catalog as setting only the second |
| Writer.ItemEntries | pypdf/_writer.py:626-642 | the new item has /Title and /Dest, /C exactly for a non-empty colour, /F exactly when bold or italic (bit 1 italic, bit 2 bold), and /Count 1 exactly when open; never /Next or /Prev |
| Writer.OutlineParent | pypdf/_writer.py:644-650 | a given parent is used when it is a dictionary; without one, a missing /Outlines is created as a new empty dictionary referenced from the catalog; nothing else changes |
| Writer.IncrementCount | pypdf/_writer.py:651-653 | a missing /Count becomes 1, an integer /Count goes up by one, nothing else changes; any other /Count raises TypeError |
| Writer.IncrementThenDecrement | pypdf/_writer.py:653 | removing a node again undoes the increment: `_remove_node_from_tree`'s decrement restores the arena |
| Writer.AddOutlineItem | pypdf/_writer.py:597-669 | on success the new item is stored, and at most the item and a new /Outlines are added to the arena |
| Writer.Attach | pypdf/_writer.py:668-669 | the item is added with its entries and /Parent set to the parent; no other object changes |
| Writer.InsertAt | pypdf/_writer.py:655-666 | the child list after an insertion: one longer, the item at `k`, the others shifted past it |
| Writer.AppendLinks | pypdf/_writer.py:655-658 | the links a correct append leaves make the old children plus the item a well-linked list under the parent |
| Writer.InsertLinks | pypdf/_writer.py:659-666 | the links an insertion at `k` leaves make the children with the item at `k` a well-linked list |
| Writer.IncrementKeepsLinks | pypdf/_writer.py:651-653 | the count update keeps the children well linked and only sets /Count to the next value |
| Writer.AppendCorrected | pypdf/_writer.py:655-658 | the corrected append succeeds, makes the item the last child of a well-linked list, and raises the parent's /Count by one |
| Writer.AppendTouchesTwo | pypdf/_writer.py:655-658 | the corrected append changes only the parent and the old last child among existing objects |
| Writer.UnderGivenParent | pypdf/_writer.py:644-669 | with a given parent whose count can be raised, `add_outline_item` succeeds exactly when the linking does and stores the item with the links it chose |
| Writer.InsertArena | pypdf/_writer.py:659-666 | inserting before child `k` (corrected, or as written for `k > 0`) gives a well-linked list with the item at `k` and the parent's /Count one higher |
| Writer.InsertCorrected | pypdf/_writer.py:659-666 | the corrected insertion before child `k` gives the well-linked list `ns[..k] + [item] + ns[k..]` and raises /Count by one |
| Writer.InsertMiddleAsWritten | pypdf/_writer.py:659-666 | before any child but the first, the code as written behaves exactly as the corrected code |
| Writer.InsertFirstAsWritten | pypdf/_writer.py:661 | as written, inserting before the first child stores None as /Prev and raises ValueError |
| Writer.Stranded | pypdf/_writer.py:655-658 | a parent whose /Last has no /Prev but whose /First is another node has no well-linked child list at all |
| Writer.LastLinksBack | pypdf/_writer.py:655-658 | in a well-linked list of two or more children the last one links back to the one before it |
| Writer.AppendAsWritten | pypdf/_writer.py:655-658 | as written, appending to a non-empty list makes the item /Last without linking it to the old last child, so no child list under the parent is well linked |
| Writer.Resolve | pypdf/_writer.py:943-946 | a page object is taken as it is; a page number resolves exactly when `-n <= i < n`, and a non-negative one to that source page |
| Writer.ResolveAll | pypdf/_writer.py:942-946 | the list resolves exactly when every element does, element by element in order |
| Writer.MergePlan | pypdf/_writer.py:927-948 | an argument of another type raises TypeError; the plan exists exactly when the list is formed and every element resolves, and element `i` is inserted at `position + i` (the end of the writer by default) |
| Writer.MergeAllPages | pypdf/_writer.py:930-931 | without `pages` every source page is inserted, in order, from the position on |
| Writer.MergeRange | pypdf/_writer.py:932-933 | a PageRange inserts exactly the source pages the range selects, in its order |
| Writer.MergeAsWritten | pypdf/_writer.py:942-948 | as written, it succeeds only on an empty page list, and then agrees with the corrected merge; a non-empty list whose first page resolves, and so every list the corrected merge would insert, raises TypeError; a page list that cannot be built fails as in the corrected merge |
| Writer.MergeCounterexample | pypdf/_writer.py:948 | merging a one-page document whole raises TypeError as written; corrected, the page goes at the end of the writer |

## Left out

- zlib inflation (`decompress`) and `base64.a85decode` are not modelled: they are parameters (`inflate`, `a85`) of the functions that call them.
- `FlateDecode.encode` (zlib compression) is left out for the same reason.
- DCTDecode, JPXDecode and CCITTFaxDecode have no decoder in the source; the chain returns their input, and so does the model.
- `_xobj_to_image` in `pypdf/filters.py` needs an imaging library and is left out.
- Lzw.Decode: the source builds a `str` of code points; the model produces the same values as bytes.
- Utils: streams are positioned within their data; a position past the end, which BytesIO allows after an explicit seek, is not modelled.
- `read_until_regex`, `mark_location`, the deprecation and logging helpers, `rename_kwargs`, `File`/`ImageFile` of `pypdf/_utils.py` are I/O or reporting helpers and are left out.
- ImageInline.ScanAHx: a stream that ends before `>>` makes the source loop forever (an empty read is neither `>` nor whitespace); the model requires the end marker to be present.
- PageLabels.ClearRangeInTree: this lemma and the other number-tree lemmas take a well-formed `/Nums` to hold no numbers among its values (page label dictionaries or references to them, as section 12.4.2 of ISO 32000-1 requires). A number value equal to `key` would be found by `key in nums` as the source finds it; NumsClearRange itself models that case.
- PageLabels.IndexToLabel: a real-valued key is reported as TypeError as soon as the loop reaches it, where Python compares it by value (a real key above the page index ends the loop) or carries it into the page arithmetic as a float; a real-valued /St is reported as TypeError too. The insertion, clearing and next-entry loops, and the search for the key that clearing starts after, do compare real keys by value.
- PageLabels.PrefixText: a /P prefix other than a string or an integer, which Python would format with its `repr`, is reported as NotImplementedError.
- PageLabels: `reader.get_object` is modelled as resolving a reference through the arena (an integer read as the reference `n 0 R`); a dangling reference reads as the null object.
- PageRanges: the pattern's `\d` also matches non-ASCII decimal digits, which `int` accepts; the model reads ASCII digits only.
- PageRanges: slice bounds are integers or `None`; a slice holding other objects, which Python would carry through to a TypeError later, is not modelled.
- PageRanges.Add: the TypeError for an operand that is not a PageRange is ruled out by the types of the model.
- PageRanges.AddUnion: stated for non-negative bounds only, because with a negative bound the sum can select other pages than its summands (see PageRanges.AddNegative).
- PageRanges: `PageRange.__eq__` is the equality of the datatype, and `to_slice` is the `slice` field; `PageRangeSpec` is a type alias only.
- Permissions: a flag value is the set of its bit positions; negative values and bits above R32, which `IntFlag` allows, are not modelled.
- Permissions: `str.isdigit` also accepts non-ASCII decimal digits; the model checks ASCII digits only.
- Permissions: the dictionaries of `to_dict` and `from_dict` are sequences of pairs in insertion order; `from_dict` is modelled for any such sequence, including one with repeated names.
- FieldAttributes: the class dictionary is listed by the kinds of its entries; the text of the docstring and the `FfBits` members are not modelled.
- Crypt: `CryptAES` of `pypdf/_crypt_providers/_fallback.py` has an empty constructor and no other behaviour, and is left out.
- Crypt: keys are byte sequences; `set_key` accepts any object in Python.
- ImageMode: colour-space names are compared as strings; an indirect reference inside a colour-space array is not resolved, as in the source.
- ImageInline.ExtractInlineA85: a stream without `~>` makes the source loop forever (an empty read never matches), so the model requires the terminator to be present.
- ImageInline.ExtractInlineDefault: a stream without `EI` makes the source loop forever, so the model requires an `EI` somewhere in the stream.
- ImageInline.ExtractInlineRL: the same requirement of a terminating `EI` as the default scan, whose loop it shares.
- Utils.ParseVersion: the `\d` of the version pattern also matches non-ASCII decimal digits, which `int` accepts; the model reads ASCII digits only.
- Transformations: `Transformation.rotate` needs cosine and sine and is left out; coordinates are reals, not binary floats.
- TextState: `font_height` (a square root) and `space_tx` (rounded to three places) are not kept in the parameters.
- TextState: the orientation helper `orient` and the matrix product `mult` live in a module that is not part of this model; `orient` is a parameter, and `mult` is defined as the product of `Transformation.transform` (`pypdf/_page.py:95-102`).
- FixedWidth.ShowOp: a stored value that is not a number is reported as TypeError where the parameters are built, after the font and empty-map checks; Python's sequence repetition (`0 * "ab"` is `""`) lets some combinations of such values get further into the arithmetic before they fail, always with TypeError, and in the corrected walk the width of the text is looked up before that TypeError.
- FixedWidth.ParamText: a `Tj` operand that is neither a string nor bytes is taken as TypeError in the corrected walk; the code as written never builds parameters for it.
- FixedWidth: the text state keeps 0 in place of a stored value that is not a number, with a record of which values those are; the leading (`TL`) is never computed with, so what it holds never matters.
- FixedWidth: the power weighting `n ** scale_weight` of `fixed_char_width` is a parameter `weight`; rounding is round-half-even on reals; the debug-file writing of the layout functions is left out.
- LayoutFont: the `STANDARD_WIDTHS` table lives in a module that is not part of this model and is a parameter.
- CMap: `parse_to_unicode` lives in a module that is not part of this model and is a parameter; the logging of its failure is not modelled.
- DataStructures.GetInherited: climbs at most `fuel` parents and returns None beyond; the source has no bound and, on a cyclic `/Parent` chain, recurses until Python's recursion limit.
- DataStructures.Clone: `pdf_dest`, `force_duplicate` and the copying of indirect objects into the destination are not modelled; a stream is cloned as the dictionary of its header.
- TreeObjects.Walk: walks at most `fuel` /Next links and returns None beyond; a cyclic chain never ends in the source.
- TreeObjects.RemoveFromTree: the same `fuel` bound as Walk; the lemmas about it assume that /First, /Last, /Next, /Prev and /Parent are indirect references into the arena (TreeObjects.LinksIndirect).
- TreeObjects: a Float /Count is lowered and truncated to an integer, as `NumberObject` does; other floats are reals.
- VirtualLists.DelIndex: climbs at most `fuel` parents and returns None beyond; so do VirtualLists.DelItem, VirtualLists.DelAll and their helpers Climb, Proceed and CountAbove.
- VirtualLists.DelIndexLowers: stated for a page whose parent keeps other kids, or is the root, with every /Kids array stored directly in its dictionary (VirtualLists.Chain); the climb past an emptied parent has no lowering lemma.
- VirtualLists.DelIndex: requires every /Parent to be an indirect reference (VirtualLists.NoDirectParents) and every page to be a dictionary in the arena (VirtualLists.PagesAreNodes); so do VirtualLists.DelAll and VirtualLists.DelItem. A /Parent stored as a dictionary inside its child is not modelled.
- Writer, TreeObjects and VirtualLists: an operation that raises returns only the exception; the changes Python has already made before raising are not kept (in VirtualLists, the /Kids entries and `flattened_pages` changed before a later count error or PdfReadError).
- Writer and TreeObjects: the links /First, /Last, /Next, /Prev and /Parent are stored as indirect references to the linked node, while `pypdf/generic/_data_structures.py` and `add_outline_item` store the dictionary objects themselves; the model does not tell a dictionary apart from a reference to it.
- Writer.OutlineParent: a catalog /Outlines entry holding a dictionary directly, rather than a reference, gives TypeError where the source takes that dictionary as the parent; section 7.7.2 of ISO 32000-1 requires /Outlines to be an indirect reference.
- Writer.AddOutlineItem: a `before` node whose /Prev holds a dictionary directly gives TypeError where the source links that dictionary; section 12.3.3 of ISO 32000-1 requires /Prev to be an indirect reference. The same holds for a direct /Outlines, as in Writer.OutlineParent.
- Reader: `_find_startxref_pos` is left out, because it loops forever when `startxref` is absent; file opening, decryption and `is_encrypted` are left out too.
- Writer: the bytes and offset of every object are inputs (`Written`); `_write_trailer` and `PdfWriter.write` are left out.
- Writer.XrefEntryRoundTrip: offsets of 10^10 or more get entries longer than 20 bytes and are outside the round-trip lemmas.
- Writer.AddOutlineItem: the new item and the `/Outlines` node, when one is created, go to references given as inputs; colour parsing, `page_number` resolution and the /Dest of the item are given, not computed.
- Writer: `merge`'s `outline_item`, `import_outline` and `_add_outline_from_reader` are left out; `insert_page` is modelled as the plan of (source page, position) pairs it would carry out.

## Findings

| source | as written | input that shows it | evidently intended | confidence | as-written member | corrected member |
|---|---|---|---|---|---|---|
| pypdf/filters.py:86-88 | TIFF predictor rows are `bytes` slices, so `row[j] = ...` raises TypeError | one row `[1, 1]`, /Columns 2, /Colors 1 | the row is undone in place to `[1, 2]` | high, not executed | Filters.PredictorCounterexample | Filters.TiffRoundTrip |
| pypdf/filters.py:241-243 | a leading CLEAR code becomes the previous code, so the first real code files a spurious table entry | CLEAR, A, B, 258, STOP decodes to "ABA" | the first CLEAR just starts a fresh table: "ABAB" | high, not executed | Lzw.ClearCounterexample | Lzw.LeadingClearIgnored |
| pypdf/filters.py:383-405 | a missing /Filter reads as `()` and a missing /DecodeParms as `{}`, both of which fall to "Unsupported type" PdfReadError | a hex stream `41` with /Filter /ASCIIHexDecode and no /DecodeParms | no parameters: decodes to `A` | high, not executed | Filters.AbsentParmsCounterexample | Filters.SingleFilter |
| pypdf/_utils.py:62-79 | at the end of the data the final `seek(-1, SEEK_CUR)` steps back onto the last whitespace byte | `a ` from position 1 ends at position 1 | the stream stays at the end, position 2 | medium, not executed | Utils.SkipAtEndCounterexample | Utils.SkipOverWhitespaceCorrected |
| pypdf/_utils.py:81-91 | iterating `bytes` gives ints, never equal to the one-byte strings in WHITESPACES, so only empty input counts as whitespace only | `b" "` | true | high, not executed | Utils.WhitespaceOnlyCounterexample | Utils.WhitespaceOnlyMeansNothingToRead |
| pypdf/_utils.py:135-163 | when no EOL precedes the line the stream is left at position 1 | `ab` read from position 2 | position 0, the line's start | medium, not executed | Utils.PreviousLineCounterexample | Utils.ReadPreviousLineCorrected |
| pypdf/generic/_image_inline.py:107 | `SEEK_CUR` is never imported, so reaching `EI` raises NameError | `abEI` | `ab`, the stream left on `E` | high, not executed | ImageInline.DefaultCounterexample | ImageInline.ExtractInlineDefault |
| pypdf/generic/_image_inline.py:63 | the same missing `SEEK_CUR` in the run-length scan, which shares the default scan's loop | `00 61 80 EI` | `a`, the run-length decode of the bytes before `EI` | high, not executed | ImageInline.RLCounterexample | ImageInline.ExtractInlineRLRoundTrip |
| pypdf/generic/_image_inline.py:93 | the same missing `SEEK_CUR` in the DCT scan | `abEI` | `ab`, the stream left on `E` | high, not executed | ImageInline.DCTCounterexample | ImageInline.DCTOneChunk |
| pypdf/generic/_image_inline.py:49 | `from .filters import` resolves to the non-existent `pypdf.generic.filters` | `87cUR~>` | the ASCII85 decode of `87cUR` | high, not executed | ImageInline.A85Counterexample | ImageInline.ExtractInlineA85 |
| pypdf/pagerange.py:96-98 | a stepless `k:k+1` is printed as the lone `k`, also for `k = -1` | `str(PageRange("-1:0"))` is `-1`, which parses to the last page | the empty range is printed as `-1:0` and parses back to itself | medium, not executed | PageRanges.StrAsWrittenCounterexample | PageRanges.StrRoundTrip |
| pypdf/pagerange.py:160-177 | every file name gets `PAGE_RANGE_ALL`, also after its explicit ranges | `["a.pdf", "0:2"]` gives `(a.pdf, 0:2)` and `(a.pdf, all)` | only `(a.pdf, 0:2)`: the docstring gives all pages only to a file name not followed by a range | high, not executed | PageRanges.ParseFilenamePageRangesCounterexample | PageRanges.ParseFilenamePageRanges |
| pypdf/constants.py:398 | `attributes()` returns the attribute names, not the constants the docstring promises, so the `lstrip('/')` of `attributes_dict()` has nothing to strip | `attributes()[0]` is `FT` | `attributes()[0]` is `/FT`, and `attributes_dict()` maps `/FT` to `FT` | medium, not executed | FieldAttributes.AttributesAsWrittenAreNames | FieldAttributes.AttributesDictStripsSlash |
| pypdf/generic/_data_structures.py:321-327 | `data[-1]` is an integer and `b'\n'` is bytes, so the test is always true and every part gets a newline, also one that already ends with one | one part `q\n` | `q\n`: a newline only after a part that lacks one | high, not executed | DataStructures.JoinCounterexample | DataStructures.JoinCorrectedParts |
| pypdf/generic/_data_structures.py:187-196 | removing the first or the last node assigns None to /Prev, /Next, /First or /Last, which `DictionaryObject.__setitem__` refuses with ValueError | the first of any list of outline children | the entry is deleted and the node leaves the list | high, not executed | TreeObjects.RemoveEndsAsWritten | TreeObjects.RemoveFromTreeUnlinks |
| pypdf/_page.py:718-727 | every level of the climb deletes `flattened_pages[index]` again, so a deletion that empties a parent removes a second page from the list | a root over a node holding the first page and the second page beside it; `del pages[0]` | only the first page leaves the list | high, not executed | VirtualLists.FlatCounterexample | VirtualLists.DelIndex |
| pypdf/_page.py:728-734 | the climb stops at the first parent that keeps a kid, so the /Count of every node above it still counts the deleted page | a root over one node holding two pages; `del pages[0]` leaves the root's /Count at 2 | every ancestor's /Count drops by one | high, not executed | VirtualLists.StaleCountCounterexample | VirtualLists.StaleCountCorrected |
| pypdf/_writer.py:655-658 | appending sets the parent's /Last to the item without linking the old last child's /Next or the item's /Prev, so the children are no longer a linked list | any non-empty list of children | the item is linked after the old last child | high, not executed | Writer.AppendAsWritten | Writer.AppendCorrected |
| pypdf/_writer.py:661 | inserting before the first child stores its missing /Prev, None, as the item's /Prev, which `DictionaryObject.__setitem__` refuses with ValueError | `before` = the first child | the item becomes the first child | high, not executed | Writer.InsertFirstAsWritten | Writer.InsertCorrected |
| pypdf/_writer.py:948 | `insert_page` is called with `excluded_fields=`, a parameter it does not have, so merging any page raises TypeError | merging a one-page document whole | the page is inserted at the end of the writer | medium, not executed | Writer.MergeCounterexample | Writer.MergePlan |
| pypdf/_text_extraction/_layout_mode/_fixed_width_page.py:99 | `text_state_params()` is called without the text, so every string's parameters are those of the empty string and every group ends where it starts; the average character width is then 0 and laying out the page divides by it | any page with one shown string: ZeroDivisionError | `text_state_params(rendered_text)`: each group ends after its text, and the width comes from the texts | high, not executed | FixedWidth.ZeroWidthFails | FixedWidth.ShownGroupsMove |
| pypdf/_writer.py:488-489 | `_write` puts `xref\n` at `xref_location`, while the reader's probe at `pypdf/_reader.py:241` wants `xref ` with a space, so every file the writer writes is flagged as issue 1 | any written file | the probe accepts the keyword followed by an end of line or a space | medium, not executed | Writer.WrittenTableFlagged | Writer.WrittenTableAccepted |
