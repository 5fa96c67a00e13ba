/** The LZWDecode filter of `pypdf/filters.py` (section 7.4.4 of
    ISO 32000-1): a most-significant-bit-first code reader with a code
    width that grows from 9 to 12 bits, a 4096-entry string table, and the
    CLEAR (256) and STOP (257) control codes.  The decoder's table holds
    `str` values of code points 0..255; they are modelled as byte strings. */
module Lzw {
  import opened PyBase

  type bit = b: int | 0 <= b < 2

  const Clear := 256
  const Stop := 257
  const TableSize := 4096

  // ---------------------------------------------------------------------
  // Bits and bitwise operations on naturals
  // ---------------------------------------------------------------------


  /** Bit i (0 = most significant) of a byte. */
  function ByteBit(x: byte, i: nat): bit
    requires i < 8
  {
    Shr(x, 7 - i) % 2
  }

  /** The bits of a byte string, most significant bit of each byte first. */
  function BitsOf(data: seq<byte>): (r: seq<bit>)
    ensures |r| == 8 * |data|
  {
    seq(8 * |data|, k requires 0 <= k < 8 * |data| => ByteBit(data[k / 8], k % 8))
  }

  /** The number a bit string denotes, first bit most significant. */
  function Value(bits: seq<bit>): (v: nat)
    ensures v < Pow2(|bits|)
    decreases |bits|
  {
    if bits == [] then 0 else 2 * Value(bits[..|bits| - 1]) + bits[|bits| - 1]
  }

  /** The w-bit big-endian encoding of v: the inverse of `Value`. */
  function Code(v: nat, w: nat): (r: seq<bit>)
    ensures |r| == w
    decreases w
  {
    if w == 0 then [] else Code(v / 2, w - 1) + [v % 2]
  }

  lemma {:induction false} ValueOfCode(v: nat, w: nat)
    requires v < Pow2(w)
    ensures Value(Code(v, w)) == v
    decreases w
  {
    if w > 0 {
      var c := Code(v, w);
      assert c[..w - 1] == Code(v / 2, w - 1);
      ValueOfCode(v / 2, w - 1);
    }
  }

  lemma {:induction false} Pow2Add(a: nat, b: nat)
    ensures Pow2(a + b) == Pow2(a) * Pow2(b)
    decreases b
  {
    if b > 0 {
      Pow2Add(a, b - 1);
      assert Pow2(a + b) == 2 * Pow2(a + b - 1);
    }
  }

  lemma {:induction false} ValueAppend(a: seq<bit>, b: seq<bit>)
    ensures Value(a + b) == Value(a) * Pow2(|b|) + Value(b)
    decreases |b|
  {
    if b != [] {
      var ab := a + b;
      var b' := b[..|b| - 1];
      assert ab[..|ab| - 1] == a + b';
      ValueAppend(a, b');
      assert Value(ab) == 2 * Value(a + b') + b[|b| - 1];
      assert Value(b) == 2 * Value(b') + b[|b| - 1];
      assert Pow2(|b|) == 2 * Pow2(|b'|);
      MulAssoc(2, Value(a), Pow2(|b'|));
      MulAssoc(Value(a), 2, Pow2(|b'|));
    } else {
      assert a + b == a;
    }
  }

  lemma MulDistrib(a: int, b: int, c: int)
    ensures (a + b) * c == a * c + b * c
    ensures (a - b) * c == a * c - b * c
  {
  }

  lemma MulAssoc(a: int, b: int, c: int)
    ensures a * (b * c) == (a * b) * c
  {
  }

  lemma MulAtLeast(k: int, d: int)
    requires k >= 1 && d >= 0
    ensures k * d >= d
  {
    MulDistrib(k - 1, 1, d);
  }

  lemma MulMono(a: int, b: int, c: int)
    requires a <= b && c >= 0
    ensures a * c <= b * c
  {
    MulDistrib(b - a, a, c);
  }

  lemma DivModUnique(x: int, d: int, q: int, r: int)
    requires d > 0 && 0 <= r < d && x == q * d + r
    ensures x / d == q && x % d == r
  {
    var qq, rr := x / d, x % d;
    assert x == qq * d + rr;
    MulDistrib(q, -qq, d);
    assert (q - qq) * d == rr - r;
    if q > qq {
      MulAtLeast(q - qq, d);
    } else if q < qq {
      MulDistrib(qq, -q, d);
      MulAtLeast(qq - q, d);
    }
  }

  /** `y % 2P` peels off the low bit of y. */
  lemma ModDouble(y: nat, p: nat)
    requires p >= 1
    ensures y % (2 * p) == 2 * ((y / 2) % p) + y % 2
  {
    var q, r := (y / 2) / p, (y / 2) % p;
    assert y == q * (2 * p) + (2 * r + y % 2);
    DivModUnique(y, 2 * p, q, 2 * r + y % 2);
  }

  /** `x >> n`: n halvings, each dropping the low bit. */
  function Shr(x: nat, n: nat): nat
  {
    if n == 0 then x else Shr(x, n - 1) / 2
  }

  /** `x << n` */
  function Shl(x: nat, n: nat): nat { x * Pow2(n) }

  /** `a & b`, bit by bit from the least significant end. */
  function And(a: nat, b: nat): nat
    decreases a
  {
    if a == 0 || b == 0 then 0
    else 2 * And(a / 2, b / 2) + (if a % 2 == 1 && b % 2 == 1 then 1 else 0)
  }

  /** `a | b`, bit by bit from the least significant end. */
  function Or(a: nat, b: nat): nat
    decreases a + b
  {
    if a == 0 then b
    else if b == 0 then a
    else 2 * Or(a / 2, b / 2) + (if a % 2 == 1 || b % 2 == 1 then 1 else 0)
  }

  /** Masking with 2^m - 1 keeps the low m bits. */
  lemma {:induction false} AndLowMask(x: nat, m: nat)
    ensures And(x, Pow2(m) - 1) == x % Pow2(m)
    decreases m
  {
    if m > 0 && x > 0 {
      AndLowMask(x / 2, m - 1);
      AndLowMaskStep(x, m);
    } else if m == 0 {
      assert Pow2(0) == 1 && And(x, 0) == 0;
    } else {
      assert And(0, Pow2(m) - 1) == 0;
      ZeroMod(Pow2(m));
    }
  }

  lemma AndLowMaskStep(x: nat, m: nat)
    requires m > 0 && x > 0
    requires And(x / 2, Pow2(m - 1) - 1) == (x / 2) % Pow2(m - 1)
    ensures And(x, Pow2(m) - 1) == x % Pow2(m)
  {
    var half := Pow2(m - 1);
    var mask := Pow2(m) - 1;
    assert mask == 2 * half - 1;
    assert mask != 0 && mask % 2 == 1 && mask / 2 == half - 1;
    assert And(x, mask) == 2 * And(x / 2, half - 1) + x % 2;
    LowBitStep(x, m);
  }

  lemma ZeroMod(d: nat)
    requires d >= 1
    ensures 0 % d == 0
  {
  }

  /** OR with a value confined to the low k bits, which are zero in the
      other operand, is addition. */
  lemma {:induction false} OrDisjoint(v: nat, c: nat, k: nat)
    requires c < Pow2(k)
    ensures Or(v * Pow2(k), c) == v * Pow2(k) + c
    decreases k
  {
    var a := v * Pow2(k);
    if k > 0 && a != 0 && c != 0 {
      assert a == 2 * (v * Pow2(k - 1));
      assert a % 2 == 0 && a / 2 == v * Pow2(k - 1);
      OrDisjoint(v, c / 2, k - 1);
    }
  }

  /** `0xff >> (8 - m)` is the m-bit mask. */
  lemma LowMask(m: nat)
    requires m <= 8
    ensures Shr(255, 8 - m) == Pow2(m) - 1
  {
    Pow2Bytes();
    Shr255();
  }

  lemma Pow2Bytes()
    ensures Pow2(0) == 1 && Pow2(1) == 2 && Pow2(2) == 4 && Pow2(3) == 8 && Pow2(4) == 16
    ensures Pow2(5) == 32 && Pow2(6) == 64 && Pow2(7) == 128 && Pow2(8) == 256
  {
  }

  lemma Shr255()
    ensures Shr(255, 0) == 255 && Shr(255, 1) == 127 && Shr(255, 2) == 63 && Shr(255, 3) == 31
    ensures Shr(255, 4) == 15 && Shr(255, 5) == 7 && Shr(255, 6) == 3 && Shr(255, 7) == 1 && Shr(255, 8) == 0
  {
  }

  /** The m bits of byte x starting at bit p, shifted down and masked. */
  lemma {:induction false} ByteField(x: byte, p: nat, m: nat)
    requires p + m <= 8
    ensures Shr(x, 8 - p - m) % Pow2(m) == Value(ByteBits(x)[p..p + m])
    decreases m
  {
    if m > 0 {
      ByteField(x, p, m - 1);
      ByteFieldStep(x, p, m);
    }
  }

  lemma ByteFieldStep(x: byte, p: nat, m: nat)
    requires p + m <= 8 && m > 0
    requires Shr(x, 8 - p - (m - 1)) % Pow2(m - 1) == Value(ByteBits(x)[p..p + (m - 1)])
    ensures Shr(x, 8 - p - m) % Pow2(m) == Value(ByteBits(x)[p..p + m])
  {
    var y := Shr(x, 8 - p - m);
    assert Shr(x, 8 - p - (m - 1)) == y / 2;
    LowBitStep(y, m);
    FieldValueStep(x, p, m);
  }

  lemma LowBitStep(y: nat, m: nat)
    requires m > 0
    ensures y % Pow2(m) == 2 * ((y / 2) % Pow2(m - 1)) + y % 2
  {
    ModDouble(y, Pow2(m - 1));
  }

  lemma FieldValueStep(x: byte, p: nat, m: nat)
    requires p + m <= 8 && m > 0
    ensures Value(ByteBits(x)[p..p + m]) == 2 * Value(ByteBits(x)[p..p + m - 1]) + Shr(x, 8 - p - m) % 2
  {
    var bits := ByteBits(x);
    var field := bits[p..p + m];
    assert field[..m - 1] == bits[p..p + m - 1];
    assert field[m - 1] == ByteBit(x, p + m - 1);
  }


  function ByteBits(x: byte): (r: seq<bit>)
    ensures |r| == 8
  {
    seq(8, i requires 0 <= i < 8 => ByteBit(x, i))
  }

  // ---------------------------------------------------------------------
  // The code reader (Decoder.get_next_code)
  // ---------------------------------------------------------------------

  /** Reading `width` bits at `offset`: their value, or PdfReadError when
      the data runs out first. */
  function ReadCode(bits: seq<bit>, width: nat): (r: Result<nat>)
    ensures r.Ok? <==> width <= |bits|
    ensures r.Ok? ==> r.value < Pow2(width)
    ensures r.Err? ==> r.exc == PdfReadError
  {
    if |bits| < width then Err(PdfReadError) else Ok(Value(bits[..width]))
  }

  lemma ChunkOfData(data: seq<byte>, bytepos: nat, bitpos: nat, m: nat)
    requires bytepos < |data| && bitpos + m <= 8
    ensures And(Shr(data[bytepos], 8 - bitpos - m), Shr(255, 8 - m))
            == Value(BitsOf(data)[8 * bytepos + bitpos..8 * bytepos + bitpos + m])
  {
    var x := data[bytepos];
    LowMask(m);
    AndLowMask(Shr(x, 8 - bitpos - m), m);
    ByteField(x, bitpos, m);
    BitsOfByte(data, bytepos, bitpos, m);
  }

  /** A run of bits inside one byte of the data is a run of that byte's bits. */
  lemma BitsOfByte(data: seq<byte>, bytepos: nat, bitpos: nat, m: nat)
    requires bytepos < |data| && bitpos + m <= 8
    ensures BitsOf(data)[8 * bytepos + bitpos..8 * bytepos + bitpos + m] == ByteBits(data[bytepos])[bitpos..bitpos + m]
  {
    var lhs := BitsOf(data)[8 * bytepos + bitpos..8 * bytepos + bitpos + m];
    var rhs := ByteBits(data[bytepos])[bitpos..bitpos + m];
    forall k | 0 <= k < m
      ensures lhs[k] == rhs[k]
    {
      var i := 8 * bytepos + bitpos + k;
      assert i / 8 == bytepos && i % 8 == bitpos + k;
    }
  }

  /** Placing an m-bit chunk below an already shifted prefix is the same as
      appending its bits to the prefix. */
  lemma ShiftAppend(v: nat, chunk: nat, m: nat, fill: nat)
    requires m <= fill && chunk < Pow2(m)
    ensures Or(Shl(v, fill), Shl(chunk, fill - m)) == Shl(v * Pow2(m) + chunk, fill - m)
  {
    var p, q := Pow2(m), Pow2(fill - m);
    ShiftedChunkBound(chunk, m, fill);
    OrDisjoint(v, chunk * q, fill);
    Pow2Add(m, fill - m);
    MulAssoc(v, p, q);
    MulDistrib(v * p, chunk, q);
  }

  /** A chunk of m bits shifted up by fill - m stays below 2^fill. */
  lemma ShiftedChunkBound(chunk: nat, m: nat, fill: nat)
    requires m <= fill && chunk < Pow2(m)
    ensures Shl(chunk, fill - m) == chunk * Pow2(fill - m) < Pow2(fill)
  {
    var p, q := Pow2(m), Pow2(fill - m);
    Pow2Add(m, fill - m);
    MulMono(chunk, p - 1, q);
    MulDistrib(p, -1, q);
  }

  lemma AccumulateChunk(bits: seq<bit>, done: nat, m: nat, fill: nat, value: nat, chunk: nat)
    requires done + m <= |bits| && m <= fill
    requires value == Shl(Value(bits[..done]), fill)
    requires chunk == Value(bits[done..done + m])
    ensures Or(value, Shl(chunk, fill - m)) == Shl(Value(bits[..done + m]), fill - m)
  {
    ShiftAppend(Value(bits[..done]), chunk, m, fill);
    assert bits[..done + m] == bits[..done] + bits[done..done + m];
    ValueAppend(bits[..done], bits[done..done + m]);
  }

  lemma SliceOfSlice<T>(s: seq<T>, a: nat, i: nat, j: nat)
    requires a <= |s| && i <= j <= |s| - a
    ensures s[a..][i..j] == s[a + i..a + j]
  {
  }

  /** One iteration of the reader loop extends the accumulated code by the
      next `m` bits of the current byte. */
  lemma ReadStep(data: seq<byte>, off: nat, done: nat, m: nat, fill: nat, value: nat, bytepos: nat, bitpos: nat)
    requires off <= 8 * |data| && bytepos < |data| && bitpos + m <= 8 && m <= fill
    requires 8 * bytepos + bitpos == off + done
    requires value == Shl(Value(BitsOf(data)[off..][..done]), fill)
    ensures off + done + m <= 8 * |data|
    ensures Or(value, Shl(And(Shr(data[bytepos], 8 - bitpos - m), Shr(255, 8 - m)), fill - m))
            == Shl(Value(BitsOf(data)[off..][..done + m]), fill - m)
  {
    NextChunk(data, off, done, m, bytepos, bitpos);
    AccumulateChunk(BitsOf(data)[off..], done, m, fill, value, And(Shr(data[bytepos], 8 - bitpos - m), Shr(255, 8 - m)));
  }

  /** The masked bits of the current byte are the next `m` bits after
      `done` bits read from `off`. */
  lemma NextChunk(data: seq<byte>, off: nat, done: nat, m: nat, bytepos: nat, bitpos: nat)
    requires off <= 8 * |data| && bytepos < |data| && bitpos + m <= 8
    requires 8 * bytepos + bitpos == off + done
    ensures off + done + m <= 8 * |data|
    ensures And(Shr(data[bytepos], 8 - bitpos - m), Shr(255, 8 - m)) == Value(BitsOf(data)[off..][done..done + m])
  {
    ChunkOfData(data, bytepos, bitpos, m);
    SliceOfSlice(BitsOf(data), off, done, done + m);
  }

  /** The reader's state between chunks: `fill` bits still to read, the
      code accumulated so far (shifted into place), and the byte and bit
      position of the next chunk, `read` bits past `pos`. */
  predicate ReaderState(data: seq<byte>, pos: nat, width: nat, fill: nat, value: nat, bytepos: nat, bitpos: nat)
  {
    fill <= width && bitpos < 8 &&
    8 * bytepos + bitpos == pos + (width - fill) <= 8 * |data| &&
    value == Shl(Value(BitsOf(data)[pos..][..width - fill]), fill)
  }

  /** Decoder.get_next_code: reads `width` bits starting at bit `pos`
      (byte `pos / 8`, bit `pos % 8` of the decoder), a byte-aligned chunk at
      a time, and returns the code with the position just past it; running
      out of bytes first is a PdfReadError. */
  method GetNextCode(data: seq<byte>, pos: nat, width: nat) returns (r: Result<(nat, nat)>)
    requires pos <= 8 * |data|
    ensures r.Ok? <==> pos + width <= 8 * |data|
    ensures r.Err? ==> r == Err(PdfReadError)
    ensures r.Ok? ==> r.value.0 == Value(BitsOf(data)[pos..pos + width]) && r.value.1 == pos + width
  {
    var fill: nat := width;
    var value: nat := 0;
    var bytepos: nat := pos / 8;
    var bitpos: nat := pos % 8;
    while fill > 0
      invariant ReaderState(data, pos, width, fill, value, bytepos, bitpos)
      decreases fill
    {
      if bytepos >= |data| {
        return Err(PdfReadError);
      }
      // Take as many bits of the current byte as are still wanted, OR them
      // into place and advance.
      var bitsfromhere: nat := 8 - bitpos;
      if bitsfromhere > fill {
        bitsfromhere := fill;
      }
      var chunk := And(Shr(data[bytepos], 8 - bitpos - bitsfromhere), Shr(255, 8 - bitsfromhere));
      ReaderAdvance(data, pos, width, fill, value, bytepos, bitpos, bitsfromhere);
      value := Or(value, Shl(chunk, fill - bitsfromhere));
      fill := fill - bitsfromhere;
      bitpos := bitpos + bitsfromhere;
      if bitpos >= 8 {
        bitpos := 0;
        bytepos := bytepos + 1;
      }
    }
    ReadComplete(data, pos, width, value, bytepos, bitpos);
    return Ok((value, 8 * bytepos + bitpos));
  }

  /** Taking the next `m` bits of the current byte keeps the reader's
      state, moving to the next byte when this one is used up. */
  lemma ReaderAdvance(data: seq<byte>, pos: nat, width: nat, fill: nat, value: nat, bytepos: nat, bitpos: nat, m: nat)
    requires ReaderState(data, pos, width, fill, value, bytepos, bitpos)
    requires bytepos < |data| && 0 < m && m == (if 8 - bitpos > fill then fill else 8 - bitpos)
    ensures var value' := Or(value, Shl(And(Shr(data[bytepos], 8 - bitpos - m), Shr(255, 8 - m)), fill - m));
            var bitpos' := bitpos + m;
            ReaderState(data, pos, width, fill - m, value',
                        if bitpos' >= 8 then bytepos + 1 else bytepos,
                        if bitpos' >= 8 then 0 else bitpos')
  {
    ReadStep(data, pos, width - fill, m, fill, value, bytepos, bitpos);
  }

  /** With nothing left to fill the accumulated value is the code. */
  lemma ReadComplete(data: seq<byte>, pos: nat, width: nat, value: nat, bytepos: nat, bitpos: nat)
    requires ReaderState(data, pos, width, 0, value, bytepos, bitpos)
    ensures pos + width <= 8 * |data| && 8 * bytepos + bitpos == pos + width
    ensures value == Value(BitsOf(data)[pos..pos + width])
  {
    assert BitsOf(data)[pos..][..width] == BitsOf(data)[pos..pos + width];
  }

  /** The reader method agrees with the bit-string view. */
  lemma ReaderAgrees(data: seq<byte>, off: nat, width: nat)
    requires off + width <= 8 * |data|
    ensures ReadCode(BitsOf(data)[off..], width) == Ok(Value(BitsOf(data)[off..off + width]))
    ensures BitsOf(data)[off..][width..] == BitsOf(data)[off + width..]
  {
    assert BitsOf(data)[off..][..width] == BitsOf(data)[off..off + width];
  }

  // ---------------------------------------------------------------------
  // The string table (Decoder.dict, reset_dict, add_code_to_dict)
  // ---------------------------------------------------------------------

  /** Code width in force for a given table size. */
  function WidthFor(size: nat): nat
  {
    if size < 512 then 9 else if size < 1024 then 10 else if size < 2048 then 11 else 12
  }

  /** The decoder's table: 4096 slots, the number in use, the code width. */
  datatype Table = Table(entries: seq<seq<byte>>, size: nat, width: nat)

  predicate ValidTable(t: Table)
  {
    |t.entries| == TableSize && 258 <= t.size <= TableSize && t.width == WidthFor(t.size)
  }

  lemma WidthBound(t: Table)
    requires ValidTable(t)
    ensures 9 <= t.width <= 12 && 512 <= Pow2(t.width) <= TableSize
  {
    Pow2Widths();
  }

  /** The powers of two the code widths take. */
  lemma Pow2Widths()
    ensures Pow2(9) == 512 && Pow2(10) == 1024 && Pow2(11) == 2048 && Pow2(12) == 4096
  {
    Pow2Bytes();
  }

  /** Slots 0..255 hold the single characters, all others the empty string;
      then reset_dict sets the size to 258 and the width to 9. */
  function InitialTable(): (t: Table)
    ensures ValidTable(t) && t.size == 258 && t.width == 9
    ensures forall i :: 0 <= i < 256 ==> t.entries[i] == [i]
    ensures forall i :: 256 <= i < TableSize ==> t.entries[i] == []
  {
    Table(seq(TableSize, i requires 0 <= i < TableSize => if i < 256 then [i as byte] else []), 258, 9)
  }

  /** reset_dict: the size and width go back to 258 and 9, but the slots
      already filled keep their strings. */
  function ResetTable(t: Table): (r: Table)
    requires ValidTable(t)
    ensures ValidTable(r) && r.size == 258 && r.width == 9
    ensures r.entries == t.entries
  {
    t.(size := 258, width := 9)
  }

  /** add_code_to_dict: the string goes into the next free slot, and the
      width grows by one bit when the size reaches 512, 1024 and 2048;
      writing past slot 4095 is an IndexError. */
  function AddCode(t: Table, entry: seq<byte>): (r: Result<Table>)
    requires ValidTable(t)
    ensures r.Err? <==> t.size == TableSize
    ensures r.Err? ==> r.exc == IndexError
    ensures r.Ok? ==> ValidTable(r.value) && r.value.size == t.size + 1
    ensures r.Ok? ==> r.value.entries == t.entries[t.size := entry]
  {
    if t.size >= TableSize then Err(IndexError)
    else
      var size := t.size + 1;
      var width :=
        if size == 512 then 10
        else if size == 1024 then 11
        else if size == 2048 then 12
        else t.width;
      Ok(Table(t.entries[t.size := entry], size, width))
  }

  // ---------------------------------------------------------------------
  // Decoder.decode
  // ---------------------------------------------------------------------

  /** The `while True` loop of Decoder.decode over the bits still unread:
      STOP ends it, CLEAR resets the table and emits the next code's string
      as is, any other code emits its string and records the previous
      string plus that string's first character.  Reading past the end is
      PdfReadError; an empty slot (a code the table never filled) is an
      IndexError at `s[0]`. */
  function DecodeLoop(bits: seq<bit>, t: Table, prev: nat, result: seq<byte>): (r: Result<seq<byte>>)
    requires ValidTable(t) && prev < TableSize
    ensures r.Ok? ==> result <= r.value
    decreases |bits|
  {
    WidthBound(t);
    var c :- ReadCode(bits, t.width);
    var rest := bits[t.width..];
    if c == Stop then Ok(result)
    else if c == Clear then
      var t1 := ResetTable(t);
      var c2 :- ReadCode(rest, 9);
      assert c2 < Pow2(9) by { WidthBound(t1); }
      DecodeLoop(rest[9..], t1, c2, result + t1.entries[c2])
    else
      var s := t.entries[c];
      if |s| == 0 then Err(IndexError)
      else
        var t1 :- AddCode(t, t.entries[prev] + [s[0]]);
        DecodeLoop(rest, t1, c, result + s)
  }

  lemma LoopUnreadable(bits: seq<bit>, t: Table, prev: nat, result: seq<byte>)
    requires ValidTable(t) && prev < TableSize && |bits| < t.width
    ensures DecodeLoop(bits, t, prev, result) == Err(PdfReadError)
  {
  }

  lemma LoopStop(bits: seq<bit>, t: Table, prev: nat, result: seq<byte>)
    requires ValidTable(t) && prev < TableSize
    requires ReadCode(bits, t.width) == Ok(Stop)
    ensures DecodeLoop(bits, t, prev, result) == Ok(result)
  {
  }

  lemma LoopClear(bits: seq<bit>, t: Table, prev: nat, result: seq<byte>)
    requires ValidTable(t) && prev < TableSize
    requires ReadCode(bits, t.width) == Ok(Clear)
    ensures |bits[t.width..]| < 9 ==> DecodeLoop(bits, t, prev, result) == Err(PdfReadError)
    ensures |bits[t.width..]| >= 9 ==>
      var c2 := ReadCode(bits[t.width..], 9).value;
      c2 < TableSize &&
      DecodeLoop(bits, t, prev, result)
      == DecodeLoop(bits[t.width..][9..], ResetTable(t), c2, result + t.entries[c2])
  {
    WidthBound(ResetTable(t));
  }

  /** LoopClear, with the rest of the stream and the code after CLEAR named. */
  lemma LoopClearAt(bits: seq<bit>, t: Table, prev: nat, result: seq<byte>, rest: seq<bit>, c2: nat)
    requires ValidTable(t) && prev < TableSize
    requires ReadCode(bits, t.width) == Ok(Clear)
    requires bits[t.width..] == rest && ReadCode(rest, 9) == Ok(c2)
    ensures c2 < TableSize
    ensures DecodeLoop(bits, t, prev, result) == DecodeLoop(rest[9..], ResetTable(t), c2, result + t.entries[c2])
  {
    LoopClear(bits, t, prev, result);
  }

  lemma LoopCode(bits: seq<bit>, t: Table, prev: nat, result: seq<byte>, c: nat)
    requires ValidTable(t) && prev < TableSize
    requires ReadCode(bits, t.width) == Ok(c) && c != Stop && c != Clear
    ensures c < TableSize
    ensures |t.entries[c]| == 0 ==> DecodeLoop(bits, t, prev, result) == Err(IndexError)
    ensures |t.entries[c]| > 0 ==>
      var added := AddCode(t, t.entries[prev] + [t.entries[c][0]]);
      (added.Err? ==> DecodeLoop(bits, t, prev, result) == Err(added.exc)) &&
      (added.Ok? ==> DecodeLoop(bits, t, prev, result)
                     == DecodeLoop(bits[t.width..], added.value, c, result + t.entries[c]))
  {
    WidthBound(t);
  }

  /** Decoder.decode as written: the first code's string starts the result
      and that code becomes the previous code, even when it is CLEAR. */
  function DecodeAsWritten(bits: seq<bit>): (r: Result<seq<byte>>)
  {
    var t := InitialTable();
    WidthBound(t);
    var c :- ReadCode(bits, 9);
    DecodeLoop(bits[9..], t, c, t.entries[c])
  }

  /** The decode with a leading CLEAR handled like every other CLEAR: the
      next code's string starts the result. */
  function DecodeCorrected(bits: seq<bit>): (r: Result<seq<byte>>)
  {
    var t := InitialTable();
    WidthBound(t);
    var c :- ReadCode(bits, 9);
    if c == Clear then
      var c2 :- ReadCode(bits[9..], 9);
      DecodeLoop(bits[18..], t, c2, t.entries[c2])
    else DecodeLoop(bits[9..], t, c, t.entries[c])
  }

  /** LZWDecode.decode on bytes, as written. */
  function LzwDecode(data: seq<byte>): Result<seq<byte>>
  {
    DecodeAsWritten(BitsOf(data))
  }

  /** LZWDecode.decode on bytes with the leading-CLEAR handling corrected;
      the filter chain uses this one. */
  function LzwDecodeCorrected(data: seq<byte>): Result<seq<byte>>
  {
    DecodeCorrected(BitsOf(data))
  }

  /** What one pass of the decode loop leaves: the loop goes on with a new
      table, previous code, output and bit position, or the decode is over. */
  datatype Pass =
    | Continue(t: Table, prev: nat, result: seq<byte>, pos: nat)
    | Done(r: Result<seq<byte>>)

  /** One pass of the `while True` loop of Decoder.decode: it keeps the
      outcome of `DecodeLoop` over the unread bits and moves forward. */
  method DecodePass(data: seq<byte>, pos: nat, t: Table, prev: nat, result: seq<byte>) returns (p: Pass)
    requires ValidTable(t) && prev < TableSize && pos <= 8 * |data|
    ensures p.Done? ==> p.r == DecodeLoop(BitsOf(data)[pos..], t, prev, result)
    ensures p.Continue? ==>
      ValidTable(p.t) && p.prev < TableSize && pos < p.pos <= 8 * |data| &&
      DecodeLoop(BitsOf(data)[p.pos..], p.t, p.prev, p.result)
      == DecodeLoop(BitsOf(data)[pos..], t, prev, result)
  {
    ghost var bits := BitsOf(data)[pos..];
    WidthBound(t);
    var next := GetNextCode(data, pos, t.width);
    if next.Err? {
      LoopUnreadable(bits, t, prev, result);
      assert Err(PdfReadError) == DecodeLoop(bits, t, prev, result);
      return Done(Err(PdfReadError));
    }
    ReaderAgrees(data, pos, t.width);
    var c := next.value.0;
    var after := next.value.1;
    if c == Stop {
      LoopStop(bits, t, prev, result);
      assert Ok(result) == DecodeLoop(bits, t, prev, result);
      return Done(Ok(result));
    }
    if c == Clear {
      p := ClearCodePass(data, pos, t, prev, result);
    } else {
      p := CodePass(data, pos, t, prev, result, c);
    }
  }

  /** An ordinary code: output its string and file a new table entry. */
  method CodePass(data: seq<byte>, pos: nat, t: Table, prev: nat, result: seq<byte>, c: nat) returns (p: Pass)
    requires ValidTable(t) && prev < TableSize && pos + t.width <= 8 * |data|
    requires ReadCode(BitsOf(data)[pos..], t.width) == Ok(c) && c != Stop && c != Clear
    requires BitsOf(data)[pos..][t.width..] == BitsOf(data)[pos + t.width..]
    ensures p.Done? ==> p.r == DecodeLoop(BitsOf(data)[pos..], t, prev, result)
    ensures p.Continue? ==>
      ValidTable(p.t) && p.prev < TableSize && p.pos == pos + t.width &&
      DecodeLoop(BitsOf(data)[p.pos..], p.t, p.prev, p.result)
      == DecodeLoop(BitsOf(data)[pos..], t, prev, result)
  {
    ghost var bits := BitsOf(data)[pos..];
    LoopCode(bits, t, prev, result, c);
    var s := t.entries[c];
    if |s| == 0 {
      return Done(Err(IndexError));
    }
    var added := AddCode(t, t.entries[prev] + [s[0]]);
    if added.Err? {
      return Done(Err(added.exc));
    }
    return Continue(added.value, c, result + s, pos + t.width);
  }

  /** A CLEAR code: reset the table and restart from the code after it. */
  method ClearCodePass(data: seq<byte>, pos: nat, t: Table, prev: nat, result: seq<byte>) returns (p: Pass)
    requires ValidTable(t) && prev < TableSize && pos + t.width <= 8 * |data|
    requires ReadCode(BitsOf(data)[pos..], t.width) == Ok(Clear)
    requires BitsOf(data)[pos..][t.width..] == BitsOf(data)[pos + t.width..]
    ensures p.Done? ==> p.r == DecodeLoop(BitsOf(data)[pos..], t, prev, result)
    ensures p.Continue? ==>
      ValidTable(p.t) && p.prev < TableSize && pos < p.pos <= 8 * |data| &&
      DecodeLoop(BitsOf(data)[p.pos..], p.t, p.prev, p.result)
      == DecodeLoop(BitsOf(data)[pos..], t, prev, result)
  {
    ghost var bits := BitsOf(data)[pos..];
    WidthBound(t);
    p := ClearPass(data, pos + t.width, t, prev, result);
    if p.Continue? {
      LoopClearAt(bits, t, prev, result, BitsOf(data)[pos + t.width..], p.prev);
    } else {
      LoopClear(bits, t, prev, result);
    }
  }

  /** After a CLEAR: reset the table and read the next code at 9 bits. */
  method ClearPass(data: seq<byte>, pos: nat, t: Table, prev: nat, result: seq<byte>) returns (p: Pass)
    requires ValidTable(t) && prev < TableSize && pos <= 8 * |data|
    ensures p.Done? ==> p == Done(Err(PdfReadError)) && |BitsOf(data)[pos..]| < 9
    ensures p.Continue? ==>
      var rest := BitsOf(data)[pos..];
      |rest| >= 9 && ReadCode(rest, 9) == Ok(p.prev) && p.prev < TableSize &&
      p.t == ResetTable(t) && p.result == result + t.entries[p.prev] &&
      p.pos == pos + 9 && BitsOf(data)[p.pos..] == rest[9..]
  {
    var t1 := ResetTable(t);
    WidthBound(t1);
    var again := GetNextCode(data, pos, t1.width);
    if again.Err? {
      return Done(Err(PdfReadError));
    }
    ReaderAgrees(data, pos, 9);
    var c2 := again.value.0;
    return Continue(t1, c2, result + t1.entries[c2], again.value.1);
  }

  /** Too few bits for the first code: the decode fails at once. */
  lemma DecodeShort(bits: seq<bit>)
    requires |bits| < 9
    ensures DecodeAsWritten(bits) == Err(PdfReadError)
  {
  }

  /** The first code read before the loop starts the output. */
  lemma DecodeStart(bits: seq<bit>)
    requires |bits| >= 9
    ensures Value(bits[..9]) < TableSize
    ensures DecodeAsWritten(bits)
            == DecodeLoop(bits[9..], InitialTable(), Value(bits[..9]), InitialTable().entries[Value(bits[..9])])
  {
    WidthBound(InitialTable());
  }

  /** The read of the first code, before the loop: its string starts the
      output and it becomes the previous code. */
  method FirstPass(data: seq<byte>) returns (p: Pass)
    ensures p.Done? ==> p.r == DecodeAsWritten(BitsOf(data))
    ensures p.Continue? ==>
      ValidTable(p.t) && p.prev < TableSize && p.pos <= 8 * |data| &&
      DecodeLoop(BitsOf(data)[p.pos..], p.t, p.prev, p.result) == DecodeAsWritten(BitsOf(data))
  {
    ghost var bits := BitsOf(data);
    var t := InitialTable();
    var first := GetNextCode(data, 0, 9);
    if first.Err? {
      DecodeShort(bits);
      return Done(Err(PdfReadError));
    }
    var c := first.value.0;
    assert c < TableSize && DecodeLoop(bits[9..], t, c, t.entries[c]) == DecodeAsWritten(bits) by {
      DecodeStart(bits);
      assert bits[..9] == bits[0..9];
    }
    return Continue(t, c, t.entries[c], 9);
  }

  /** Decoder.decode, step by step over the bytes with the chunked code
      reader; it computes exactly `DecodeAsWritten` on the bits of the data. */
  method Decode(data: seq<byte>) returns (r: Result<seq<byte>>)
    ensures r == LzwDecode(data)
  {
    var p := FirstPass(data);
    while p.Continue?
      invariant p.Continue? ==>
        ValidTable(p.t) && p.prev < TableSize && p.pos <= 8 * |data| &&
        DecodeLoop(BitsOf(data)[p.pos..], p.t, p.prev, p.result) == LzwDecode(data)
      invariant p.Done? ==> p.r == LzwDecode(data)
      decreases if p.Continue? then 8 * |data| - p.pos + 1 else 0
    {
      p := DecodePass(data, p.pos, p.t, p.prev, p.result);
    }
    return p.r;
  }

  // ---------------------------------------------------------------------
  // Streams of codes, and the leading-CLEAR discrepancy
  // ---------------------------------------------------------------------

  /** Reading a w-bit code back from its encoding. */
  lemma ReadCodeOfCode(v: nat, w: nat, rest: seq<bit>)
    requires v < Pow2(w)
    ensures ReadCode(Code(v, w) + rest, w) == Ok(v)
    ensures (Code(v, w) + rest)[w..] == rest
  {
    var b := Code(v, w) + rest;
    assert b[..w] == Code(v, w);
    ValueOfCode(v, w);
  }

  /** A table whose first 256 slots still hold the single bytes. */
  predicate LiteralTable(t: Table)
  {
    ValidTable(t) && forall i :: 0 <= i < 256 ==> t.entries[i] == [i as byte]
  }

  /** The codes of a stream that spells every byte out as a literal code,
      at the width the decoder will be using, followed by STOP: each code
      read grows the table by one slot. */
  function LiteralCodes(xs: seq<byte>, size: nat): (r: seq<bit>)
    decreases |xs|
  {
    if xs == [] then Code(Stop, WidthFor(size))
    else Code(xs[0], WidthFor(size)) + LiteralCodes(xs[1..], size + 1)
  }

  lemma DecodeLiteralStep(xs: seq<byte>, t: Table, t1: Table, prev: nat, result: seq<byte>, tail: seq<bit>)
    requires LiteralTable(t) && prev < TableSize && t.size + |xs| <= TableSize && xs != []
    requires AddCode(t, t.entries[prev] + [xs[0]]) == Ok(t1)
    ensures LiteralTable(t1) && t1.size == t.size + 1
    ensures DecodeLoop(LiteralCodes(xs, t.size) + tail, t, prev, result)
            == DecodeLoop(LiteralCodes(xs[1..], t1.size) + tail, t1, xs[0], result + [xs[0]])
  {
    WidthBound(t);
    var x := xs[0];
    var rest := LiteralCodes(xs[1..], t.size + 1) + tail;
    var bits := LiteralCodes(xs, t.size) + tail;
    assert bits == Code(x, t.width) + rest;
    ReadCodeOfCode(x, t.width, rest);
    LoopCode(bits, t, prev, result, x);
  }

  lemma AppendEmpty<T>(a: seq<T>, b: seq<T>)
    requires b == []
    ensures a + b == a
  {
  }

  lemma AppendHead<T>(a: seq<T>, b: seq<T>)
    requires b != []
    ensures a + [b[0]] + b[1..] == a + b
  {
    assert [b[0]] + b[1..] == b;
  }

  /** STOP at the table's width ends the literal stream. */
  lemma DecodeLiteralsEnd(t: Table, prev: nat, result: seq<byte>, tail: seq<bit>)
    requires LiteralTable(t) && prev < TableSize
    ensures DecodeLoop(LiteralCodes([], t.size) + tail, t, prev, result) == Ok(result)
  {
    WidthBound(t);
    assert Stop < Pow2(t.width);
    ReadCodeOfCode(Stop, t.width, tail);
    LoopStop(LiteralCodes([], t.size) + tail, t, prev, result);
  }

  /** A stream of literal codes decodes to its bytes, whatever follows
      STOP, as long as the table does not overflow. */
  lemma {:induction false} DecodeLiterals(xs: seq<byte>, t: Table, prev: nat, result: seq<byte>, tail: seq<bit>)
    requires LiteralTable(t) && prev < TableSize && t.size + |xs| <= TableSize
    ensures DecodeLoop(LiteralCodes(xs, t.size) + tail, t, prev, result) == Ok(result + xs)
    decreases |xs|
  {
    if xs == [] {
      DecodeLiteralsEnd(t, prev, result, tail);
      AppendEmpty(result, xs);
    } else {
      WidthBound(t);
      var t1 := AddCode(t, t.entries[prev] + [xs[0]]).value;
      DecodeLiteralStep(xs, t, t1, prev, result, tail);
      DecodeLiterals(xs[1..], t1, xs[0], result + [xs[0]], tail);
      AppendHead(result, xs);
    }
  }

  /** The codes of a literal-only stream as an encoder writes it: CLEAR,
      the first byte, the others, STOP. */
  function LiteralStream(data: seq<byte>): seq<bit>
    requires |data| >= 1
  {
    Code(Clear, 9) + (Code(data[0], 9) + LiteralCodes(data[1..], 258))
  }

  /** The corrected decoder on a stream opening with CLEAR and code c. */
  lemma CorrectedAfterClear(bits: seq<bit>, c: nat)
    requires ReadCode(bits, 9) == Ok(Clear) && ReadCode(bits[9..], 9) == Ok(c)
    ensures c < TableSize
    ensures DecodeCorrected(bits) == DecodeLoop(bits[18..], InitialTable(), c, InitialTable().entries[c])
  {
    WidthBound(InitialTable());
    DropDrop(bits, 9, 9);
  }

  /** The first two codes of a literal-only stream. */
  lemma LiteralStreamOpening(data: seq<byte>, tail: seq<bit>)
    requires |data| >= 1
    ensures ReadCode(LiteralStream(data) + tail, 9) == Ok(Clear)
    ensures ReadCode((LiteralStream(data) + tail)[9..], 9) == Ok(data[0])
    ensures (LiteralStream(data) + tail)[18..] == LiteralCodes(data[1..], 258) + tail
  {
    var rest := LiteralCodes(data[1..], 258) + tail;
    assert LiteralStream(data) + tail == Code(Clear, 9) + (Code(data[0], 9) + rest);
    TwoCodes(Clear, data[0], rest);
  }

  /** Two 9-bit codes in front of `rest` are read back in order. */
  lemma TwoCodes(a: nat, b: nat, rest: seq<bit>)
    requires a < 512 && b < 512
    ensures ReadCode(Code(a, 9) + (Code(b, 9) + rest), 9) == Ok(a)
    ensures ReadCode((Code(a, 9) + (Code(b, 9) + rest))[9..], 9) == Ok(b)
    ensures (Code(a, 9) + (Code(b, 9) + rest))[18..] == rest
  {
    Pow2Widths();
    var s := Code(b, 9) + rest;
    ReadCodeOfCode(a, 9, s);
    ReadCodeOfCode(b, 9, rest);
    assert (Code(a, 9) + s)[18..] == s[9..];
  }

  /** The literal codes after the first byte extend the output to `data`. */
  lemma LiteralStreamBody(data: seq<byte>, tail: seq<bit>)
    requires 1 <= |data| <= TableSize - 257
    ensures DecodeLoop(LiteralCodes(data[1..], 258) + tail, InitialTable(), data[0], InitialTable().entries[data[0]])
            == Ok(data)
  {
    var t := InitialTable();
    assert t.entries[data[0]] == [data[0]];
    DecodeLiterals(data[1..], t, data[0], [data[0]], tail);
    assert [data[0]] + data[1..] == data;
  }

  /** The corrected decoder reads a literal-only stream back.  The stream
      is written with the decoder's own code widths (`WidthFor`, which
      widens once the table reaches 512, 1024 and 2048 entries), so this
      round trip checks the decoder against itself on widths: it cannot tell
      the decoder's late width change from the early change of section
      7.4.4.2 of ISO 32000-1. */
  lemma LiteralStreamRoundTrip(data: seq<byte>, tail: seq<bit>)
    requires 1 <= |data| <= TableSize - 257
    ensures DecodeCorrected(LiteralStream(data) + tail) == Ok(data)
  {
    LiteralStreamOpening(data, tail);
    CorrectedAfterClear(LiteralStream(data) + tail, data[0]);
    LiteralStreamBody(data, tail);
  }

  /** When the stream does not open with CLEAR, the two decoders agree. */
  lemma CorrectedAgrees(bits: seq<bit>)
    requires ReadCode(bits, 9) != Ok(Clear)
    ensures DecodeCorrected(bits) == DecodeAsWritten(bits)
  {
  }

  /** Corrected: a leading CLEAR changes nothing, the table being fresh. */
  lemma LeadingClearIgnored(rest: seq<bit>)
    requires ReadCode(rest, 9) != Ok(Clear)
    ensures DecodeCorrected(Code(Clear, 9) + rest) == DecodeCorrected(rest)
  {
    var bits := Code(Clear, 9) + rest;
    Pow2Widths();
    ReadCodeOfCode(Clear, 9, rest);
    if |rest| >= 9 {
      DropDrop(bits, 9, 9);
    }
  }

  lemma DropDrop<T>(s: seq<T>, a: nat, b: nat)
    requires a + b <= |s|
    ensures s[a..][b..] == s[a + b..]
  {
  }

  /** The stream CLEAR, 'A', 'B', 258, STOP: an encoder's code 258 is "AB". */
  function ClearExample(): seq<bit>
  {
    Code(Clear, 9) + (Code(65, 9) + (Code(66, 9) + (Code(258, 9) + Code(Stop, 9))))
  }

  /** The five codes of `ClearExample` read back one after the other. */
  lemma ClearExampleCodes(s1: seq<bit>, s2: seq<bit>, s3: seq<bit>, s4: seq<bit>)
    requires s4 == Code(Stop, 9) && s3 == Code(258, 9) + s4
    requires s2 == Code(66, 9) + s3 && s1 == Code(65, 9) + s2
    ensures ReadCode(ClearExample(), 9) == Ok(Clear) && ClearExample()[9..] == s1
    ensures ReadCode(s1, 9) == Ok(65) && s1[9..] == s2
    ensures ReadCode(s2, 9) == Ok(66) && s2[9..] == s3
    ensures ReadCode(s3, 9) == Ok(258) && s3[9..] == s4
    ensures ReadCode(s4, 9) == Ok(Stop)
  {
    Pow2Widths();
    ReadCodeOfCode(Clear, 9, s1);
    ReadCodeOfCode(65, 9, s2);
    ReadCodeOfCode(66, 9, s3);
    ReadCodeOfCode(258, 9, s4);
    ReadCodeOfCode(Stop, 9, []);
    assert s4 + [] == s4;
  }

  /** As written, the leading CLEAR is taken as a string: the empty string
      of slot 256 starts the output, and "" + "A" is filed as code 258, so
      258 decodes to "A" and the output is "ABA"; the corrected decoder
      gives "ABAB". */
  lemma ClearCounterexample()
    ensures DecodeAsWritten(ClearExample()) == Ok([65, 66, 65])
    ensures DecodeCorrected(ClearExample()) == Ok([65, 66, 65, 66])
  {
    var s4 := Code(Stop, 9);
    var s3 := Code(258, 9) + s4;
    var s2 := Code(66, 9) + s3;
    var s1 := Code(65, 9) + s2;
    ClearExampleCodes(s1, s2, s3, s4);
    var t0 := InitialTable();
    assert t0.entries[Clear] == [] && t0.entries[65] == [65];
    AsWrittenSteps(t0, s1, s2, s3, s4);
    assert ClearExample()[18..] == s2;
    CorrectedSteps(t0, s2, s3, s4);
  }

  lemma AsWrittenSteps(t0: Table, s1: seq<bit>, s2: seq<bit>, s3: seq<bit>, s4: seq<bit>)
    requires t0 == InitialTable()
    requires ReadCode(s1, 9) == Ok(65) && s1[9..] == s2
    requires ReadCode(s2, 9) == Ok(66) && s2[9..] == s3
    requires ReadCode(s3, 9) == Ok(258) && s3[9..] == s4
    requires ReadCode(s4, 9) == Ok(Stop)
    ensures DecodeLoop(s1, t0, Clear, []) == Ok([65, 66, 65])
  {
    var A: seq<byte>, B: seq<byte> := [65], [66];
    assert t0.entries[65] == A && t0.entries[66] == B && t0.entries[Clear] == [];
    LoopCode(s1, t0, Clear, [], 65);
    assert t0.entries[Clear] + [t0.entries[65][0]] == A;
    var t1 := AddCode(t0, A).value;
    assert [] + A == A;
    assert DecodeLoop(s1, t0, Clear, []) == DecodeLoop(s2, t1, 65, A);
    assert t1.entries[258] == A && t1.entries[65] == A && t1.entries[66] == B && t1.width == 9;
    LoopCode(s2, t1, 65, A, 66);
    assert t1.entries[65] + [t1.entries[66][0]] == [65, 66];
    var t2 := AddCode(t1, [65, 66]).value;
    assert A + B == [65, 66];
    assert DecodeLoop(s2, t1, 65, A) == DecodeLoop(s3, t2, 66, [65, 66]);
    assert t2.entries[258] == A && t2.entries[66] == B && t2.width == 9;
    LoopCode(s3, t2, 66, [65, 66], 258);
    assert t2.entries[66] + [t2.entries[258][0]] == [66, 65];
    var t3 := AddCode(t2, [66, 65]).value;
    assert [65, 66] + A == [65, 66, 65];
    assert DecodeLoop(s3, t2, 66, [65, 66]) == DecodeLoop(s4, t3, 258, [65, 66, 65]);
    assert t3.width == 9;
    LoopStop(s4, t3, 258, [65, 66, 65]);
  }

  lemma CorrectedSteps(t0: Table, s2: seq<bit>, s3: seq<bit>, s4: seq<bit>)
    requires t0 == InitialTable()
    requires ReadCode(s2, 9) == Ok(66) && s2[9..] == s3
    requires ReadCode(s3, 9) == Ok(258) && s3[9..] == s4
    requires ReadCode(s4, 9) == Ok(Stop)
    ensures DecodeLoop(s2, t0, 65, [65]) == Ok([65, 66, 65, 66])
  {
    var A: seq<byte>, B: seq<byte> := [65], [66];
    assert t0.entries[65] == A && t0.entries[66] == B;
    LoopCode(s2, t0, 65, A, 66);
    assert t0.entries[65] + [t0.entries[66][0]] == [65, 66];
    var t1 := AddCode(t0, [65, 66]).value;
    assert A + B == [65, 66];
    assert DecodeLoop(s2, t0, 65, A) == DecodeLoop(s3, t1, 66, [65, 66]);
    assert t1.entries[258] == [65, 66] && t1.entries[66] == B && t1.width == 9;
    LoopCode(s3, t1, 66, [65, 66], 258);
    assert t1.entries[66] + [t1.entries[258][0]] == [66, 65];
    var t2 := AddCode(t1, [66, 65]).value;
    assert [65, 66] + [65, 66] == [65, 66, 65, 66];
    assert DecodeLoop(s3, t1, 66, [65, 66]) == DecodeLoop(s4, t2, 258, [65, 66, 65, 66]);
    assert t2.width == 9;
    LoopStop(s4, t2, 258, [65, 66, 65, 66]);
  }
}
