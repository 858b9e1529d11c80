/**
 * The bit-field reader `getBitField(data, startBit, numBits)`.
 *
 * Bits are numbered big-endian and byte-major: bit 0 is the most significant
 * bit of byte 0, bit 7 its least significant bit, bit 8 the most significant
 * bit of byte 1, and so on.  The field is returned right-aligned, its first
 * bit the most significant.  Reading a field changes nothing: the model takes
 * the buffer as a value.
 */
module BitField {
  import opened Bytes

  function Pow2(n: nat): (r: nat)
    ensures r >= 1
  {
    if n == 0 then 1 else 2 * Pow2(n - 1)
  }

  /** `x` shifted right by `s` bits. */
  function Shr(x: nat, s: nat): nat
  {
    if s == 0 then x else Shr(x / 2, s - 1)
  }

  /** Bit `i` of `x`, counting from the least significant bit. */
  predicate BitOf(x: nat, i: nat)
  {
    Shr(x, i) % 2 == 1
  }

  /** The eight bits of `b`, most significant first. */
  function ByteBits(b: byte): (r: seq<bool>)
    ensures |r| == 8
  {
    [BitOf(b, 7), BitOf(b, 6), BitOf(b, 5), BitOf(b, 4), BitOf(b, 3), BitOf(b, 2), BitOf(b, 1), BitOf(b, 0)]
  }

  /** The bits of `buf` in big-endian, byte-major order: the bits of each byte, most significant first, byte after byte. */
  function Bits(buf: seq<byte>): (r: seq<bool>)
    ensures |r| == 8 * |buf|
  {
    if buf == [] then [] else Bits(buf[..|buf| - 1]) + ByteBits(buf[|buf| - 1])
  }

  /** The bits `start .. start + width - 1` of `bits` read as a number, the first bit most significant. */
  function FieldValue(bits: seq<bool>, start: nat, width: nat): (r: nat)
    requires start + width <= |bits|
    ensures r < Pow2(width)
    decreases start + width
  {
    if width == 0 then 0
    else 2 * FieldValue(bits, start, width - 1) + (if bits[start + width - 1] then 1 else 0)
  }

  /** getBitField: the `numBits` bits of `buf` starting at bit `startBit`. */
  function GetBitField(buf: seq<byte>, startBit: nat, numBits: nat): (r: nat)
    requires startBit + numBits <= 8 * |buf|
    ensures r < Pow2(numBits)
  {
    FieldValue(Bits(buf), startBit, numBits)
  }

  /** Reference definition of the numbering: bit `8 * j + i` is bit `7 - i` of byte `j`. */
  lemma {:induction false} BitsIndex(buf: seq<byte>, j: nat, i: nat)
    requires j < |buf| && i < 8
    ensures Bits(buf)[8 * j + i] == BitOf(buf[j], 7 - i)
    decreases |buf|
  {
    var n := |buf| - 1;
    if j < n {
      BitsIndex(buf[..n], j, i);
    }
  }

  /** The bits of two buffers side by side are their bits side by side. */
  lemma {:induction false} BitsAppend(a: seq<byte>, b: seq<byte>)
    ensures Bits(a + b) == Bits(a) + Bits(b)
    decreases |b|
  {
    if b != [] {
      var n := |b| - 1;
      assert (a + b)[..|a + b| - 1] == a + b[..n];
      BitsAppend(a, b[..n]);
    } else {
      assert a + b == a;
    }
  }

  // Arithmetic helpers

  lemma DivModUnique(x: nat, d: nat, q: nat, r: nat)
    requires 0 <= r < d
    requires x == q * d + r
    ensures x / d == q && x % d == r
  {
    var q0, r0 := x / d, x % d;
    assert x == q0 * d + r0;
    if q0 < q {
      MulAtLeastSelf(q - q0, d);
    } else if q < q0 {
      MulAtLeastSelf(q0 - q, d);
    }
  }

  /** Kept apart from DivModUnique: in that lemma's context the product is too costly for the solver. */
  lemma MulAtLeastSelf(a: int, d: nat)
    requires a >= 1
    ensures a * d >= d
  {
  }

  lemma Pow2Constants()
    ensures Pow2(4) == 16 && Pow2(8) == 256
  {
  }

  /** Shifting right by `s` is shifting by `s + 1`, doubled, plus the bit shifted out. */
  lemma {:induction false} ShrStep(x: nat, s: nat)
    ensures Shr(x, s) == 2 * Shr(x, s + 1) + (if BitOf(x, s) then 1 else 0)
    decreases s
  {
    if s > 0 {
      ShrStep(x / 2, s - 1);
    }
  }

  /** Shifting a number below `2^s` right by `s` bits leaves nothing. */
  lemma {:induction false} ShrBelow(x: nat, s: nat)
    requires x < Pow2(s)
    ensures Shr(x, s) == 0
  {
    if s > 0 {
      ShrBelow(x / 2, s - 1);
    }
  }

  /** One more low bit, over abstract numbers: kept apart because the solver cannot do it among the FieldValue facts. */
  lemma ShiftStep(x: nat, y: nat, a: nat, p: nat, c: nat, b: nat)
    requires x == 2 * y + b && y == a * p + c
    ensures x == a * (2 * p) + (2 * c + b)
  {
  }

  // Laws of FieldValue and GetBitField

  /** Two adjacent fields read together are the first shifted left past the second. */
  lemma {:induction false} FieldValueConcat(bits: seq<bool>, start: nat, m: nat, n: nat)
    requires start + m + n <= |bits|
    ensures FieldValue(bits, start, m + n)
         == FieldValue(bits, start, m) * Pow2(n) + FieldValue(bits, start + m, n)
    decreases n
  {
    if n > 0 {
      FieldValueConcat(bits, start, m, n - 1);
      ShiftStep(FieldValue(bits, start, m + n), FieldValue(bits, start, m + n - 1),
                FieldValue(bits, start, m), Pow2(n - 1), FieldValue(bits, start + m, n - 1),
                if bits[start + m + n - 1] then 1 else 0);
    }
  }

  /** A field depends only on the bits it spans. */
  lemma {:induction false} FieldValueSameBits(bits: seq<bool>, other: seq<bool>, start: nat, width: nat)
    requires start + width <= |bits| && start + width <= |other|
    requires bits[start..start + width] == other[start..start + width]
    ensures FieldValue(bits, start, width) == FieldValue(other, start, width)
    decreases width
  {
    if width > 0 {
      assert bits[start + width - 1] == bits[start..start + width][width - 1];
      assert other[start + width - 1] == other[start..start + width][width - 1];
      assert bits[start..start + width - 1] == bits[start..start + width][..width - 1];
      assert other[start..start + width - 1] == other[start..start + width][..width - 1];
      FieldValueSameBits(bits, other, start, width - 1);
    }
  }

  /** Adjacent fields of getBitField concatenate. */
  lemma GetBitFieldConcat(buf: seq<byte>, startBit: nat, m: nat, n: nat)
    requires startBit + m + n <= 8 * |buf|
    ensures GetBitField(buf, startBit, m + n)
         == GetBitField(buf, startBit, m) * Pow2(n) + GetBitField(buf, startBit + m, n)
  {
    FieldValueConcat(Bits(buf), startBit, m, n);
  }

  /** The first `j` bits of byte `k` are that byte shifted right by `8 - j`. */
  lemma {:induction false} GetBitFieldInByte(buf: seq<byte>, k: nat, j: nat)
    requires k < |buf| && j <= 8
    ensures GetBitField(buf, 8 * k, j) == Shr(buf[k], 8 - j)
  {
    if j == 0 {
      Pow2Constants();
      ShrBelow(buf[k], 8);
    } else {
      GetBitFieldInByte(buf, k, j - 1);
      BitsIndex(buf, k, j - 1);
      ShrStep(buf[k], 8 - j);
    }
  }

  /** A field on a byte boundary eight bits wide is that byte. */
  lemma GetBitFieldWholeByte(buf: seq<byte>, k: nat)
    requires k < |buf|
    ensures GetBitField(buf, 8 * k, 8) == buf[k]
  {
    GetBitFieldInByte(buf, k, 8);
  }

  /** Bytes after the field are never read. */
  lemma GetBitFieldPrefix(buf: seq<byte>, more: seq<byte>, startBit: nat, numBits: nat)
    requires startBit + numBits <= 8 * |buf|
    ensures GetBitField(buf + more, startBit, numBits) == GetBitField(buf, startBit, numBits)
  {
    var long, short := Bits(buf + more), Bits(buf);
    BitsAppend(buf, more);
    assert long[startBit..startBit + numBits] == short[startBit..startBit + numBits];
    FieldValueSameBits(long, short, startBit, numBits);
  }

  /** The field spanning the whole buffer is the buffer's big-endian value. */
  lemma {:induction false} GetBitFieldWholeBuffer(buf: seq<byte>)
    ensures GetBitField(buf, 0, 8 * |buf|) == BeValue(buf)
  {
    if buf != [] {
      var n := |buf| - 1;
      var m := 8 * n;
      assert 8 * |buf| == m + 8;
      var init, last := buf[..n], buf[n];
      var bits := Bits(buf);
      assert bits == Bits(init) + ByteBits(last);
      GetBitFieldWholeBuffer(init);
      assert bits[0..m] == Bits(init)[0..m];
      FieldValueSameBits(bits, Bits(init), 0, m);
      GetBitFieldWholeByte(buf, n);
      FieldValueAppendByte(bits, m);
    }
  }

  /** A field followed by eight more bits is the field times 256 plus those bits. */
  lemma FieldValueAppendByte(bits: seq<bool>, m: nat)
    requires m + 8 <= |bits|
    ensures FieldValue(bits, 0, m + 8) == 256 * FieldValue(bits, 0, m) + FieldValue(bits, m, 8)
  {
    var high, low, p := FieldValue(bits, 0, m), FieldValue(bits, m, 8), Pow2(8);
    FieldValueConcat(bits, 0, m, 8);
    Pow2Constants();
    assert high * p == 256 * high;
  }

  /** Arithmetic core of GetBitFieldShiftMask: a number split into three digit groups. */
  lemma SplitThree(v: nat, top: nat, high: nat, field: nat, low: nat, p: nat, q: nat)
    requires field < p && low < q
    requires v == top * q + low && top == high * p + field
    ensures field == (v / q) % p
  {
    DivModUnique(v, q, top, low);
    DivModUnique(top, p, high, field);
  }

  /**
   * Reference definition: the field is the buffer's big-endian value shifted
   * right past the bits after the field and masked to `numBits` bits.
   */
  lemma GetBitFieldShiftMask(buf: seq<byte>, startBit: nat, numBits: nat)
    requires startBit + numBits <= 8 * |buf|
    ensures GetBitField(buf, startBit, numBits)
         == (BeValue(buf) / Pow2(8 * |buf| - startBit - numBits)) % Pow2(numBits)
  {
    var rest := 8 * |buf| - startBit - numBits;
    GetBitFieldWholeBuffer(buf);
    GetBitFieldConcat(buf, 0, startBit + numBits, rest);
    GetBitFieldConcat(buf, 0, startBit, numBits);
    SplitThree(BeValue(buf), GetBitField(buf, 0, startBit + numBits), GetBitField(buf, 0, startBit),
               GetBitField(buf, startBit, numBits), GetBitField(buf, startBit + numBits, rest),
               Pow2(numBits), Pow2(rest));
  }

  // The cases of the one-byte test: the buffer `data` is the single byte 0xFA.

  /** In a one-byte buffer, bits 0..7 are the byte, and bits 0..3 are its high nibble followed by bits 4..7. */
  lemma OneByteFields(b: byte)
    ensures GetBitField([b], 0, 4) == Shr(b, 4)
    ensures GetBitField([b], 0, 8) == b
    ensures GetBitField([b], 0, 4) * 16 + GetBitField([b], 4, 4) == b
  {
    GetBitFieldInByte([b], 0, 4);
    GetBitFieldWholeByte([b], 0);
    GetBitFieldConcat([b], 0, 4, 4);
    Pow2Constants();
  }

  /** Bits 0..3 of 0xFA are its high nibble 0xF: bit 0 is the most significant bit. */
  lemma OneByteHighNibble(data: seq<byte>)
    requires data == [0xFA]
    ensures GetBitField(data, 0, 4) == 0xF
  {
    OneByteFields(data[0]);
  }

  /** Bits 4..7 of 0xFA are its low nibble 0xA. */
  lemma OneByteLowNibble(data: seq<byte>)
    requires data == [0xFA]
    ensures GetBitField(data, 4, 4) == 0xA
  {
    OneByteFields(data[0]);
  }

  /** Bits 0..7 of 0xFA are the whole byte. */
  lemma OneByteWhole(data: seq<byte>)
    requires data == [0xFA]
    ensures GetBitField(data, 0, 8) == 0xFA
  {
    OneByteFields(data[0]);
  }

  /** For every byte, the whole byte is its high nibble followed by its low nibble. */
  lemma NibblesConcatenate(b: byte)
    ensures GetBitField([b], 0, 8) == GetBitField([b], 0, 4) * 16 + GetBitField([b], 4, 4)
  {
    GetBitFieldConcat([b], 0, 4, 4);
    Pow2Constants();
  }
}
