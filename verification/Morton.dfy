/**
 Z-order codec for chunk-local coordinates: five bits per axis, x owns bit 0.

 The shift-and-mask code works on 32-bit words. `Index` is what those words mean as
 numbers: the arithmetic interleaving of three coordinates. `EncodeIsIndex` and
 `DecodeIsPos` connect the two, and the other modules index cells by `Index`.
 */
module Morton {
  import opened Arithmetic

  const AXIS_MASK: bv32 := 0x1F

  datatype LocalPos = LocalPos(x: bv32, y: bv32, z: bv32)

  datatype Cell = Cell(x: nat, y: nat, z: nat)

  /** Bit i of the low five bits moves to bit 3i. */
  function Spread3(v: bv32): bv32 {
    var v0 := v & AXIS_MASK;
    var v1 := (v0 | (v0 << 8)) & 0x0100F;
    var v2 := (v1 | (v1 << 4)) & 0x010C3;
    (v2 | (v2 << 2)) & 0x09249
  }

  /** Bits 0, 3, 6, 9 and 12 move back to the low five bits. */
  function Gather3(v: bv32): bv32 {
    var v0 := v & 0x09249;
    var v1 := (v0 | (v0 >> 2)) & 0x010C3;
    var v2 := (v1 | (v1 >> 4)) & 0x0100F;
    (v2 | (v2 >> 8)) & AXIS_MASK
  }

  function Encode(p: LocalPos): bv32 {
    Spread3(p.x) | (Spread3(p.y) << 1) | (Spread3(p.z) << 2)
  }

  function Decode(code: bv32): LocalPos {
    LocalPos(Gather3(code), Gather3(code >> 1), Gather3(code >> 2))
  }

  /** Decoding undoes encoding on every word: only the low five bits of each axis survive. */
  lemma DecodeEncode(p: LocalPos)
    ensures Decode(Encode(p)) == LocalPos(p.x & AXIS_MASK, p.y & AXIS_MASK, p.z & AXIS_MASK)
  {
  }

  /** Encoding undoes decoding on every word: only the low fifteen bits survive. */
  lemma EncodeDecode(code: bv32)
    ensures Encode(Decode(code)) == code & 0x7FFF
  {
  }

  /** Every aligned 8x8x8 brick is one contiguous run of 512 codes. */
  lemma BrickRun(p: LocalPos)
    requires p.x < 32 && p.y < 32 && p.z < 32
    ensures var base := Encode(LocalPos(p.x >> 3, p.y >> 3, p.z >> 3));
            var low := Encode(LocalPos(p.x & 7, p.y & 7, p.z & 7));
            low < 512 && Encode(p) == (base << 9) + low
  {
  }

  /** The number held in the low n bits of a word. */
  function Value(b: bv32, n: nat): (v: nat)
  {
    if n == 0 then 0 else (if b & 1 == 1 then 1 else 0) + 2 * Value(b >> 1, n - 1)
  }

  /** Three coordinates with their bits interleaved, x lowest. */
  function Index(x: nat, y: nat, z: nat): nat
    decreases x + y + z
  {
    if x == 0 && y == 0 && z == 0 then 0
    else x % 2 + 2 * (y % 2) + 4 * (z % 2) + 8 * Index(x / 2, y / 2, z / 2)
  }

  /** The coordinates whose bits are interleaved in i. */
  function Pos(i: nat): (c: Cell) {
    if i == 0 then Cell(0, 0, 0)
    else
      var c := Pos(i / 8);
      Cell(i % 2 + 2 * c.x, (i / 2) % 2 + 2 * c.y, (i / 4) % 2 + 2 * c.z)
  }

  lemma Unfold(x: nat, y: nat, z: nat)
    ensures Index(x, y, z) == x % 2 + 2 * (y % 2) + 4 * (z % 2) + 8 * Index(x / 2, y / 2, z / 2)
  {
    assert Index(0, 0, 0) == 0;
  }

  /** The low 3n bits of e are the low n bits of a, b and c in turn. */
  ghost predicate Zipped(e: bv32, a: bv32, b: bv32, c: bv32, n: nat) {
    n == 0 ||
    (e & 1 == a & 1 && (e >> 1) & 1 == b & 1 && ((e >> 1) >> 1) & 1 == c & 1 &&
     Zipped(e >> 3, a >> 1, b >> 1, c >> 1, n - 1))
  }

  lemma EncodeHalves(p: LocalPos)
    requires p.x < 32 && p.y < 32 && p.z < 32
    ensures p.x >> 1 < 32 && p.y >> 1 < 32 && p.z >> 1 < 32
    ensures Encode(p) >> 3 == Encode(LocalPos(p.x >> 1, p.y >> 1, p.z >> 1))
    ensures Encode(p) & 1 == p.x & 1
    ensures (Encode(p) >> 1) & 1 == p.y & 1
    ensures ((Encode(p) >> 1) >> 1) & 1 == p.z & 1
  {
  }

  lemma {:induction false} EncodeZips(p: LocalPos, n: nat)
    requires p.x < 32 && p.y < 32 && p.z < 32
    ensures Zipped(Encode(p), p.x, p.y, p.z, n)
    decreases n
  {
    if n > 0 {
      EncodeHalves(p);
      EncodeZips(LocalPos(p.x >> 1, p.y >> 1, p.z >> 1), n - 1);
    }
  }

  lemma {:induction false} ZippedIsIndex(e: bv32, a: bv32, b: bv32, c: bv32, n: nat)
    requires Zipped(e, a, b, c, n)
    ensures Value(e, 3 * n) == Index(Value(a, n), Value(b, n), Value(c, n))
    decreases n
  {
    if n > 0 {
      ZippedIsIndex(e >> 3, a >> 1, b >> 1, c >> 1, n - 1);
      OneBit(a, n);
      OneBit(b, n);
      OneBit(c, n);
      ThreeBits(e, 3 * n);
      Unfold(Value(a, n), Value(b, n), Value(c, n));
    }
  }

  /** The bit code computes the arithmetic interleaving. */
  lemma EncodeIsIndex(p: LocalPos)
    requires p.x < 32 && p.y < 32 && p.z < 32
    ensures Value(Encode(p), 15) == Index(Value(p.x, 5), Value(p.y, 5), Value(p.z, 5))
  {
    EncodeZips(p, 5);
    ZippedIsIndex(Encode(p), p.x, p.y, p.z, 5);
  }

  /** Decoding a code gives the coordinates interleaved in its number. */
  lemma DecodeIsPos(code: bv32)
    ensures var p := Decode(code);
            Pos(Value(code & 0x7FFF, 15)) == Cell(Value(p.x, 5), Value(p.y, 5), Value(p.z, 5))
  {
    var p := Decode(code);
    DecodeRange(code);
    EncodeDecode(code);
    EncodeIsIndex(p);
    PosOfIndex(Value(p.x, 5), Value(p.y, 5), Value(p.z, 5));
  }

  lemma DecodeRange(code: bv32)
    ensures var p := Decode(code); p.x < 32 && p.y < 32 && p.z < 32
  {
  }

  lemma OneBit(b: bv32, n: nat)
    requires n > 0
    ensures Value(b, n) % 2 == (if b & 1 == 1 then 1 else 0) && Value(b, n) / 2 == Value(b >> 1, n - 1)
  {
  }

  lemma ThreeBits(b: bv32, n: nat)
    requires n >= 3
    ensures Value(b, n) == (if b & 1 == 1 then 1 else 0) + 2 * (if (b >> 1) & 1 == 1 then 1 else 0)
                        + 4 * (if ((b >> 1) >> 1) & 1 == 1 then 1 else 0) + 8 * Value(b >> 3, n - 3)
  {
    assert ((b >> 1) >> 1) >> 1 == b >> 3;
    assert Value(b >> 1, n - 1) == (if (b >> 1) & 1 == 1 then 1 else 0) + 2 * Value((b >> 1) >> 1, n - 2);
  }

  lemma OctalDigit(a: nat, b: nat, c: nat, h: nat)
    requires a < 2 && b < 2 && c < 2
    ensures var i := a + 2 * b + 4 * c + 8 * h;
            i / 8 == h && i % 2 == a && (i / 2) % 2 == b && (i / 4) % 2 == c
  {
    var i := a + 2 * b + 4 * c + 8 * h;
    assert i / 2 == b + 2 * c + 4 * h;
    assert i / 4 == c + 2 * h;
  }

  lemma Halve(a: nat, h: nat)
    requires a < 2
    ensures (a + 2 * h) / 2 == h && (a + 2 * h) % 2 == a
  {
  }

  lemma PosOfDigits(a: nat, b: nat, c: nat, h: nat, i: nat, low: Cell)
    requires a < 2 && b < 2 && c < 2 && i == a + 2 * b + 4 * c + 8 * h && low == Pos(h)
    ensures Pos(i) == Cell(a + 2 * low.x, b + 2 * low.y, c + 2 * low.z)
  {
    OctalDigit(a, b, c, h);
    assert Pos(0) == Cell(0, 0, 0);
  }

  lemma {:induction false} PosOfIndex(x: nat, y: nat, z: nat)
    ensures Pos(Index(x, y, z)) == Cell(x, y, z)
    decreases x + y + z
  {
    if x + y + z > 0 {
      var low := Cell(x / 2, y / 2, z / 2);
      PosOfIndex(low.x, low.y, low.z);
      Unfold(x, y, z);
      PosOfDigits(x % 2, y % 2, z % 2, Index(low.x, low.y, low.z), Index(x, y, z), low);
    }
  }

  /** Bit 3i of the index is bit i of x, and the two bits above it are those of y and z. */
  lemma {:induction false} IndexBits(x: nat, y: nat, z: nat, i: nat)
    ensures var m := Index(x, y, z);
            BitOf(m, 3 * i) == BitOf(x, i) && BitOf(m, 3 * i + 1) == BitOf(y, i) && BitOf(m, 3 * i + 2) == BitOf(z, i)
    decreases i
  {
    Unfold(x, y, z);
    OctalDigit(x % 2, y % 2, z % 2, Index(x / 2, y / 2, z / 2));
    if i == 0 {
      LowBits(x, y, z);
      LowBits(Index(x, y, z), 0, 0);
    } else {
      IndexBits(x / 2, y / 2, z / 2, i - 1);
      EighthBit(Index(x, y, z), 3 * i);
      EighthBit(Index(x, y, z), 3 * i + 1);
      EighthBit(Index(x, y, z), 3 * i + 2);
      HalfBit(x, i);
      HalfBit(y, i);
      HalfBit(z, i);
    }
  }

  lemma LowBits(x: nat, y: nat, z: nat)
    ensures BitOf(x, 0) == x % 2 && BitOf(y, 0) == y % 2 && BitOf(z, 0) == z % 2
    ensures BitOf(x, 1) == (x / 2) % 2 && BitOf(x, 2) == (x / 4) % 2
  {
    assert Pow(2, 0) == 1 && Pow(2, 1) == 2 && Pow(2, 2) == 4;
  }

  lemma EighthBit(v: nat, i: nat)
    requires i >= 3
    ensures BitOf(v, i) == BitOf(v / 8, i - 3)
  {
    HalfBit(v, i);
    HalfBit(v / 2, i - 1);
    HalfBit(v / 2 / 2, i - 2);
    assert v / 2 / 2 / 2 == v / 8;
  }

  lemma IndexOfDigits(a: nat, b: nat, c: nat, x: nat, y: nat, z: nat)
    requires a < 2 && b < 2 && c < 2
    ensures Index(a + 2 * x, b + 2 * y, c + 2 * z) == a + 2 * b + 4 * c + 8 * Index(x, y, z)
  {
    Halve(a, x);
    Halve(b, y);
    Halve(c, z);
    Unfold(a + 2 * x, b + 2 * y, c + 2 * z);
  }

  lemma {:induction false} IndexOfPos(i: nat)
    ensures var c := Pos(i); Index(c.x, c.y, c.z) == i
  {
    if i > 0 {
      IndexOfPos(i / 8);
      OctalSplit(i);
      IndexOfNextPos(i, Pos(i / 8), Pos(i));
    }
  }

  lemma IndexOfNextPos(i: nat, h: Cell, c: Cell)
    requires c == Cell(i % 2 + 2 * h.x, (i / 2) % 2 + 2 * h.y, (i / 4) % 2 + 2 * h.z)
    ensures Index(c.x, c.y, c.z) == i % 2 + 2 * ((i / 2) % 2) + 4 * ((i / 4) % 2) + 8 * Index(h.x, h.y, h.z)
  {
    IndexOfDigits(i % 2, (i / 2) % 2, (i / 4) % 2, h.x, h.y, h.z);
  }

  lemma OctalSplit(i: nat)
    ensures i == i % 2 + 2 * ((i / 2) % 2) + 4 * ((i / 4) % 2) + 8 * (i / 8)
  {
    assert i / 2 / 2 == i / 4 && i / 4 / 2 == i / 8;
  }

  /** The cube of edge 2^l occupies exactly the indices below 8^l. */
  lemma {:induction false} CubeIsPrefix(x: nat, y: nat, z: nat, l: nat)
    ensures (x < Pow(2, l) && y < Pow(2, l) && z < Pow(2, l)) <==> Index(x, y, z) < Pow(8, l)
  {
    if l == 0 {
      if Index(x, y, z) == 0 && x + y + z > 0 { CubeIsPrefix(x / 2, y / 2, z / 2, 0); }
    } else {
      CubeIsPrefix(x / 2, y / 2, z / 2, l - 1);
      HalfBelow(x, Pow(2, l - 1));
      HalfBelow(y, Pow(2, l - 1));
      HalfBelow(z, Pow(2, l - 1));
      assert Pow(2, l) == 2 * Pow(2, l - 1) && Pow(8, l) == 8 * Pow(8, l - 1);
    }
  }

  lemma HalfBelow(x: nat, p: nat)
    ensures x / 2 < p <==> x < 2 * p
  {
  }
}
