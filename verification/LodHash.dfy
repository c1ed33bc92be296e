/** The Merkle hash of the LOD pyramid: FNV-1a over level, presence mask and the present children. */
module LodHash {
  import opened Arithmetic
  import opened Bytes

  const FNV_OFFSET := 0xCBF2_9CE4_8422_2325
  const FNV_PRIME := 0x100_0000_01B3
  const WORD := 0x1_0000_0000_0000_0000

  /** Multiplicative inverse of the prime modulo 2^64, and the multiple of 2^64 it leaves over. */
  const FNV_INVERSE := 0xCE96_5057_AFF6_957B
  const FNV_OVER := 887_285_111_055

  /** Exclusive or of the n low bits. */
  function Xor(a: nat, b: nat, n: nat): (x: nat)
    ensures x < Pow(2, n)
  {
    if n == 0 then 0 else (if a % 2 != b % 2 then 1 else 0) + 2 * Xor(a / 2, b / 2, n - 1)
  }

  lemma {:induction false} XorInjective(a: nat, b: nat, c: nat, n: nat)
    requires a < Pow(2, n) && b < Pow(2, n)
    ensures Xor(a, c, n) == Xor(b, c, n) ==> a == b
    ensures Xor(c, a, n) == Xor(c, b, n) ==> a == b
  {
    if n > 0 {
      XorInjective(a / 2, b / 2, c / 2, n - 1);
    }
  }

  /** Each bit of the result is one where the bits of the operands differ. */
  lemma {:induction false} XorBits(a: nat, b: nat, n: nat, i: nat)
    requires i < n
    ensures BitOf(Xor(a, b, n), i) == if BitOf(a, i) != BitOf(b, i) then 1 else 0
  {
    XorHalves(a, b, n);
    if i == 0 {
      LowBit(a);
      LowBit(b);
      LowBit(Xor(a, b, n));
    } else {
      XorBits(a / 2, b / 2, n - 1, i - 1);
      HalfBit(a, i);
      HalfBit(b, i);
      HalfBit(Xor(a, b, n), i);
    }
  }

  lemma XorHalves(a: nat, b: nat, n: nat)
    requires n > 0
    ensures Xor(a, b, n) % 2 == if a % 2 != b % 2 then 1 else 0
    ensures Xor(a, b, n) / 2 == Xor(a / 2, b / 2, n - 1)
  {
  }

  lemma LowBit(v: nat)
    ensures BitOf(v, 0) == v % 2
  {
    assert Pow(2, 0) == 1;
  }

  /** A byte is mixed into the low eight bits. */
  function XorLow(h: u64, b: byte): (x: u64)
  {
    ByteRange();
    h - h % 256 + Xor(h % 256, b, 8)
  }

  lemma ByteRange()
    ensures Pow(2, 8) == 256
  {
    assert Pow(2, 4) == 16;
  }

  /** One FNV-1a step. */
  function Eat(h: u64, b: byte): u64 {
    (XorLow(h, b) * FNV_PRIME) % WORD
  }

  function FnvFrom(h: u64, bytes: seq<byte>): u64
    decreases |bytes|
  {
    if bytes == [] then h else Eat(FnvFrom(h, bytes[..|bytes| - 1]), bytes[|bytes| - 1])
  }

  function Fnv(bytes: seq<byte>): u64 {
    FnvFrom(FNV_OFFSET, bytes)
  }

  lemma FnvNext(h: u64, bytes: seq<byte>, b: byte)
    ensures FnvFrom(h, bytes + [b]) == Eat(FnvFrom(h, bytes), b)
  {
    assert (bytes + [b])[..|bytes|] == bytes;
  }

  method HashBytes(bytes: seq<byte>, seed: u64 := FNV_OFFSET) returns (h: u64)
    ensures h == FnvFrom(seed, bytes)
  {
    h := seed;
    for i := 0 to |bytes|
      invariant h == FnvFrom(seed, bytes[..i])
    {
      FnvNext(seed, bytes[..i], bytes[i]);
      assert bytes[..i + 1] == bytes[..i] + [bytes[i]];
      h := Eat(h, bytes[i]);
    }
    assert bytes[..|bytes|] == bytes;
  }

  /** The published values of the 64-bit hash for the empty input and for the letter a. */
  lemma KnownHashes()
    ensures Fnv([]) == 0xCBF2_9CE4_8422_2325
    ensures Fnv([0x61]) == 0xAF63_DC4C_8601_EC8C
  {
    FnvNext(FNV_OFFSET, [], 0x61);
    assert [] + [0x61 as byte] == [0x61];
    EatLetter();
  }

  lemma EatLetter()
    ensures Eat(0xCBF2_9CE4_8422_2325, 0x61) == 0xAF63_DC4C_8601_EC8C
  {
    XorOfLetter();
    assert 0xCBF2_9CE4_8422_2325 % 256 == 0x25;
    assert XorLow(0xCBF2_9CE4_8422_2325, 0x61) == 0xCBF2_9CE4_8422_2344;
  }

  lemma XorOfLetter()
    ensures Xor(0x25, 0x61, 8) == 0x44
  {
    assert Xor(0x2, 0x6, 4) == 0x4;
  }

  /* ----- no step loses anything ----- */

  lemma XorLowInjective(h: u64, k: u64, b: byte, c: byte)
    ensures XorLow(h, b) == XorLow(k, b) ==> h == k
    ensures XorLow(h, b) == XorLow(h, c) ==> b == c
  {
    ByteRange();
    XorInjective(h % 256, k % 256, b, 8);
    XorInjective(b, c, h % 256, 8);
    LowByte(h, Xor(h % 256, b, 8));
    LowByte(k, Xor(k % 256, b, 8));
  }

  lemma LowByte(h: u64, x: byte)
    ensures (h - h % 256 + x) % 256 == x && (h - h % 256 + x) / 256 == h / 256
  {
  }

  lemma Undo(d: int, k: int)
    requires d * FNV_PRIME == k * WORD
    ensures d == (k * FNV_INVERSE - d * FNV_OVER) * WORD
  {
    assert FNV_PRIME * FNV_INVERSE == 1 + FNV_OVER * WORD;
  }

  lemma OnlyZero(d: int, m: int)
    requires -WORD < d < WORD && d == m * WORD
    ensures d == 0
  {
  }

  /** The prime is odd, so multiplying by it modulo 2^64 can be undone. */
  lemma TimesPrimeInjective(x: u64, y: u64)
    requires (x * FNV_PRIME) % WORD == (y * FNV_PRIME) % WORD
    ensures x == y
  {
    var k := x * FNV_PRIME / WORD - y * FNV_PRIME / WORD;
    Undo(x - y, k);
    OnlyZero(x - y, k * FNV_INVERSE - (x - y) * FNV_OVER);
  }

  lemma EatInjective(h: u64, k: u64, b: byte, c: byte)
    ensures Eat(h, b) == Eat(k, b) ==> h == k
    ensures Eat(h, b) == Eat(h, c) ==> b == c
  {
    XorLowInjective(h, k, b, c);
    if Eat(h, b) == Eat(k, b) {
      TimesPrimeInjective(XorLow(h, b), XorLow(k, b));
    }
    if Eat(h, b) == Eat(h, c) {
      TimesPrimeInjective(XorLow(h, b), XorLow(h, c));
    }
  }

  /** Two inputs of equal length that differ in exactly one byte never share a hash. */
  lemma {:induction false} OneByteChangesHash(h: u64, a: seq<byte>, b: seq<byte>, i: nat)
    requires |a| == |b| && i < |a| && a[i] != b[i]
    requires forall j :: 0 <= j < |a| && j != i ==> a[j] == b[j]
    ensures FnvFrom(h, a) != FnvFrom(h, b)
    decreases |a|
  {
    var n := |a| - 1;
    EatInjective(FnvFrom(h, a[..n]), FnvFrom(h, b[..n]), a[n], b[n]);
    if i == n {
      assert a[..n] == b[..n];
    } else {
      OneByteChangesHash(h, a[..n], b[..n], i);
    }
  }

  /* ----- the hash of an interior node ----- */

  /** Hashes of the present children in octant order. */
  type Children = cs: seq<Option<u64>> | |cs| == 8 witness [None, None, None, None, None, None, None, None]

  function Bit(present: bool, i: nat): nat {
    if present then Pow(2, i) else 0
  }

  function MaskFrom(cs: Children, i: nat): (m: nat)
    requires i <= 8
    ensures m < Pow(2, i)
  {
    if i == 0 then 0 else MaskFrom(cs, i - 1) + Bit(cs[i - 1].Some?, i - 1)
  }

  /** One bit an octant: is the child there? */
  function PresenceMask(cs: Children): byte {
    ByteRange();
    MaskFrom(cs, 8)
  }

  function ChildBytes(cs: Children, n: nat): seq<byte>
    requires n <= 8
  {
    if n == 0 then []
    else ChildBytes(cs, n - 1) + (if cs[n - 1].Some? then LE(cs[n - 1].value, 8) else [])
  }

  /** Level, presence mask, then the present children's hashes, eight little-endian bytes each. */
  function HashInput(level: byte, cs: Children): seq<byte> {
    [level, PresenceMask(cs)] + ChildBytes(cs, 8)
  }

  function ParentHash(level: byte, cs: Children): u64 {
    Fnv(HashInput(level, cs))
  }

  method EatWord(h: u64, v: u64) returns (r: u64)
    ensures r == FnvFrom(h, LE(v, 8))
  {
    r := h;
    for b := 0 to 8
      invariant r == FnvFrom(h, LE(v, 8)[..b])
    {
      LEAt(v, 8, b);
      FnvNext(h, LE(v, 8)[..b], (v / Pow(256, b)) % 256);
      assert LE(v, 8)[..b + 1] == LE(v, 8)[..b] + [(v / Pow(256, b)) % 256];
      r := Eat(r, (v / Pow(256, b)) % 256);
    }
    assert LE(v, 8)[..8] == LE(v, 8);
  }

  lemma {:induction false} FnvConcat(h: u64, a: seq<byte>, b: seq<byte>)
    ensures FnvFrom(h, a + b) == FnvFrom(FnvFrom(h, a), b)
    decreases |b|
  {
    if b == [] {
      assert a + b == a;
    } else {
      var n := |b| - 1;
      FnvConcat(h, a, b[..n]);
      assert a + b == (a + b[..n]) + [b[n]];
      FnvNext(h, a + b[..n], b[n]);
    }
  }

  lemma ChildNext(head: seq<byte>, cs: Children, i: nat)
    requires i < 8
    ensures cs[i].None? ==> ChildBytes(cs, i + 1) == ChildBytes(cs, i)
    ensures var h := FnvFrom(FNV_OFFSET, head + ChildBytes(cs, i));
            cs[i].Some? ==> FnvFrom(FNV_OFFSET, head + ChildBytes(cs, i + 1)) == FnvFrom(h, LE(cs[i].value, 8))
  {
    if cs[i].Some? {
      FnvJoin(FNV_OFFSET, head, ChildBytes(cs, i), LE(cs[i].value, 8), ChildBytes(cs, i + 1));
    }
  }

  lemma FnvJoin(h: u64, head: seq<byte>, a: seq<byte>, b: seq<byte>, ab: seq<byte>)
    requires ab == a + b
    ensures FnvFrom(h, head + ab) == FnvFrom(FnvFrom(h, head + a), b)
  {
    FnvConcat(h, head + a, b);
    Append(head, a, b);
  }

  /** Feeds the input byte by byte; absent children contribute through the mask only. */
  method HashParent(level: byte, cs: Children) returns (h: u64)
    ensures h == ParentHash(level, cs)
  {
    ghost var head := [level, PresenceMask(cs)];
    h := Eat(FNV_OFFSET, level);
    h := Eat(h, PresenceMask(cs));
    TwoBytes(level, PresenceMask(cs));
    for i := 0 to 8
      invariant h == FnvFrom(FNV_OFFSET, head + ChildBytes(cs, i))
    {
      ChildNext(head, cs, i);
      if cs[i].Some? {
        h := EatWord(h, cs[i].value);
      }
    }
  }

  lemma TwoBytes(a: byte, b: byte)
    ensures FnvFrom(FNV_OFFSET, [a, b] + []) == Eat(Eat(FNV_OFFSET, a), b)
  {
    FnvNext(FNV_OFFSET, [], a);
    FnvNext(FNV_OFFSET, [a], b);
    assert [] + [a] == [a] && [a] + [b] == [a, b] + [];
  }

  /* ----- where everything lies in the hash input ----- */

  /** Present children in the octants before the n-th. */
  function PresentBefore(cs: Children, n: nat): (k: nat)
    requires n <= 8
  {
    if n == 0 then 0 else PresentBefore(cs, n - 1) + if cs[n - 1].Some? then 1 else 0
  }

  lemma {:induction false} MaskBit(cs: Children, n: nat, i: nat)
    requires i < n <= 8
    ensures BitOf(MaskFrom(cs, n), i) == if cs[i].Some? then 1 else 0
  {
    var low, p := MaskFrom(cs, n - 1), Pow(2, i);
    if i == n - 1 {
      DivUnique(MaskFrom(cs, n), p, if cs[i].Some? then 1 else 0, low);
    } else {
      MaskBit(cs, n - 1, i);
      TopBit(low, cs[n - 1].Some?, i, n - 1);
    }
  }

  /** A bit added above bit i leaves it alone. */
  lemma TopBit(low: nat, present: bool, i: nat, n: nat)
    requires i < n
    ensures BitOf(low + Bit(present, n), i) == BitOf(low, i)
  {
    if present {
      PowAdd(2, i, n - i);
      AddAbove(low, Pow(2, i), Pow(2, n - 1 - i));
    }
  }

  lemma AddAbove(low: nat, p: nat, q: nat)
    requires p > 0
    ensures ((low + p * (2 * q)) / p) % 2 == (low / p) % 2
  {
    var g, r := low / p, low % p;
    Regroup(p, g, 2 * q, r);
    DivUnique(low + p * (2 * q), p, g + 2 * q, r);
  }

  lemma Regroup(p: nat, g: nat, d: nat, r: nat)
    ensures p * g + r + p * d == p * (g + d) + r
  {
  }

  lemma {:induction false} ChildAt(cs: Children, n: nat, i: nat)
    requires i < n <= 8
    ensures |ChildBytes(cs, n)| == 8 * PresentBefore(cs, n)
    ensures var at := 8 * PresentBefore(cs, i);
            cs[i].Some? ==> at + 8 <= |ChildBytes(cs, n)| && GetLE(ChildBytes(cs, n), at, 8) == cs[i].value
  {
    if n > 1 {
      ChildAt(cs, n - 1, if i < n - 1 then i else 0);
    }
    if cs[i].Some? {
      var at := 8 * PresentBefore(cs, i);
      if i == n - 1 {
        EightBytes(cs[i].value);
        assert ChildBytes(cs, n)[at..at + 8] == LE(cs[i].value, 8);
      } else {
        SliceOfFront(ChildBytes(cs, n - 1), if cs[n - 1].Some? then LE(cs[n - 1].value, 8) else [], at, at + 8);
      }
    }
  }

  /**
   The level, one presence bit an octant, then each present child's hash behind those of the octants
   before it, least significant byte first.
   */
  lemma HashInputLayout(level: byte, cs: Children, o: nat)
    requires o < 8
    ensures var bs, at := HashInput(level, cs), 2 + 8 * PresentBefore(cs, o);
            && |bs| == 2 + 8 * PresentBefore(cs, 8)
            && bs[0] == level && BitOf(bs[1], o) == (if cs[o].Some? then 1 else 0)
            && (cs[o].Some? ==> at + 8 <= |bs| && GetLE(bs, at, 8) == cs[o].value)
  {
    MaskBit(cs, 8, o);
    ChildAt(cs, 8, o);
    if cs[o].Some? {
      var at := 8 * PresentBefore(cs, o);
      assert HashInput(level, cs)[2 + at..2 + at + 8] == ChildBytes(cs, 8)[at..at + 8];
    }
  }

  /* ----- the hash input is unambiguous ----- */

  lemma {:induction false} MaskTellsPresence(a: Children, b: Children, n: nat, i: nat)
    requires i < n <= 8 && MaskFrom(a, n) == MaskFrom(b, n)
    ensures a[i].Some? <==> b[i].Some?
  {
    assert Pow(2, n) == 2 * Pow(2, n - 1);
    if i < n - 1 {
      MaskTellsPresence(a, b, n - 1, i);
    }
  }

  lemma EightBytes(v: u64)
    ensures FromLE(LE(v, 8)) == v
  {
    assert Pow(256, 4) == 0x1_0000_0000;
    PowAdd(256, 4, 4);
    FromLEOfLE(v, 8);
  }

  lemma SplitBack(a: seq<byte>, b: seq<byte>, c: seq<byte>, d: seq<byte>)
    requires |b| == |d| && a + b == c + d
    ensures a == c && b == d
  {
    assert (a + b)[..|a|] == a && (a + b)[|a|..] == b;
    assert (c + d)[..|c|] == c && (c + d)[|c|..] == d;
  }

  lemma {:induction false} ChildBytesTellHashes(a: Children, b: Children, n: nat, i: nat)
    requires i < n <= 8 && ChildBytes(a, n) == ChildBytes(b, n)
    requires forall j :: 0 <= j < 8 ==> (a[j].Some? <==> b[j].Some?)
    ensures a[i] == b[i]
  {
    var last := if a[n - 1].Some? then LE(a[n - 1].value, 8) else [];
    var last' := if b[n - 1].Some? then LE(b[n - 1].value, 8) else [];
    SplitBack(ChildBytes(a, n - 1), last, ChildBytes(b, n - 1), last');
    if i < n - 1 {
      ChildBytesTellHashes(a, b, n - 1, i);
    } else if a[i].Some? {
      EightBytes(a[i].value);
      EightBytes(b[i].value);
    }
  }

  /** What is hashed for a node determines its level and all its children. */
  lemma HashInputInjective(level: byte, level': byte, a: Children, b: Children)
    requires HashInput(level, a) == HashInput(level', b)
    ensures level == level' && a == b
  {
    ByteRange();
    assert HashInput(level, a)[0] == level && HashInput(level', b)[0] == level';
    assert HashInput(level, a)[1] == PresenceMask(a) && HashInput(level', b)[1] == PresenceMask(b);
    assert HashInput(level, a)[2..] == ChildBytes(a, 8) && HashInput(level', b)[2..] == ChildBytes(b, 8);
    forall i | 0 <= i < 8
      ensures a[i].Some? <==> b[i].Some?
    {
      MaskTellsPresence(a, b, 8, i);
    }
    forall i | 0 <= i < 8
      ensures a[i] == b[i]
    {
      ChildBytesTellHashes(a, b, 8, i);
    }
  }
}
