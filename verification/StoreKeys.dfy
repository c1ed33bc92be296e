/**
 Storage keys: sign-flipped big-endian coordinates, so that byte order is numeric order. Chunk keys
 are 12 bytes, LOD node keys 13 with the level in front.
 */
module StoreKeys {
  import opened Arithmetic
  import opened Bytes

  type Key = seq<byte>

  /** Lexicographic byte order, the order of every store. */
  predicate Less(a: Key, b: Key) {
    if b == [] then false
    else if a == [] then true
    else a[0] < b[0] || (a[0] == b[0] && Less(a[1..], b[1..]))
  }

  predicate LessEq(a: Key, b: Key) {
    a == b || Less(a, b)
  }

  lemma {:induction false} LessIrreflexive(a: Key)
    ensures !Less(a, a)
  {
    if a != [] {
      LessIrreflexive(a[1..]);
    }
  }

  lemma {:induction false} LessTransitive(a: Key, b: Key, c: Key)
    requires Less(a, b) && Less(b, c)
    ensures Less(a, c)
  {
    if a != [] && a[0] == b[0] == c[0] {
      LessTransitive(a[1..], b[1..], c[1..]);
    }
  }

  lemma {:induction false} LessTotal(a: Key, b: Key)
    ensures a == b || Less(a, b) || Less(b, a)
  {
    if a != [] && b != [] && a[0] == b[0] {
      LessTotal(a[1..], b[1..]);
      assert a == [a[0]] + a[1..] && b == [b[0]] + b[1..];
    }
  }

  lemma LessAsymmetric(a: Key, b: Key)
    requires Less(a, b)
    ensures !Less(b, a) && a != b
  {
    LessIrreflexive(a);
    if Less(b, a) {
      LessTransitive(a, b, a);
    }
  }

  /** Keys of equal-length parts compare part by part. */
  lemma {:induction false} LessConcat(a: Key, b: Key, a': Key, b': Key)
    requires |a| == |a'|
    ensures Less(a + b, a' + b') <==> Less(a, a') || (a == a' && Less(b, b'))
  {
    if a == [] {
      assert a + b == b && a' + b' == b';
    } else {
      LessConcat(a[1..], b, a'[1..], b');
      assert (a + b)[1..] == a[1..] + b && (a' + b')[1..] == a'[1..] + b';
      assert a == [a[0]] + a[1..] && a' == [a'[0]] + a'[1..];
      LessIrreflexive(a[1..]);
    }
  }

  /** Four big-endian bytes. */
  function Digits4(u: nat): (k: Key)
    requires u < 0x1_0000_0000
    ensures |k| == 4
  {
    [u / 0x100_0000, (u / 0x1_0000) % 256, (u / 0x100) % 256, u % 256]
  }

  /** A coordinate as four big-endian bytes of its sign-flipped pattern. */
  function CoordBytes(v: int): (k: Key)
    requires IsInt32(v)
    ensures |k| == 4
  {
    Digits4(FlipSign(v))
  }

  lemma CoordOrder(v: int, w: int)
    requires IsInt32(v) && IsInt32(w)
    ensures Less(CoordBytes(v), CoordBytes(w)) <==> v < w
    ensures CoordBytes(v) == CoordBytes(w) ==> v == w
  {
    FourBytes(FlipSign(v), FlipSign(w));
  }

  lemma Recompose(u: nat)
    requires u < 0x1_0000_0000
    ensures u == u / 0x100_0000 * 0x100_0000 + (u / 0x1_0000) % 256 * 0x1_0000 + (u / 0x100) % 256 * 0x100 + u % 256
  {
    assert u / 0x100 / 0x100 == u / 0x1_0000;
    assert u / 0x1_0000 / 0x100 == u / 0x100_0000;
  }

  lemma FourBytes(u: nat, v: nat)
    requires u < 0x1_0000_0000 && v < 0x1_0000_0000
    ensures Less(Digits4(u), Digits4(v)) <==> u < v
    ensures Digits4(u) == Digits4(v) ==> u == v
  {
    Recompose(u);
    Recompose(v);
    var a, b := Digits4(u), Digits4(v);
    assert Less(a[3..], b[3..]) <==> a[3] < b[3] by { assert a[3..][1..] == [] && b[3..][1..] == []; }
    assert Less(a[2..], b[2..]) <==> a[2] < b[2] || (a[2] == b[2] && a[3] < b[3]) by {
      assert a[2..][1..] == a[3..] && b[2..][1..] == b[3..];
    }
    assert Less(a[1..], b[1..]) <==> a[1] < b[1] || (a[1] == b[1] && Less(a[2..], b[2..])) by {
      assert a[1..][1..] == a[2..] && b[1..][1..] == b[2..];
    }
  }

  datatype ChunkKey = ChunkKey(cx: int, cy: int, cz: int)
  {
    predicate InWord() { IsInt32(cx) && IsInt32(cy) && IsInt32(cz) }

    /** Key order of the resident map: x, then y, then z. */
    predicate Before(o: ChunkKey) {
      cx < o.cx || (cx == o.cx && (cy < o.cy || (cy == o.cy && cz < o.cz)))
    }
  }

  function ChunkStoreKey(k: ChunkKey): (b: Key)
    requires k.InWord()
    ensures |b| == 12
  {
    CoordBytes(k.cx) + CoordBytes(k.cy) + CoordBytes(k.cz)
  }

  /** Writes one coordinate at an offset, most significant byte first. */
  method PutCoord(out: array<byte>, at: nat, v: int)
    requires at + 4 <= out.Length && IsInt32(v)
    modifies out
    ensures out[..] == old(out[..at]) + CoordBytes(v) + old(out[at + 4..])
  {
    var flipped := FlipSign(v);
    out[at] := flipped / 0x100_0000;
    out[at + 1] := (flipped / 0x1_0000) % 256;
    out[at + 2] := (flipped / 0x100) % 256;
    out[at + 3] := flipped % 256;
  }

  method WriteChunkStoreKey(x: int, y: int, z: int) returns (out: array<byte>)
    requires ChunkKey(x, y, z).InWord()
    ensures fresh(out) && out[..] == ChunkStoreKey(ChunkKey(x, y, z))
  {
    out := new byte[12](_ => 0);
    PutCoord(out, 0, x);
    PutCoord(out, 4, y);
    PutCoord(out, 8, z);
  }

  lemma TripleOrder(a: Key, b: Key, c: Key, a': Key, b': Key, c': Key)
    requires |a| == |a'| && |b| == |b'|
    ensures Less(a + b + c, a' + b' + c') <==> Less(a, a') || (a == a' && (Less(b, b') || (b == b' && Less(c, c'))))
  {
    LessConcat(a + b, c, a' + b', c');
    LessConcat(a, b, a', b');
    assert a + b == a' + b' <==> a == a' && b == b' by {
      assert (a + b)[..|a|] == a && (a + b)[|a|..] == b;
      assert (a' + b')[..|a'|] == a' && (a' + b')[|a'|..] == b';
    }
  }

  /** Byte order of chunk keys is numeric (x, y, z) order; distinct chunks have distinct keys. */
  lemma ChunkKeyOrder(k: ChunkKey, l: ChunkKey)
    requires k.InWord() && l.InWord()
    ensures Less(ChunkStoreKey(k), ChunkStoreKey(l)) <==> k.Before(l)
    ensures k.Before(l) <==> k.cx < l.cx || (k.cx == l.cx && (k.cy < l.cy || (k.cy == l.cy && k.cz < l.cz)))
    ensures ChunkStoreKey(k) == ChunkStoreKey(l) ==> k == l
  {
    CoordOrder(k.cx, l.cx);
    CoordOrder(k.cy, l.cy);
    CoordOrder(k.cz, l.cz);
    TripleOrder(CoordBytes(k.cx), CoordBytes(k.cy), CoordBytes(k.cz),
                CoordBytes(l.cx), CoordBytes(l.cy), CoordBytes(l.cz));
    if ChunkStoreKey(k) == ChunkStoreKey(l) {
      assert ChunkStoreKey(k)[..4] == CoordBytes(k.cx) && ChunkStoreKey(k)[4..8] == CoordBytes(k.cy) &&
          ChunkStoreKey(k)[8..] == CoordBytes(k.cz);
      assert ChunkStoreKey(l)[..4] == CoordBytes(l.cx) && ChunkStoreKey(l)[4..8] == CoordBytes(l.cy) &&
          ChunkStoreKey(l)[8..] == CoordBytes(l.cz);
    }
  }

  /* ----- boxes of chunks ----- */

  function RowKeys(x0: int, x1: int, y: int, z: int): (ks: seq<ChunkKey>)
    ensures |ks| == if x0 <= x1 then x1 - x0 else 0
  {
    seq(if x0 <= x1 then x1 - x0 else 0, i => ChunkKey(x0 + i, y, z))
  }

  function LayerKeys(x0: int, x1: int, y0: int, y1: int, z: int): (ks: seq<ChunkKey>)
    decreases y1 - y0
  {
    if y1 <= y0 then [] else LayerKeys(x0, x1, y0, y1 - 1, z) + RowKeys(x0, x1, y1 - 1, z)
  }

  /** Keys of a half-open box in belt order: z, then y, then x fastest. */
  function BoxKeys(x0: int, x1: int, y0: int, y1: int, z0: int, z1: int): (ks: seq<ChunkKey>)
    decreases z1 - z0
  {
    if z1 <= z0 then [] else BoxKeys(x0, x1, y0, y1, z0, z1 - 1) + LayerKeys(x0, x1, y0, y1, z1 - 1)
  }

  lemma RowGrows(x0: int, x: int, y: int, z: int)
    requires x0 <= x
    ensures RowKeys(x0, x + 1, y, z) == RowKeys(x0, x, y, z) + [ChunkKey(x, y, z)]
  {
  }

  lemma RowMembers(x0: int, x1: int, y: int, z: int, k: ChunkKey)
    ensures k in RowKeys(x0, x1, y, z) <==> x0 <= k.cx < x1 && k.cy == y && k.cz == z
  {
    if x0 <= k.cx < x1 && k.cy == y && k.cz == z {
      assert RowKeys(x0, x1, y, z)[k.cx - x0] == k;
    }
  }

  lemma {:induction false} LayerMembers(x0: int, x1: int, y0: int, y1: int, z: int, k: ChunkKey)
    ensures k in LayerKeys(x0, x1, y0, y1, z) <==> x0 <= k.cx < x1 && y0 <= k.cy < y1 && k.cz == z
    decreases y1 - y0
  {
    if y0 < y1 {
      LayerMembers(x0, x1, y0, y1 - 1, z, k);
      RowMembers(x0, x1, y1 - 1, z, k);
    }
  }

  lemma {:induction false} BoxMembers(x0: int, x1: int, y0: int, y1: int, z0: int, z1: int, k: ChunkKey)
    ensures k in BoxKeys(x0, x1, y0, y1, z0, z1) <==> x0 <= k.cx < x1 && y0 <= k.cy < y1 && z0 <= k.cz < z1
    decreases z1 - z0
  {
    if z0 < z1 {
      BoxMembers(x0, x1, y0, y1, z0, z1 - 1, k);
      LayerMembers(x0, x1, y0, y1, z1 - 1, k);
    }
  }

  ghost predicate NoRepeats(ks: seq<ChunkKey>) {
    forall i, j :: 0 <= i < j < |ks| ==> ks[i] != ks[j]
  }

  lemma JoinNoRepeats(a: seq<ChunkKey>, b: seq<ChunkKey>)
    requires NoRepeats(a) && NoRepeats(b) && forall k :: k in a ==> k !in b
    ensures NoRepeats(a + b)
  {
    forall i, j | 0 <= i < j < |a + b|
      ensures (a + b)[i] != (a + b)[j]
    {
      if i < |a| <= j {
        assert a[i] in a && b[j - |a|] in b;
      }
    }
  }

  /** z, then y, then x ascending along the list. */
  ghost predicate InVisitOrder(ks: seq<ChunkKey>) {
    forall i, j :: 0 <= i < j < |ks| ==>
      var a, b := ks[i], ks[j];
      a.cz < b.cz || (a.cz == b.cz && (a.cy < b.cy || (a.cy == b.cy && a.cx < b.cx)))
  }

  lemma JoinVisitOrder(a: seq<ChunkKey>, b: seq<ChunkKey>)
    requires InVisitOrder(a) && InVisitOrder(b)
    requires forall k, l :: k in a && l in b ==>
               k.cz < l.cz || (k.cz == l.cz && (k.cy < l.cy || (k.cy == l.cy && k.cx < l.cx)))
    ensures InVisitOrder(a + b)
  {
    forall i, j | 0 <= i < j < |a + b|
      ensures var k, l := (a + b)[i], (a + b)[j];
              k.cz < l.cz || (k.cz == l.cz && (k.cy < l.cy || (k.cy == l.cy && k.cx < l.cx)))
    {
      if i < |a| <= j {
        assert a[i] in a && b[j - |a|] in b;
      }
    }
  }

  lemma {:induction false} LayerOrder(x0: int, x1: int, y0: int, y1: int, z: int)
    ensures InVisitOrder(LayerKeys(x0, x1, y0, y1, z))
    decreases y1 - y0
  {
    if y0 < y1 {
      LayerOrder(x0, x1, y0, y1 - 1, z);
      var layer, row := LayerKeys(x0, x1, y0, y1 - 1, z), RowKeys(x0, x1, y1 - 1, z);
      forall k, l | k in layer && l in row
        ensures k.cz == l.cz && k.cy < l.cy
      {
        LayerMembers(x0, x1, y0, y1 - 1, z, k);
      }
      JoinVisitOrder(layer, row);
    }
  }

  /** The keys of a box come in z, y, x order; with BoxMembers this fixes the list. */
  lemma {:induction false} BoxOrder(x0: int, x1: int, y0: int, y1: int, z0: int, z1: int)
    ensures InVisitOrder(BoxKeys(x0, x1, y0, y1, z0, z1))
    decreases z1 - z0
  {
    if z0 < z1 {
      BoxOrder(x0, x1, y0, y1, z0, z1 - 1);
      LayerOrder(x0, x1, y0, y1, z1 - 1);
      var box, layer := BoxKeys(x0, x1, y0, y1, z0, z1 - 1), LayerKeys(x0, x1, y0, y1, z1 - 1);
      forall k, l | k in box && l in layer
        ensures k.cz < l.cz
      {
        BoxMembers(x0, x1, y0, y1, z0, z1 - 1, k);
        LayerMembers(x0, x1, y0, y1, z1 - 1, l);
      }
      JoinVisitOrder(box, layer);
    }
  }

  lemma {:induction false} LayerNoRepeats(x0: int, x1: int, y0: int, y1: int, z: int)
    ensures NoRepeats(LayerKeys(x0, x1, y0, y1, z))
    decreases y1 - y0
  {
    if y0 < y1 {
      LayerNoRepeats(x0, x1, y0, y1 - 1, z);
      var layer := LayerKeys(x0, x1, y0, y1 - 1, z);
      forall k | k in layer
        ensures k !in RowKeys(x0, x1, y1 - 1, z)
      {
        LayerMembers(x0, x1, y0, y1 - 1, z, k);
      }
      JoinNoRepeats(LayerKeys(x0, x1, y0, y1 - 1, z), RowKeys(x0, x1, y1 - 1, z));
    }
  }

  lemma {:induction false} BoxNoRepeats(x0: int, x1: int, y0: int, y1: int, z0: int, z1: int)
    ensures NoRepeats(BoxKeys(x0, x1, y0, y1, z0, z1))
    decreases z1 - z0
  {
    if z0 < z1 {
      BoxNoRepeats(x0, x1, y0, y1, z0, z1 - 1);
      LayerNoRepeats(x0, x1, y0, y1, z1 - 1);
      var box := BoxKeys(x0, x1, y0, y1, z0, z1 - 1);
      forall k | k in box
        ensures k !in LayerKeys(x0, x1, y0, y1, z1 - 1)
      {
        BoxMembers(x0, x1, y0, y1, z0, z1 - 1, k);
        LayerMembers(x0, x1, y0, y1, z1 - 1, k);
      }
      JoinNoRepeats(BoxKeys(x0, x1, y0, y1, z0, z1 - 1), LayerKeys(x0, x1, y0, y1, z1 - 1));
    }
  }

  ghost function Elements(ks: seq<ChunkKey>): (s: set<ChunkKey>)
    ensures forall k :: k in s <==> k in ks
  {
    set k | k in ks
  }

  lemma {:induction false} NoRepeatsSize(ks: seq<ChunkKey>)
    requires NoRepeats(ks)
    ensures |Elements(ks)| == |ks|
    decreases |ks|
  {
    if ks == [] {
      assert Elements(ks) == {};
    } else {
      var n := |ks| - 1;
      NoRepeatsSize(ks[..n]);
      assert Elements(ks) == Elements(ks[..n]) + {ks[n]};
    }
  }
}
