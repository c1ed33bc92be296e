/** Bytes, fixed-width unsigned integers, and the little-endian put and get helpers. */
module Bytes {
  import opened Arithmetic

  type byte = b: int | 0 <= b < 0x100
  type u32 = v: int | 0 <= v < 0x1_0000_0000
  type u64 = v: int | 0 <= v < 0x1_0000_0000_0000_0000

  datatype Option<+T> = None | Some(value: T)

  /** The n low-order bytes of v, least significant first. */
  function LE(v: nat, n: nat): (bs: seq<byte>)
    ensures |bs| == n
  {
    if n == 0 then [] else [v % 256] + LE(v / 256, n - 1)
  }

  /** The number whose little-endian bytes are bs. */
  function FromLE(bs: seq<byte>): (v: nat)
  {
    if bs == [] then 0 else bs[0] + 256 * FromLE(bs[1..])
  }

  lemma {:induction false} FromLERange(bs: seq<byte>)
    ensures FromLE(bs) < Pow(256, |bs|)
  {
    if bs != [] {
      FromLERange(bs[1..]);
    }
  }

  lemma {:induction false} FromLEOfLE(v: nat, n: nat)
    requires v < Pow(256, n)
    ensures FromLE(LE(v, n)) == v
  {
    if n > 0 {
      FromLEOfLE(v / 256, n - 1);
      assert LE(v, n)[1..] == LE(v / 256, n - 1);
    }
  }

  lemma {:induction false} LEOfFromLE(bs: seq<byte>)
    ensures LE(FromLE(bs), |bs|) == bs
  {
    if bs != [] {
      var v := FromLE(bs[1..]);
      LEOfFromLE(bs[1..]);
      assert (bs[0] + 256 * v) % 256 == bs[0] && (bs[0] + 256 * v) / 256 == v;
      assert bs == [bs[0]] + bs[1..];
    }
  }

  lemma {:induction false} LEAt(v: nat, n: nat, i: nat)
    requires i < n
    ensures LE(v, n)[i] == (v / Pow(256, i)) % 256
  {
    if i > 0 {
      LEAt(v / 256, n - 1, i - 1);
      DivDiv(v, 256, Pow(256, i - 1));
    }
  }

  lemma FourBytesOf(v: nat)
    ensures LE(v, 4) == [v % 256, v / 256 % 256, v / 256 / 256 % 256, v / 256 / 256 / 256 % 256]
  {
    assert LE(v / 256 / 256, 2) == [v / 256 / 256 % 256, v / 256 / 256 / 256 % 256];
  }

  lemma {:induction false} FromLEAppend(bs: seq<byte>, b: byte)
    ensures FromLE(bs + [b]) == FromLE(bs) + b * Pow(256, |bs|)
  {
    if bs == [] {
      assert bs + [b] == [b] && [b][1..] == [];
    } else {
      FromLEAppend(bs[1..], b);
      assert (bs + [b])[1..] == bs[1..] + [b];
      Scale(b, Pow(256, |bs| - 1));
    }
  }

  lemma Scale(b: nat, p: nat)
    ensures 256 * (b * p) == b * (256 * p)
  {
  }

  /** The unsigned number stored in n bytes at offset at. */
  function GetLE(bs: seq<byte>, at: nat, n: nat): nat
    requires at + n <= |bs|
  {
    FromLE(bs[at..at + n])
  }

  /** The bytes of a field are those of the number read from it. */
  lemma BytesOfField(bs: seq<byte>, at: nat, n: nat)
    requires at + n <= |bs|
    ensures bs[at..at + n] == LE(GetLE(bs, at, n), n)
  {
    LEOfFromLE(bs[at..at + n]);
  }

  lemma Append(a: seq<byte>, b: seq<byte>, c: seq<byte>)
    ensures a + b + c == a + (b + c)
  {
  }

  lemma SliceOfFront(a: seq<byte>, b: seq<byte>, lo: nat, hi: nat)
    requires lo <= hi <= |a|
    ensures (a + b)[lo..hi] == a[lo..hi]
  {
  }

  /** Pushes the n low-order bytes of v, shifting right by eight bits a byte. */
  method PutLE(out: seq<byte>, v: nat, n: nat) returns (r: seq<byte>)
    ensures r == out + LE(v, n)
  {
    r := out;
    for i := 0 to n
      invariant r == out + LE(v, n)[..i]
    {
      LEAt(v, n, i);
      r := r + [(v / Pow(256, i)) % 256];
    }
  }

  /** Or-ing a byte above every set bit of v adds it. */
  method ReadLE(bs: seq<byte>, at: nat, n: nat) returns (v: nat)
    requires at + n <= |bs|
    ensures v == GetLE(bs, at, n)
  {
    v := 0;
    for i := 0 to n
      invariant v == FromLE(bs[at..at + i])
    {
      FromLEAppend(bs[at..at + i], bs[at + i]);
      assert bs[at..at + i] + [bs[at + i]] == bs[at..at + i + 1];
      v := v + bs[at + i] * Pow(256, i);
    }
  }

  /** Records laid end to end. */
  function Flat(cs: seq<seq<byte>>): (r: seq<byte>)
    decreases |cs|
  {
    if cs == [] then [] else Flat(cs[..|cs| - 1]) + cs[|cs| - 1]
  }

  lemma FlatAppend(cs: seq<seq<byte>>, c: seq<byte>)
    ensures Flat(cs + [c]) == Flat(cs) + c
  {
    assert (cs + [c])[..|cs|] == cs;
  }

  lemma FlatNext(cs: seq<seq<byte>>, i: nat)
    requires i < |cs|
    ensures Flat(cs[..i + 1]) == Flat(cs[..i]) + cs[i]
  {
    assert cs[..i + 1] == cs[..i] + [cs[i]];
    FlatAppend(cs[..i], cs[i]);
  }

  lemma {:induction false} FlatLength(cs: seq<seq<byte>>, size: nat)
    requires forall k :: 0 <= k < |cs| ==> |cs[k]| == size
    ensures |Flat(cs)| == size * |cs|
    decreases |cs|
  {
    if cs != [] {
      FlatLength(cs[..|cs| - 1], size);
    }
  }

  lemma {:induction false} FlatSlice(cs: seq<seq<byte>>, size: nat, k: nat)
    requires forall j :: 0 <= j < |cs| ==> |cs[j]| == size
    requires k < |cs|
    ensures size * k + size <= |Flat(cs)|
    ensures Flat(cs)[size * k..size * k + size] == cs[k]
    decreases |cs|
  {
    var front, last := cs[..|cs| - 1], cs[|cs| - 1];
    FlatLength(front, size);
    if k < |cs| - 1 {
      FlatSlice(front, size, k);
      var at := size * k;
      SliceOfFront(Flat(front), last, at, at + size);
    } else {
      SliceOfBack(Flat(front), last, |Flat(front)|);
    }
  }

  lemma SliceOfBack(a: seq<byte>, b: seq<byte>, m: nat)
    requires m == |a|
    ensures (a + b)[m..m + |b|] == b
  {
  }

  lemma SliceOfPrefix(bs: seq<byte>, m: nat, lo: nat, hi: nat)
    requires lo <= hi <= m <= |bs|
    ensures bs[..m][lo..hi] == bs[lo..hi]
  {
  }

  /** bs is cut into records of the given size, and the records are cs. */
  ghost predicate IsRecords(bs: seq<byte>, cs: seq<seq<byte>>, size: nat) {
    && |bs| == size * |cs|
    && forall j :: 0 <= j < |cs| ==> size * j + size <= |bs| && bs[size * j..size * j + size] == cs[j]
  }

  lemma {:induction false} FlatUnique(bs: seq<byte>, cs: seq<seq<byte>>, size: nat)
    requires IsRecords(bs, cs, size)
    ensures bs == Flat(cs)
    decreases |cs|
  {
    if cs != [] {
      var n := |cs| - 1;
      var m := size * n;
      assert m + size == |bs| && bs[m..m + size] == cs[n];
      FrontRecords(bs, cs, size);
      FlatUnique(bs[..m], cs[..n], size);
      assert bs == bs[..m] + bs[m..m + size];
    }
  }

  lemma FrontRecords(bs: seq<byte>, cs: seq<seq<byte>>, size: nat)
    requires IsRecords(bs, cs, size) && cs != []
    ensures size * (|cs| - 1) <= |bs| && IsRecords(bs[..size * (|cs| - 1)], cs[..|cs| - 1], size)
  {
    var n := |cs| - 1;
    var m := size * n;
    MulMono(size, n, |cs|);
    forall j | 0 <= j < n
      ensures size * j + size <= m && bs[..m][size * j..size * j + size] == cs[j]
    {
      MulMono(size, j + 1, n);
      SliceOfPrefix(bs, m, size * j, size * j + size);
    }
  }
}
