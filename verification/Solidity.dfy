/** The bridge from unpacked chunks to the collision kernel: is this world cell solid? */
module Solidity {
  import opened VoxelBlob
  import opened MeshFormat
  import opened StoreKeys
  import Collision
  import CollisionProofs
  import Greedy
  import Morton
  import Probes
  import Seams

  /** Chunk coordinates lie strictly within 2^20 of the origin. */
  const MAX_CHUNK_COORD := 0x10_0000

  predicate InDomain(k: ChunkKey) {
    -MAX_CHUNK_COORD < k.cx < MAX_CHUNK_COORD && -MAX_CHUNK_COORD < k.cy < MAX_CHUNK_COORD &&
        -MAX_CHUNK_COORD < k.cz < MAX_CHUNK_COORD
  }

  /** 21 bits of the biased coordinate. */
  function Enc(c: int): (e: nat)
    ensures e < 0x20_0000
  {
    (c + MAX_CHUNK_COORD) % 0x20_0000
  }

  /** Three fields of 21 bits. */
  function PackKey(k: ChunkKey): nat {
    Enc(k.cx) * 0x400_0000_0000 + Enc(k.cy) * 0x20_0000 + Enc(k.cz)
  }

  lemma FieldsInjective(a: nat, b: nat, c: nat, a': nat, b': nat, c': nat)
    requires b < 0x20_0000 && c < 0x20_0000 && b' < 0x20_0000 && c' < 0x20_0000
    requires a * 0x400_0000_0000 + b * 0x20_0000 + c == a' * 0x400_0000_0000 + b' * 0x20_0000 + c'
    ensures a == a' && b == b' && c == c'
  {
    assert (a * 0x20_0000 + b) * 0x20_0000 + c == (a' * 0x20_0000 + b') * 0x20_0000 + c';
    assert a * 0x20_0000 + b == a' * 0x20_0000 + b';
  }

  lemma EncInDomain(c: int)
    requires -MAX_CHUNK_COORD < c < MAX_CHUNK_COORD
    ensures Enc(c) == c + MAX_CHUNK_COORD
  {
  }

  /** Packed keys do not alias inside the domain. */
  lemma PackKeyInjective(k: ChunkKey, l: ChunkKey)
    requires InDomain(k) && InDomain(l) && PackKey(k) == PackKey(l)
    ensures k == l
  {
    FieldsInjective(Enc(k.cx), Enc(k.cy), Enc(k.cz), Enc(l.cx), Enc(l.cy), Enc(l.cz));
    EncInDomain(k.cx);
    EncInDomain(l.cx);
    EncInDomain(k.cy);
    EncInDomain(l.cy);
    EncInDomain(k.cz);
    EncInDomain(l.cz);
  }

  /** Chunks by position, as the callers added them. */
  type Chunks = map<ChunkKey, UnpackedChunk>

  ghost predicate AllFull(chunks: Chunks) {
    forall k :: k in chunks ==> InDomain(k) && Seams.Full(chunks[k])
  }

  /** A cell is solid if its chunk is there and its content is not air. */
  ghost predicate SolidCell(chunks: Chunks, c: Vec)
    requires AllFull(chunks)
  {
    var k := Seams.KeyOf(c);
    k in chunks && Greedy.CellAt(chunks[k].cells, Seams.Local(k, c)).content != 0
  }

  class SolidityWorld {
    var chunks: map<nat, UnpackedChunk>
    ghost var added: Chunks

    ghost predicate Valid()
      reads this
    {
      && AllFull(added)
      && (forall k :: k in added ==> PackKey(k) in chunks && chunks[PackKey(k)] == added[k])
      && (forall p :: p in chunks ==> exists k :: k in added && PackKey(k) == p)
    }

    constructor ()
      ensures Valid() && added == map[]
    {
      chunks, added := map[], map[];
    }

    /** Adding a position again replaces its chunk. */
    method AddChunk(cx: int, cy: int, cz: int, chunk: UnpackedChunk)
      requires Valid() && InDomain(ChunkKey(cx, cy, cz)) && Seams.Full(chunk)
      modifies this
      ensures Valid() && added == old(added)[ChunkKey(cx, cy, cz) := chunk]
    {
      var k := ChunkKey(cx, cy, cz);
      forall l | l in added && PackKey(l) == PackKey(k)
        ensures l == k
      {
        PackKeyInjective(k, l);
      }
      chunks := chunks[PackKey(k) := chunk];
      added := added[k := chunk];
      assert k in added;
    }

    /** The injected callback: table lookup, shifts and masks only. */
    method SolidAt(x: int, y: int, z: int) returns (r: bool)
      requires Valid() && InDomain(Seams.KeyOf(Vec(x, y, z)))
      ensures r <==> SolidCell(added, Vec(x, y, z))
    {
      var k := ChunkKey(x / 16, y / 16, z / 16);
      if PackKey(k) !in chunks {
        return false;
      }
      ghost var l :| l in added && PackKey(l) == PackKey(k);
      PackKeyInjective(k, l);
      var local := Vec(x % 16, y % 16, z % 16);
      assert local == Seams.Local(k, Vec(x, y, z));
      Greedy.IndexBound(local);
      return chunks[PackKey(k)].cells[Morton.Index(local.x, local.y, local.z)].content != 0;
    }
  }

  /* ----- when the kernel stays inside the domain ----- */

  /** A cell coordinate whose chunk coordinate is in the domain. */
  predicate CellFits(c: int) {
    -MAX_CHUNK_COORD < c / 16 < MAX_CHUNK_COORD
  }

  /** An origin coordinate that keeps both ends of the reach in the domain. */
  predicate OffsetFits(d: int, r: real, h: real) {
    CellFits(Probes.ReachRange(r, h).lo + d) && CellFits(Probes.ReachRange(r, h).hi + d)
  }

  predicate OriginFits(o: Collision.WorldOffset, r: real, half: Collision.Vec3) {
    OffsetFits(o.x, r, half.x) && OffsetFits(o.y, r, half.y) && OffsetFits(o.z, r, half.z)
  }

  lemma AxisInDomain(fl: Collision.Rounding, start: real, c: real, h: real, r: real, i: int, d: int)
    requires Collision.IsExact(fl) && -Collision.WORLD_BOUND <= start <= Collision.WORLD_BOUND
    requires CollisionProofs.Within(start, c, r)
    requires Collision.RangeOn(fl, c, h).Has(i) && OffsetFits(d, r, h)
    ensures CellFits(i + d)
  {
    var edge := Collision.WORLD_BOUND + r;
    assert fl(c - h) == c - h && fl(c + h) == c + h;
    Collision.RangeMeets(c - h, c + h, i);
    Collision.RangeMeets(-edge - h, edge + h, i);
    assert Probes.ReachRange(r, h).Has(i);
  }

  lemma CoveredInDomain(fl: Collision.Rounding, pos: Collision.Vec3, p: Collision.Vec3, half: Collision.Vec3,
                        o: Collision.WorldOffset, r: real, x: int, y: int, z: int)
    requires Collision.IsExact(fl) && Probes.Near(Collision.ClampPos(pos), p, r) && OriginFits(o, r, half)
    requires Collision.Covers(fl, p, half, x, y, z)
    ensures InDomain(Seams.KeyOf(Vec(x + o.x, y + o.y, z + o.z)))
  {
    var start := Collision.ClampPos(pos);
    AxisInDomain(fl, start.x, p.x, half.x, r, x, o.x);
    AxisInDomain(fl, start.y, p.y, half.y, r, y, o.y);
    AxisInDomain(fl, start.z, p.z, half.z, r, z, o.z);
  }

  /**
   Every cell that a step asks about is one that SolidAt accepts, if the origin fits the reach: the
   speed limit times dt, or at least one voxel for a step that starts inside something.
   */
  lemma QueriesAreInDomain(fl: Collision.Rounding, b: Collision.Body, params: Collision.StepParams,
                           o: Collision.WorldOffset, solid: Collision.Solid, r: real, p: Collision.Vec3,
                           x: int, y: int, z: int)
    requires Collision.IsRounding(fl) && Collision.IsExact(fl) && params.maxSpeed >= 0.0 && params.dt >= 0.0
    requires r >= Collision.Times(params.maxSpeed, params.dt) && OriginFits(o, r, b.half)
    requires r >= 1.0 || !Collision.ProbeOf(fl, b.half, o, solid)(Collision.ClampPos(b.pos))
    requires p in Probes.StepProbes(fl, b, params, o, solid) && Collision.Covers(fl, p, b.half, x, y, z)
    ensures InDomain(Seams.KeyOf(Vec(x + o.x, y + o.y, z + o.z)))
  {
    Probes.StepProbesStayNear(fl, b, params, o, solid, r, p);
    CoveredInDomain(fl, b.pos, p, b.half, o, r, x, y, z);
  }

  /** No wider origin will do: on each axis all cells asked about are in the domain exactly when the origin fits. */
  lemma OffsetFitsIff(fl: Collision.Rounding, half: Collision.Vec3, o: Collision.WorldOffset, axis: nat, r: real,
                      d: int)
    requires Collision.IsRounding(fl) && Collision.IsExact(fl) && r > 0.0 && half.Axis(axis) >= 0.0
    ensures (forall i :: Probes.Asked(fl, half, o, axis, r, i) ==> CellFits(i + d))
       <==> OffsetFits(d, r, half.Axis(axis))
  {
    var range := Probes.ReachRange(r, half.Axis(axis));
    forall i
      ensures Probes.Asked(fl, half, o, axis, r, i) <==> range.Has(i)
    {
      Probes.AskedIff(fl, half, o, axis, r, i);
    }
    ReachIsWide(r, half.Axis(axis));
    assert Probes.Asked(fl, half, o, axis, r, range.lo) && Probes.Asked(fl, half, o, axis, r, range.hi);
  }

  lemma ReachIsWide(r: real, h: real)
    requires r > 0.0 && h >= 0.0
    ensures Probes.ReachRange(r, h).lo <= Probes.ReachRange(r, h).hi
  {
    Collision.RangeMeets(-(Collision.WORLD_BOUND + r) - h, Collision.WORLD_BOUND + r + h, 0);
  }
}
