/** The chunk generator's loops over one cell array, proved to restrict the infinite world. */
module ChunkGen {
  import opened Bytes
  import opened Chunk
  import opened Minigen
  import WorldShape

  datatype ChunkPos = ChunkPos(cx: int, cy: int, cz: int)

  /** Storage order: x fastest, then y, then z. */
  function CellIndex(x: nat, y: nat, z: nat): (i: nat)
    requires x < EDGE && y < EDGE && z < EDGE
    ensures i < CHUNK_CELLS
  {
    x + EDGE * (y + EDGE * z)
  }

  lemma CellIndexInjective(x: nat, y: nat, z: nat, a: nat, b: nat, c: nat)
    requires x < EDGE && y < EDGE && z < EDGE && a < EDGE && b < EDGE && c < EDGE
    requires CellIndex(x, y, z) == CellIndex(a, b, c)
    ensures x == a && y == b && z == c
  {
  }

  function WorldPos(cp: ChunkPos, x: int, y: int, z: int): Pos {
    Pos(EDGE * cp.cx + x, EDGE * cp.cy + y, EDGE * cp.cz + z)
  }

  /** The chunk holds f at each of its world positions. */
  ghost predicate Holds(cells: seq<Content>, cp: ChunkPos, f: Pos -> Content) {
    && |cells| == CHUNK_CELLS
    && forall x, y, z :: 0 <= x < EDGE && 0 <= y < EDGE && 0 <= z < EDGE ==>
         cells[CellIndex(x, y, z)] == f(WorldPos(cp, x, y, z))
  }

  /** Exactly the cells where P holds now hold c. */
  ghost predicate Overwritten(before: seq<Content>, after: seq<Content>, cp: ChunkPos, P: Pos -> bool,
                              c: Content) {
    && |before| == CHUNK_CELLS && |after| == CHUNK_CELLS
    && forall x, y, z :: 0 <= x < EDGE && 0 <= y < EDGE && 0 <= z < EDGE ==>
         after[CellIndex(x, y, z)] == if P(WorldPos(cp, x, y, z)) then c else before[CellIndex(x, y, z)]
  }

  /** Writes one world cell if it lies in the chunk. */
  method WriteCell(chunk: array<Content>, cp: ChunkPos, p: Pos, c: Content)
    requires chunk.Length == CHUNK_CELLS
    modifies chunk
    ensures Overwritten(old(chunk[..]), chunk[..], cp, q => q == p, c)
  {
    var x, y, z := p.x - EDGE * cp.cx, p.y - EDGE * cp.cy, p.z - EDGE * cp.cz;
    if 0 <= x < EDGE && 0 <= y < EDGE && 0 <= z < EDGE {
      ghost var before := chunk[..];
      chunk[CellIndex(x, y, z)] := c;
      forall i, j, k | 0 <= i < EDGE && 0 <= j < EDGE && 0 <= k < EDGE
        ensures chunk[CellIndex(i, j, k)] == if WorldPos(cp, i, j, k) == p then c else before[CellIndex(i, j, k)]
      {
        if CellIndex(i, j, k) == CellIndex(x, y, z) {
          CellIndexInjective(i, j, k, x, y, z);
        }
      }
    }
  }

  lemma JoinWrites(a: seq<Content>, b: seq<Content>, d: seq<Content>, cp: ChunkPos, P: Pos -> bool,
                   Q: Pos -> bool, R: Pos -> bool, c: Content)
    requires Overwritten(a, b, cp, P, c) && Overwritten(b, d, cp, Q, c)
    requires forall p: Pos :: R(p) <==> P(p) || Q(p)
    ensures Overwritten(a, d, cp, R, c)
  {
    forall x, y, z | 0 <= x < EDGE && 0 <= y < EDGE && 0 <= z < EDGE
      ensures d[CellIndex(x, y, z)] == if R(WorldPos(cp, x, y, z)) then c else a[CellIndex(x, y, z)]
    {
      var p := WorldPos(cp, x, y, z);
      assert b[CellIndex(x, y, z)] == if P(p) then c else a[CellIndex(x, y, z)];
      assert d[CellIndex(x, y, z)] == if Q(p) then c else b[CellIndex(x, y, z)];
    }
  }

  lemma SameRegion(a: seq<Content>, b: seq<Content>, cp: ChunkPos, P: Pos -> bool, R: Pos -> bool, c: Content)
    requires Overwritten(a, b, cp, P, c) && forall p: Pos :: R(p) <==> P(p)
    ensures Overwritten(a, b, cp, R, c)
  {
    forall x, y, z | 0 <= x < EDGE && 0 <= y < EDGE && 0 <= z < EDGE
      ensures b[CellIndex(x, y, z)] == if R(WorldPos(cp, x, y, z)) then c else a[CellIndex(x, y, z)]
    {
      assert b[CellIndex(x, y, z)] == if P(WorldPos(cp, x, y, z)) then c else a[CellIndex(x, y, z)];
    }
  }

  /* ----- stage A ----- */

  method TerrainFillChunk(h: Hash, cp: ChunkPos, out: array<Content>)
    requires out.Length == CHUNK_CELLS
    modifies out
    ensures Holds(out[..], cp, p => Terrain(h, p))
    ensures forall x, y, z :: 0 <= x < EDGE && 0 <= y < EDGE && 0 <= z < EDGE ==>
              WorldShape.InBands(h, WorldPos(cp, x, y, z), out[CellIndex(x, y, z)])
  {
    for z := 0 to EDGE
      invariant forall x', y', z' :: 0 <= x' < EDGE && 0 <= y' < EDGE && 0 <= z' < z ==>
          out[CellIndex(x', y', z')] == Terrain(h, WorldPos(cp, x', y', z'))
    {
      for x := 0 to EDGE
        invariant forall x', y', z' :: 0 <= x' < EDGE && 0 <= y' < EDGE && 0 <= z' < z ==>
            out[CellIndex(x', y', z')] == Terrain(h, WorldPos(cp, x', y', z'))
        invariant forall x', y' :: 0 <= x' < x && 0 <= y' < EDGE ==>
            out[CellIndex(x', y', z)] == Terrain(h, WorldPos(cp, x', y', z))
      {
        ghost var before := out[..];
        FillColumn(h, cp, out, x, z);
        forall x', y', z' | 0 <= x' < EDGE && 0 <= y' < EDGE && 0 <= z' < EDGE && !(x' == x && z' == z)
          ensures out[CellIndex(x', y', z')] == before[CellIndex(x', y', z')]
        {
        }
      }
    }
    forall x, y, z | 0 <= x < EDGE && 0 <= y < EDGE && 0 <= z < EDGE
      ensures WorldShape.InBands(h, WorldPos(cp, x, y, z), out[CellIndex(x, y, z)])
    {
      WorldShape.TerrainIsInBands(h, WorldPos(cp, x, y, z));
    }
  }

  method FillColumn(h: Hash, cp: ChunkPos, out: array<Content>, x: nat, z: nat)
    requires out.Length == CHUNK_CELLS && x < EDGE && z < EDGE
    modifies out
    ensures forall y :: 0 <= y < EDGE ==> out[CellIndex(x, y, z)] == Terrain(h, WorldPos(cp, x, y, z))
    ensures forall x', y', z' :: 0 <= x' < EDGE && 0 <= y' < EDGE && 0 <= z' < EDGE && !(x' == x && z' == z)
              ==> out[CellIndex(x', y', z')] == old(out[CellIndex(x', y', z')])
  {
    var top := SurfaceHeight(h, Column(EDGE * cp.cx + x, EDGE * cp.cz + z));
    for y := 0 to EDGE
      invariant forall y' :: 0 <= y' < y ==> out[CellIndex(x, y', z)] == Terrain(h, WorldPos(cp, x, y', z))
      invariant forall x', y', z' :: 0 <= x' < EDGE && 0 <= y' < EDGE && 0 <= z' < EDGE && !(x' == x && z' == z)
                  ==> out[CellIndex(x', y', z')] == old(out[CellIndex(x', y', z')])
    {
      var wy := EDGE * cp.cy + y;
      var c := AIR;
      if wy < top - 3 {
        c := STONE;
      } else if wy < top {
        c := DIRT;
      } else if wy == top {
        c := GRASS;
      }
      ghost var before := out[..];
      out[CellIndex(x, y, z)] := c;
      forall x', y', z' | 0 <= x' < EDGE && 0 <= y' < EDGE && 0 <= z' < EDGE &&
          CellIndex(x', y', z') == CellIndex(x, y, z)
        ensures x' == x && y' == y && z' == z
      {
        CellIndexInjective(x', y', z', x, y, z);
      }
    }
  }

  /* ----- stage B ----- */

  /** The canopy cells of one row (fixed dy and dz) visited before dx. */
  ghost function RowUpTo(h: Hash, c: Column, dx: int, dy: int, dz: int): Pos -> bool {
    (p: Pos) => InCanopy(h, c, p) && p.x - c.x < dx && p.y - TrunkTop(h, c) == dy && p.z - c.z == dz
  }

  /** The canopy cells of one layer visited before row dy. */
  ghost function LayerUpTo(h: Hash, c: Column, dy: int, dz: int): Pos -> bool {
    (p: Pos) => InCanopy(h, c, p) && p.y - TrunkTop(h, c) < dy && p.z - c.z == dz
  }

  ghost function CanopyUpTo(h: Hash, c: Column, dz: int): Pos -> bool {
    (p: Pos) => InCanopy(h, c, p) && p.z - c.z < dz
  }

  ghost function TrunkUpTo(h: Hash, c: Column, y: int): Pos -> bool {
    (p: Pos) => InTrunk(h, c, p) && p.y < y
  }

  lemma NothingWritten(cells: seq<Content>, cp: ChunkPos, P: Pos -> bool, c: Content)
    requires |cells| == CHUNK_CELLS && forall p: Pos :: !P(p)
    ensures Overwritten(cells, cells, cp, P, c)
  {
  }

  method CanopyRow(h: Hash, c: Column, chunk: array<Content>, cp: ChunkPos, dy: int, dz: int)
    requires chunk.Length == CHUNK_CELLS && -REACH_XZ <= dy <= REACH_XZ && -REACH_XZ <= dz <= REACH_XZ
    modifies chunk
    ensures Overwritten(old(chunk[..]), chunk[..], cp, RowUpTo(h, c, REACH_XZ + 1, dy, dz), LEAVES)
  {
    ghost var start := chunk[..];
    NothingWritten(start, cp, RowUpTo(h, c, -REACH_XZ, dy, dz), LEAVES);
    for dx := -REACH_XZ to REACH_XZ + 1
      invariant Overwritten(start, chunk[..], cp, RowUpTo(h, c, dx, dy, dz), LEAVES)
    {
      if Abs(dx) + Abs(dy) + Abs(dz) <= REACH_XZ {
        ghost var mid := chunk[..];
        var target := Pos(c.x + dx, TrunkTop(h, c) + dy, c.z + dz);
        WriteCell(chunk, cp, target, LEAVES);
        JoinWrites(start, mid, chunk[..], cp, RowUpTo(h, c, dx, dy, dz), q => q == target,
                   RowUpTo(h, c, dx + 1, dy, dz), LEAVES);
      } else {
        SameRegion(start, chunk[..], cp, RowUpTo(h, c, dx, dy, dz), RowUpTo(h, c, dx + 1, dy, dz), LEAVES);
      }
    }
  }

  method CanopyLayer(h: Hash, c: Column, chunk: array<Content>, cp: ChunkPos, dz: int)
    requires chunk.Length == CHUNK_CELLS && -REACH_XZ <= dz <= REACH_XZ
    modifies chunk
    ensures Overwritten(old(chunk[..]), chunk[..], cp, LayerUpTo(h, c, REACH_XZ + 1, dz), LEAVES)
  {
    ghost var start := chunk[..];
    NothingWritten(start, cp, LayerUpTo(h, c, -REACH_XZ, dz), LEAVES);
    for dy := -REACH_XZ to REACH_XZ + 1
      invariant Overwritten(start, chunk[..], cp, LayerUpTo(h, c, dy, dz), LEAVES)
    {
      ghost var mid := chunk[..];
      CanopyRow(h, c, chunk, cp, dy, dz);
      JoinWrites(start, mid, chunk[..], cp, LayerUpTo(h, c, dy, dz), RowUpTo(h, c, REACH_XZ + 1, dy, dz),
                 LayerUpTo(h, c, dy + 1, dz), LEAVES);
    }
  }

  method Canopy(h: Hash, c: Column, chunk: array<Content>, cp: ChunkPos)
    requires chunk.Length == CHUNK_CELLS
    modifies chunk
    ensures Overwritten(old(chunk[..]), chunk[..], cp, p => InCanopy(h, c, p), LEAVES)
  {
    ghost var start := chunk[..];
    NothingWritten(start, cp, CanopyUpTo(h, c, -REACH_XZ), LEAVES);
    for dz := -REACH_XZ to REACH_XZ + 1
      invariant Overwritten(start, chunk[..], cp, CanopyUpTo(h, c, dz), LEAVES)
    {
      ghost var mid := chunk[..];
      CanopyLayer(h, c, chunk, cp, dz);
      JoinWrites(start, mid, chunk[..], cp, CanopyUpTo(h, c, dz), LayerUpTo(h, c, REACH_XZ + 1, dz),
                 CanopyUpTo(h, c, dz + 1), LEAVES);
    }
    SameRegion(start, chunk[..], cp, CanopyUpTo(h, c, REACH_XZ + 1), p => InCanopy(h, c, p), LEAVES);
  }

  method Trunk(h: Hash, c: Column, chunk: array<Content>, cp: ChunkPos)
    requires chunk.Length == CHUNK_CELLS
    modifies chunk
    ensures Overwritten(old(chunk[..]), chunk[..], cp, p => InTrunk(h, c, p), WOOD)
  {
    ghost var start := chunk[..];
    var bottom, top := SurfaceHeight(h, c) + 1, TrunkTop(h, c);
    NothingWritten(start, cp, TrunkUpTo(h, c, bottom), WOOD);
    for y := bottom to top + 1
      invariant Overwritten(start, chunk[..], cp, TrunkUpTo(h, c, y), WOOD)
    {
      ghost var mid := chunk[..];
      var target := Pos(c.x, y, c.z);
      WriteCell(chunk, cp, target, WOOD);
      JoinWrites(start, mid, chunk[..], cp, TrunkUpTo(h, c, y), q => q == target, TrunkUpTo(h, c, y + 1), WOOD);
    }
    SameRegion(start, chunk[..], cp, TrunkUpTo(h, c, top + 1), p => InTrunk(h, c, p), WOOD);
  }

  /** Canopy first, trunk last. */
  method ApplyStructure(h: Hash, c: Column, chunk: array<Content>, cp: ChunkPos, ghost cols: seq<Column>)
    requires chunk.Length == CHUNK_CELLS && IsAnchor(h, c)
    requires Holds(chunk[..], cp, p => Overlaid(h, cols, p))
    modifies chunk
    ensures Holds(chunk[..], cp, p => Overlaid(h, cols + [c], p))
  {
    ghost var start := chunk[..];
    Canopy(h, c, chunk, cp);
    ghost var mid := chunk[..];
    Trunk(h, c, chunk, cp);
    assert (cols + [c])[..|cols|] == cols;
    StructureOverlays(h, c, cols, start, mid, chunk[..], cp);
  }

  lemma StructureOverlays(h: Hash, c: Column, cols: seq<Column>, a: seq<Content>, b: seq<Content>,
                          d: seq<Content>, cp: ChunkPos)
    requires IsAnchor(h, c) && Holds(a, cp, p => Overlaid(h, cols, p))
    requires Overwritten(a, b, cp, p => InCanopy(h, c, p), LEAVES)
    requires Overwritten(b, d, cp, p => InTrunk(h, c, p), WOOD)
    ensures Holds(d, cp, p => Overlaid(h, cols + [c], p))
  {
    forall x, y, z | 0 <= x < EDGE && 0 <= y < EDGE && 0 <= z < EDGE
      ensures d[CellIndex(x, y, z)] == Overlaid(h, cols + [c], WorldPos(cp, x, y, z))
    {
      var p := WorldPos(cp, x, y, z);
      assert a[CellIndex(x, y, z)] == Overlaid(h, cols, p);
      assert b[CellIndex(x, y, z)] == if InCanopy(h, c, p) then LEAVES else a[CellIndex(x, y, z)];
      assert (cols + [c])[..|cols|] == cols;
    }
  }

  /* ----- stage C ----- */

  method DecorateChunk(h: Hash, cp: ChunkPos, chunk: array<Content>)
    requires chunk.Length == CHUNK_CELLS
    modifies chunk
    ensures forall x, y, z :: 0 <= x < EDGE && 0 <= y < EDGE && 0 <= z < EDGE ==>
              chunk[CellIndex(x, y, z)] == Decorated(h, old(chunk[CellIndex(x, y, z)]), WorldPos(cp, x, y, z))
  {
    ghost var before := chunk[..];
    for z := 0 to EDGE
      invariant DecoratedUpTo(h, cp, before, chunk[..], 0, 0, z)
    {
      for y := 0 to EDGE
        invariant DecoratedUpTo(h, cp, before, chunk[..], 0, y, z)
      {
        for x := 0 to EDGE
          invariant DecoratedUpTo(h, cp, before, chunk[..], x, y, z)
        {
          DecorateNext(h, cp, before, chunk[..], x, y, z);
          var i := CellIndex(x, y, z);
          if chunk[i] == GRASS && h(EDGE * cp.cx + x, EDGE * cp.cy + y, EDGE * cp.cz + z, SaltDeco) % 7 == 0 {
            chunk[i] := FLOWER;
          }
        }
      }
    }
  }

  predicate VisitedBefore(x: int, y: int, z: int, x': int, y': int, z': int) {
    z < z' || (z == z' && (y < y' || (y == y' && x < x')))
  }

  ghost predicate DecoratedUpTo(h: Hash, cp: ChunkPos, before: seq<Content>, now: seq<Content>, x': int,
                                y': int, z': int) {
    && |before| == CHUNK_CELLS && |now| == CHUNK_CELLS
    && forall x, y, z :: 0 <= x < EDGE && 0 <= y < EDGE && 0 <= z < EDGE ==>
         now[CellIndex(x, y, z)] ==
             (if VisitedBefore(x, y, z, x', y', z') then Decorated(h, before[CellIndex(x, y, z)], WorldPos(cp, x, y, z))
                                     else before[CellIndex(x, y, z)])
  }

  lemma DecorateNext(h: Hash, cp: ChunkPos, before: seq<Content>, now: seq<Content>, x': nat, y': nat, z': nat)
    requires x' < EDGE && y' < EDGE && z' < EDGE && DecoratedUpTo(h, cp, before, now, x', y', z')
    ensures var i := CellIndex(x', y', z');
            var now' := now[i := Decorated(h, now[i], WorldPos(cp, x', y', z'))];
            now[i] == before[i] && DecoratedUpTo(h, cp, before, now', x' + 1, y', z')
  {
    var i := CellIndex(x', y', z');
    forall x, y, z | 0 <= x < EDGE && 0 <= y < EDGE && 0 <= z < EDGE && CellIndex(x, y, z) == i
      ensures x == x' && y == y' && z == z'
    {
      CellIndexInjective(x, y, z, x', y', z');
    }
  }

  /* ----- the whole chunk ----- */

  /** The gathered columns cover every anchor in reach of the chunk's cells. */
  lemma GatherIsComplete(h: Hash, cp: ChunkPos, cols: seq<Column>, x: int, y: int, z: int)
    requires 0 <= x < EDGE && 0 <= y < EDGE && 0 <= z < EDGE
    requires cols == Window(EDGE * cp.cx - REACH_XZ, EDGE * cp.cx + EDGE + REACH_XZ, EDGE * cp.cz - REACH_XZ,
                            EDGE * cp.cz + EDGE + REACH_XZ)
    ensures Ascending(cols) && CompleteAt(h, cols, WorldPos(cp, x, y, z))
  {
    WindowFacts(EDGE * cp.cx - REACH_XZ, EDGE * cp.cx + EDGE + REACH_XZ, EDGE * cp.cz - REACH_XZ,
                EDGE * cp.cz + EDGE + REACH_XZ);
  }

  lemma SkipColumn(h: Hash, c: Column, cols: seq<Column>, cells: seq<Content>, cp: ChunkPos)
    requires !IsAnchor(h, c) && Holds(cells, cp, p => Overlaid(h, cols, p))
    ensures Holds(cells, cp, p => Overlaid(h, cols + [c], p))
  {
    assert (cols + [c])[..|cols|] == cols;
  }

  method GatherRow(h: Hash, cp: ChunkPos, chunk: array<Content>, x0: int, x1: int, wz: int,
                   ghost done: seq<Column>)
    requires chunk.Length == CHUNK_CELLS && x0 <= x1
    requires Holds(chunk[..], cp, p => Overlaid(h, done, p))
    modifies chunk
    ensures Holds(chunk[..], cp, p => Overlaid(h, done + WindowRow(x0, x1, wz), p))
  {
    ghost var cols := done;
    for wx := x0 to x1
      invariant cols == done + WindowRow(x0, wx, wz)
      invariant Holds(chunk[..], cp, p => Overlaid(h, cols, p))
    {
      var c := Column(wx, wz);
      if IsAnchor(h, c) {
        ApplyStructure(h, c, chunk, cp, cols);
      } else {
        SkipColumn(h, c, cols, chunk[..], cp);
      }
      cols := cols + [c];
    }
  }

  /**
   Terrain, gathered structures in canonical order, decoration. The result is the restriction of
   the one infinite world to this chunk, at every signed chunk position.
   */
  method GenerateChunk(h: Hash, cp: ChunkPos, out: array<Content>)
    requires out.Length == CHUNK_CELLS
    modifies out
    ensures Holds(out[..], cp, p => WorldCell(h, p))
    ensures Shaped(h, out[..], cp)
  {
    TerrainFillChunk(h, cp, out);
    var x0, x1 := EDGE * cp.cx - REACH_XZ, EDGE * cp.cx + EDGE + REACH_XZ;
    var z0, z1 := EDGE * cp.cz - REACH_XZ, EDGE * cp.cz + EDGE + REACH_XZ;
    for wz := z0 to z1
      invariant Holds(out[..], cp, p => Overlaid(h, Window(x0, x1, z0, wz), p))
    {
      GatherRow(h, cp, out, x0, x1, wz, Window(x0, x1, z0, wz));
    }
    ghost var gathered := out[..];
    DecorateChunk(h, cp, out);
    ChunkIsWorld(h, cp, Window(x0, x1, z0, z1), gathered, out[..]);
    WorldIsShaped(h, cp, out[..]);
  }

  /** Every cell holds what its place under the trees and the sky demands. */
  ghost predicate Shaped(h: Hash, cells: seq<Content>, cp: ChunkPos) {
    && |cells| == CHUNK_CELLS
    && forall x, y, z :: 0 <= x < EDGE && 0 <= y < EDGE && 0 <= z < EDGE ==>
         WorldShape.IsShaped(h, WorldPos(cp, x, y, z), cells[CellIndex(x, y, z)])
  }

  lemma WorldIsShaped(h: Hash, cp: ChunkPos, cells: seq<Content>)
    requires Holds(cells, cp, p => WorldCell(h, p))
    ensures Shaped(h, cells, cp)
  {
    forall x, y, z | 0 <= x < EDGE && 0 <= y < EDGE && 0 <= z < EDGE
      ensures WorldShape.IsShaped(h, WorldPos(cp, x, y, z), cells[CellIndex(x, y, z)])
    {
      WorldShape.WorldIsShaped(h, WorldPos(cp, x, y, z));
    }
  }

  lemma ChunkIsWorld(h: Hash, cp: ChunkPos, cols: seq<Column>, gathered: seq<Content>, cells: seq<Content>)
    requires cols == Window(EDGE * cp.cx - REACH_XZ, EDGE * cp.cx + EDGE + REACH_XZ, EDGE * cp.cz - REACH_XZ,
                            EDGE * cp.cz + EDGE + REACH_XZ)
    requires Holds(gathered, cp, p => Overlaid(h, cols, p)) && |cells| == CHUNK_CELLS
    requires forall x, y, z :: 0 <= x < EDGE && 0 <= y < EDGE && 0 <= z < EDGE ==>
               cells[CellIndex(x, y, z)] == Decorated(h, gathered[CellIndex(x, y, z)], WorldPos(cp, x, y, z))
    ensures Holds(cells, cp, p => WorldCell(h, p))
  {
    forall x, y, z | 0 <= x < EDGE && 0 <= y < EDGE && 0 <= z < EDGE
      ensures cells[CellIndex(x, y, z)] == WorldCell(h, WorldPos(cp, x, y, z))
    {
      var p := WorldPos(cp, x, y, z);
      GatherIsComplete(h, cp, cols, x, y, z);
      WorldFromAnyWindow(h, cols, p);
      assert gathered[CellIndex(x, y, z)] == Overlaid(h, cols, p);
    }
  }

  /** The chunk's columns widened by the structure reach. */
  predicate InGather(cp: ChunkPos, c: Column) {
    && EDGE * cp.cx - REACH_XZ <= c.x < EDGE * cp.cx + EDGE + REACH_XZ
    && EDGE * cp.cz - REACH_XZ <= c.z < EDGE * cp.cz + EDGE + REACH_XZ
  }

  /**
   Applying the anchors of any larger window in ascending key order gives the same chunk: the
   reach-2 gather misses nothing, and loop order is key order across negative coordinates.
   */
  lemma ChunkOfLargerWindow(h: Hash, cp: ChunkPos, cols: seq<Column>, x: int, y: int, z: int)
    requires 0 <= x < EDGE && 0 <= y < EDGE && 0 <= z < EDGE
    requires forall i :: 0 <= i < |cols| ==> InWord(cols[i])
    requires forall i, j :: 0 <= i < j < |cols| ==> AnchorOrderKey(cols[i]) < AnchorOrderKey(cols[j])
    requires forall c: Column :: IsAnchor(h, c) && InGather(cp, c) ==> c in cols
    ensures var p := WorldPos(cp, x, y, z); Decorated(h, Overlaid(h, cols, p), p) == WorldCell(h, p)
  {
    forall i, j | 0 <= i < j < |cols|
      ensures Before(cols[i], cols[j])
    {
      KeyOrderIsColumnOrder(cols[i], cols[j]);
    }
    WorldFromAnyWindow(h, cols, WorldPos(cp, x, y, z));
  }

  /* ----- the standard region ----- */

  const REGION_CX := 8
  const REGION_CY := 4
  const REGION_CZ := 8

  /** Storage order of the region's chunks: cx fastest, then cy, then cz. */
  function RegionIndex(cx: nat, cy: nat, cz: nat): nat {
    cx + REGION_CX * (cy + REGION_CY * cz)
  }

  function RegionPos(i: nat): ChunkPos {
    ChunkPos(i % REGION_CX, i / REGION_CX % REGION_CY, i / (REGION_CX * REGION_CY))
  }

  lemma PosOfRegionIndex(cx: nat, cy: nat, cz: nat)
    requires cx < REGION_CX && cy < REGION_CY
    ensures RegionPos(RegionIndex(cx, cy, cz)) == ChunkPos(cx, cy, cz)
  {
    var m := cy + REGION_CY * cz;
    var i := RegionIndex(cx, cy, cz);
    assert i == REGION_CX * m + cx;
    assert i / REGION_CX == m && i % REGION_CX == cx;
    assert m / REGION_CY == cz && m % REGION_CY == cy;
    assert i / (REGION_CX * REGION_CY) == i / REGION_CX / REGION_CY;
  }

  ghost predicate RegionHolds(h: Hash, region: seq<seq<Content>>, n: nat) {
    n <= |region| && forall i :: 0 <= i < n ==> Holds(region[i], RegionPos(i), p => WorldCell(h, p))
  }

  method GenerateRow(h: Hash, region: array<seq<Content>>, cy: nat, cz: nat)
    requires region.Length == REGION_CX * REGION_CY * REGION_CZ && cy < REGION_CY && cz < REGION_CZ
    requires RegionHolds(h, region[..], RegionIndex(0, cy, cz))
    modifies region
    ensures RegionHolds(h, region[..], RegionIndex(REGION_CX, cy, cz))
  {
    for cx := 0 to REGION_CX
      invariant RegionHolds(h, region[..], RegionIndex(cx, cy, cz))
    {
      var chunk := new Content[CHUNK_CELLS];
      GenerateChunk(h, ChunkPos(cx, cy, cz), chunk);
      PosOfRegionIndex(cx, cy, cz);
      region[RegionIndex(cx, cy, cz)] := chunk[..];
    }
  }

  /** Every chunk of the standard region, each on its own: together the restriction of the world to it. */
  method GenerateRegionGather(h: Hash, region: array<seq<Content>>)
    requires region.Length == REGION_CX * REGION_CY * REGION_CZ
    modifies region
    ensures RegionHolds(h, region[..], REGION_CX * REGION_CY * REGION_CZ)
  {
    for cz := 0 to REGION_CZ
      invariant RegionHolds(h, region[..], RegionIndex(0, 0, cz))
    {
      for cy := 0 to REGION_CY
        invariant RegionHolds(h, region[..], RegionIndex(0, cy, cz))
      {
        GenerateRow(h, region, cy, cz);
      }
    }
  }
}
