/**
 Gather map generation. Every quantity comes from one coordinate hash, kept uninterpreted. A chunk
 pulls the structures of every anchor column near it, in canonical order; `WorldCell` is the one
 infinite world that every chunk turns out to be a restriction of.
 */
module Minigen {
  import opened Arithmetic
  import opened Bytes
  import opened Chunk

  datatype Salt = SaltHeight | SaltAnchor | SaltTrunk | SaltDeco

  /** The seeded coordinate hash. */
  type Hash = (int, int, int, Salt) -> nat

  type Content = c: nat | c < 0x1_0000
  const AIR: Content := 0
  const STONE: Content := 1
  const DIRT: Content := 2
  const GRASS: Content := 3
  const WOOD: Content := 4
  const LEAVES: Content := 5
  const FLOWER: Content := 6

  const HEIGHT_MIN := 8
  const HEIGHT_MAX := 24
  const REACH_XZ := 2
  const REACH_Y := 8

  datatype Column = Column(x: int, z: int)

  datatype Pos = Pos(x: int, y: int, z: int)

  function SurfaceHeight(h: Hash, c: Column): (y: int)
    ensures HEIGHT_MIN <= y < HEIGHT_MAX
  {
    HEIGHT_MIN + h(c.x, c.z, 0, SaltHeight) % (HEIGHT_MAX - HEIGHT_MIN)
  }

  predicate IsAnchor(h: Hash, c: Column) {
    h(c.x, c.z, SurfaceHeight(h, c), SaltAnchor) % 48 == 0
  }

  function TrunkHeight(h: Hash, c: Column): (t: int)
    ensures 4 <= t <= 6
  {
    4 + h(c.x, c.z, 0, SaltTrunk) % 3
  }

  function TrunkTop(h: Hash, c: Column): int {
    SurfaceHeight(h, c) + TrunkHeight(h, c)
  }

  predicate InWord(c: Column) {
    IsInt32(c.x) && IsInt32(c.z)
  }

  function AnchorOrderKey(c: Column): int
    requires InWord(c)
  {
    FlipSign(c.z) * 0x1_0000_0000 + FlipSign(c.x)
  }

  /** z-major, x-minor, signed. */
  predicate Before(a: Column, b: Column) {
    a.z < b.z || (a.z == b.z && a.x < b.x)
  }

  /** Key order is signed column order over the whole signed domain. */
  lemma KeyOrderIsColumnOrder(a: Column, b: Column)
    requires InWord(a) && InWord(b)
    ensures AnchorOrderKey(a) < AnchorOrderKey(b) <==> Before(a, b)
  {
  }

  /* ----- one infinite world ----- */

  function Abs(a: int): int { if a < 0 then -a else a }

  function Terrain(h: Hash, p: Pos): Content {
    var top := SurfaceHeight(h, Column(p.x, p.z));
    if p.y < top - 3 then STONE
    else if p.y < top then DIRT
    else if p.y == top then GRASS
    else AIR
  }

  predicate InCanopy(h: Hash, c: Column, p: Pos) {
    Abs(p.x - c.x) + Abs(p.y - TrunkTop(h, c)) + Abs(p.z - c.z) <= REACH_XZ
  }

  predicate InTrunk(h: Hash, c: Column, p: Pos) {
    p.x == c.x && p.z == c.z && SurfaceHeight(h, c) < p.y <= TrunkTop(h, c)
  }

  /** What the structure anchored at c puts at p; the trunk is written after the canopy. */
  function StructureAt(h: Hash, c: Column, p: Pos): Option<Content> {
    if !IsAnchor(h, c) then None
    else if InTrunk(h, c, p) then Some(WOOD)
    else if InCanopy(h, c, p) then Some(LEAVES)
    else None
  }

  /** Terrain overlaid by the columns' structures in sequence, later ones on top. */
  function Overlaid(h: Hash, cols: seq<Column>, p: Pos): Content
    decreases |cols|
  {
    if cols == [] then Terrain(h, p)
    else
      var s := StructureAt(h, cols[|cols| - 1], p);
      if s.Some? then s.value else Overlaid(h, cols[..|cols| - 1], p)
  }

  function Decorated(h: Hash, c: Content, p: Pos): Content {
    if c == GRASS && h(p.x, p.y, p.z, SaltDeco) % 7 == 0 then FLOWER else c
  }

  ghost predicate Ascending(cols: seq<Column>) {
    forall i, j :: 0 <= i < j < |cols| ==> Before(cols[i], cols[j])
  }

  predicate Reaches(c: Column, p: Pos) {
    Abs(p.x - c.x) <= REACH_XZ && Abs(p.z - c.z) <= REACH_XZ
  }

  /** Every anchor column that could touch p is listed. */
  ghost predicate CompleteAt(h: Hash, cols: seq<Column>, p: Pos) {
    forall c: Column :: Reaches(c, p) && IsAnchor(h, c) ==> c in cols
  }

  /** Columns of an x-z rectangle in canonical order. */
  function WindowRow(x0: int, x1: int, z: int): (cols: seq<Column>)
    requires x0 <= x1
    ensures |cols| == x1 - x0
    ensures forall i :: 0 <= i < |cols| ==> cols[i] == Column(x0 + i, z)
  {
    seq(x1 - x0, i => Column(x0 + i, z))
  }

  function Window(x0: int, x1: int, z0: int, z1: int): (cols: seq<Column>)
    requires x0 <= x1 && z0 <= z1
    decreases z1 - z0
  {
    if z0 == z1 then [] else Window(x0, x1, z0, z1 - 1) + WindowRow(x0, x1, z1 - 1)
  }

  /** The infinite world: terrain, the structures that reach the cell, decoration. */
  function WorldCell(h: Hash, p: Pos): Content {
    Decorated(h, Overlaid(h, Window(p.x - REACH_XZ, p.x + REACH_XZ + 1, p.z - REACH_XZ, p.z + REACH_XZ + 1), p), p)
  }

  lemma StructureReach(h: Hash, c: Column, p: Pos)
    requires StructureAt(h, c, p).Some?
    ensures Reaches(c, p) && IsAnchor(h, c)
    ensures SurfaceHeight(h, c) < p.y <= SurfaceHeight(h, c) + REACH_Y
  {
  }

  lemma {:induction false} WindowFacts(x0: int, x1: int, z0: int, z1: int)
    requires x0 <= x1 && z0 <= z1
    ensures Ascending(Window(x0, x1, z0, z1))
    ensures forall c: Column :: c in Window(x0, x1, z0, z1) <==> x0 <= c.x < x1 && z0 <= c.z < z1
    decreases z1 - z0
  {
    if z0 < z1 {
      WindowFacts(x0, x1, z0, z1 - 1);
      var front, row := Window(x0, x1, z0, z1 - 1), WindowRow(x0, x1, z1 - 1);
      forall c: Column
        ensures c in row <==> x0 <= c.x < x1 && c.z == z1 - 1
      {
        if x0 <= c.x < x1 && c.z == z1 - 1 { assert row[c.x - x0] == c; }
      }
      forall i, j | 0 <= i < j < |front + row|
        ensures Before((front + row)[i], (front + row)[j])
      {
        if i < |front| <= j { assert front[i] in front && row[j - |front|] in row; }
      }
    }
  }

  ghost predicate LastToucher(h: Hash, cols: seq<Column>, p: Pos, k: int) {
    && 0 <= k < |cols|
    && StructureAt(h, cols[k], p).Some?
    && forall j :: k < j < |cols| ==> StructureAt(h, cols[j], p).None?
  }

  ghost predicate Untouched(h: Hash, cols: seq<Column>, p: Pos) {
    forall j :: 0 <= j < |cols| ==> StructureAt(h, cols[j], p).None?
  }

  /** Index of the last listed column whose structure touches p, or -1. */
  function LastIndex(h: Hash, cols: seq<Column>, p: Pos): (k: int)
    decreases |cols|
  {
    if cols == [] then -1
    else if StructureAt(h, cols[|cols| - 1], p).Some? then |cols| - 1
    else LastIndex(h, cols[..|cols| - 1], p)
  }

  lemma {:induction false} OverlaidByLast(h: Hash, cols: seq<Column>, p: Pos)
    ensures var k := LastIndex(h, cols, p);
            if k < 0 then Untouched(h, cols, p) && Overlaid(h, cols, p) == Terrain(h, p)
            else LastToucher(h, cols, p, k) && Overlaid(h, cols, p) == StructureAt(h, cols[k], p).value
    decreases |cols|
  {
    if cols == [] {
      assert Untouched(h, cols, p);
    } else if StructureAt(h, cols[|cols| - 1], p).None? {
      var front, k := cols[..|cols| - 1], LastIndex(h, cols, p);
      OverlaidByLast(h, front, p);
      if k < 0 {
        UntouchedNext(h, cols, p);
      } else {
        LastToucherNext(h, cols, p, k);
      }
    } else {
      assert LastToucher(h, cols, p, |cols| - 1);
    }
  }

  lemma UntouchedNext(h: Hash, cols: seq<Column>, p: Pos)
    requires cols != [] && StructureAt(h, cols[|cols| - 1], p).None? && Untouched(h, cols[..|cols| - 1], p)
    ensures Untouched(h, cols, p)
  {
    forall j | 0 <= j < |cols|
      ensures StructureAt(h, cols[j], p).None?
    {
      assert j < |cols| - 1 ==> cols[..|cols| - 1][j] == cols[j];
    }
  }

  lemma LastToucherNext(h: Hash, cols: seq<Column>, p: Pos, k: int)
    requires cols != [] && StructureAt(h, cols[|cols| - 1], p).None? && LastToucher(h, cols[..|cols| - 1], p, k)
    ensures LastToucher(h, cols, p, k)
  {
    forall j | k < j < |cols|
      ensures StructureAt(h, cols[j], p).None?
    {
      assert j < |cols| - 1 ==> cols[..|cols| - 1][j] == cols[j];
    }
  }

  lemma NoLater(h: Hash, a: seq<Column>, b: seq<Column>, p: Pos, i: int, k: int)
    requires Ascending(b) && CompleteAt(h, b, p)
    requires LastToucher(h, a, p, i) && LastToucher(h, b, p, k)
    ensures !Before(b[k], a[i])
  {
    StructureReach(h, a[i], p);
    var j :| 0 <= j < |b| && b[j] == a[i];
    assert j <= k;
  }

  /**
   The gather window does not matter: any two ascending lists that miss no anchor in reach of a
   cell leave the same content there.
   */
  lemma OverlayIsWindowFree(h: Hash, a: seq<Column>, b: seq<Column>, p: Pos)
    requires Ascending(a) && Ascending(b) && CompleteAt(h, a, p) && CompleteAt(h, b, p)
    ensures Overlaid(h, a, p) == Overlaid(h, b, p)
  {
    OverlaidByLast(h, a, p);
    OverlaidByLast(h, b, p);
    var i, k := LastIndex(h, a, p), LastIndex(h, b, p);
    if 0 <= i {
      Touched(h, a, b, p, i);
    }
    if 0 <= k {
      Touched(h, b, a, p, k);
    }
    if 0 <= i && 0 <= k {
      NoLater(h, a, b, p, i, k);
      NoLater(h, b, a, p, k, i);
      assert a[i] == b[k];
    }
  }

  lemma Touched(h: Hash, a: seq<Column>, b: seq<Column>, p: Pos, i: int)
    requires CompleteAt(h, b, p) && LastToucher(h, a, p, i)
    ensures !Untouched(h, b, p)
  {
    StructureReach(h, a[i], p);
    var j :| 0 <= j < |b| && b[j] == a[i];
  }

  /** Any ascending list that is complete at a cell computes the world there. */
  lemma WorldFromAnyWindow(h: Hash, cols: seq<Column>, p: Pos)
    requires Ascending(cols) && CompleteAt(h, cols, p)
    ensures Decorated(h, Overlaid(h, cols, p), p) == WorldCell(h, p)
  {
    var near := Window(p.x - REACH_XZ, p.x + REACH_XZ + 1, p.z - REACH_XZ, p.z + REACH_XZ + 1);
    WindowFacts(p.x - REACH_XZ, p.x + REACH_XZ + 1, p.z - REACH_XZ, p.z + REACH_XZ + 1);
    OverlayIsWindowFree(h, cols, near, p);
  }
}
