/**
 What the infinite world looks like, cell by cell: bands of ground under an open sky, and trees of a
 trunk and a crown. Nothing here speaks of windows, overlays or loops.
 */
module WorldShape {
  import opened Bytes
  import opened Minigen

  /* ----- trees ----- */

  /** The tree at c is 4 to 6 cells of trunk above its surface. */
  predicate TrunkAt(h: Hash, c: Column, p: Pos) {
    IsAnchor(h, c) && p.x == c.x && p.z == c.z && 1 <= p.y - SurfaceHeight(h, c) <= TrunkHeight(h, c)
  }

  /** Its crown is the diamond of radius 2 around the top of the trunk. */
  predicate CrownAt(h: Hash, c: Column, p: Pos) {
    IsAnchor(h, c) && Abs(p.x - c.x) + Abs(p.y - (SurfaceHeight(h, c) + TrunkHeight(h, c))) + Abs(p.z - c.z) <= 2
  }

  predicate TreeAt(h: Hash, c: Column, p: Pos) {
    TrunkAt(h, c, p) || CrownAt(h, c, p)
  }

  ghost predicate NoTree(h: Hash, p: Pos) {
    forall c: Column :: !TreeAt(h, c, p)
  }

  /** The last tree in z, x order that has a cell at p. */
  ghost predicate LastTree(h: Hash, c: Column, p: Pos) {
    TreeAt(h, c, p) && forall d: Column :: TreeAt(h, d, p) && d != c ==> Before(d, c)
  }

  lemma StructureIsTree(h: Hash, c: Column, p: Pos)
    ensures StructureAt(h, c, p)
         == if TrunkAt(h, c, p) then Some(WOOD) else if CrownAt(h, c, p) then Some(LEAVES) else None
    ensures TreeAt(h, c, p) ==> Reaches(c, p)
  {
  }

  /* ----- what a cell must hold ----- */

  /** Air (0) above the surface, grass (3) on it, three cells of dirt (2) below it, then stone (1). */
  ghost predicate InBands(h: Hash, p: Pos, c: Content) {
    var depth := SurfaceHeight(h, Column(p.x, p.z)) - p.y;
    && (depth < 0 ==> c == 0)
    && (depth == 0 ==> c == 3)
    && (1 <= depth <= 3 ==> c == 2)
    && (depth > 3 ==> c == 1)
  }

  lemma TerrainIsInBands(h: Hash, p: Pos)
    ensures InBands(h, p, Terrain(h, p))
  {
  }

  /** The bands, with a flower (6) instead of grass where the hash says so. */
  ghost predicate GroundIs(h: Hash, p: Pos, c: Content) {
    if p.y == SurfaceHeight(h, Column(p.x, p.z)) && h(p.x, p.y, p.z, SaltDeco) % 7 == 0 then c == 6
    else InBands(h, p, c)
  }

  /** Ground where there is no tree; else the wood (4) or the leaves (5) of the last tree there. */
  ghost predicate IsShaped(h: Hash, p: Pos, c: Content) {
    && (NoTree(h, p) ==> GroundIs(h, p, c))
    && (forall t: Column :: LastTree(h, t, p) ==> c == if TrunkAt(h, t, p) then 4 else 5)
  }

  /** One of the two always applies, so the shape determines the cell. */
  lemma TreeOrGround(h: Hash, p: Pos)
    ensures NoTree(h, p) || exists c: Column :: LastTree(h, c, p)
  {
    var near := Window(p.x - REACH_XZ, p.x + REACH_XZ + 1, p.z - REACH_XZ, p.z + REACH_XZ + 1);
    var k := LastIndex(h, near, p);
    WindowFacts(p.x - REACH_XZ, p.x + REACH_XZ + 1, p.z - REACH_XZ, p.z + REACH_XZ + 1);
    OverlaidByLast(h, near, p);
    if k >= 0 {
      LastIndexIsLastTree(h, near, p, k);
    } else {
      UntouchedIsNoTree(h, near, p);
    }
  }

  lemma LastIndexIsLastTree(h: Hash, cols: seq<Column>, p: Pos, k: nat)
    requires Ascending(cols) && CompleteAt(h, cols, p) && LastToucher(h, cols, p, k)
    ensures LastTree(h, cols[k], p)
  {
    StructureIsTree(h, cols[k], p);
    forall d: Column | TreeAt(h, d, p) && d != cols[k]
      ensures Before(d, cols[k])
    {
      StructureIsTree(h, d, p);
      var j :| 0 <= j < |cols| && cols[j] == d;
    }
  }

  lemma LastTreeIsUnique(h: Hash, a: Column, b: Column, p: Pos)
    requires LastTree(h, a, p) && LastTree(h, b, p)
    ensures a == b
  {
  }

  lemma TreeIsShaped(h: Hash, p: Pos, t: Column, c: Content)
    requires LastTree(h, t, p) && StructureAt(h, t, p) == Some(c)
    ensures IsShaped(h, p, c) && Decorated(h, c, p) == c
  {
    StructureIsTree(h, t, p);
    assert TreeAt(h, t, p);
    forall d: Column | LastTree(h, d, p)
      ensures c == if TrunkAt(h, d, p) then 4 else 5
    {
      LastTreeIsUnique(h, d, t, p);
    }
  }

  lemma GroundIsShaped(h: Hash, p: Pos)
    requires NoTree(h, p)
    ensures IsShaped(h, p, Decorated(h, Terrain(h, p), p))
  {
    TerrainIsInBands(h, p);
    forall t: Column
      ensures !LastTree(h, t, p)
    {
      assert !TreeAt(h, t, p);
    }
  }

  lemma UntouchedIsNoTree(h: Hash, cols: seq<Column>, p: Pos)
    requires CompleteAt(h, cols, p) && Untouched(h, cols, p)
    ensures NoTree(h, p)
  {
    forall t: Column
      ensures !TreeAt(h, t, p)
    {
      StructureIsTree(h, t, p);
    }
  }

  /** The world has this shape, at every cell. */
  lemma WorldIsShaped(h: Hash, p: Pos)
    ensures IsShaped(h, p, WorldCell(h, p))
  {
    var near := Window(p.x - REACH_XZ, p.x + REACH_XZ + 1, p.z - REACH_XZ, p.z + REACH_XZ + 1);
    var k := LastIndex(h, near, p);
    WindowFacts(p.x - REACH_XZ, p.x + REACH_XZ + 1, p.z - REACH_XZ, p.z + REACH_XZ + 1);
    OverlaidByLast(h, near, p);
    if k >= 0 {
      LastIndexIsLastTree(h, near, p, k);
      TreeIsShaped(h, p, near[k], Overlaid(h, near, p));
    } else {
      UntouchedIsNoTree(h, near, p);
      GroundIsShaped(h, p);
    }
  }

  /** The shape leaves no choice. */
  lemma ShapeIsTheWorld(h: Hash, p: Pos, c: Content)
    ensures IsShaped(h, p, c) <==> c == WorldCell(h, p)
  {
    WorldIsShaped(h, p);
    TreeOrGround(h, p);
  }

  /** Grass or flower is exactly at the surface of a column, where no tree covers it. */
  lemma SurfaceIsGrassOrFlower(h: Hash, p: Pos)
    ensures WorldCell(h, p) == 3 || WorldCell(h, p) == 6
       <==> NoTree(h, p) && p.y == SurfaceHeight(h, Column(p.x, p.z))
  {
    WorldIsShaped(h, p);
    TreeOrGround(h, p);
    if c: Column :| LastTree(h, c, p) {
      assert TreeAt(h, c, p);
    }
  }

  /* ----- what a cell depends on ----- */

  /** Surfaces lie in [8, 24) and trunks in [4, 6], each in the hash's residue class; one column in 48 is an anchor. */
  lemma HashToShape(h: Hash, c: Column)
    ensures 8 <= SurfaceHeight(h, c) < 24 && (SurfaceHeight(h, c) - 8 - h(c.x, c.z, 0, SaltHeight)) % 16 == 0
    ensures 4 <= TrunkHeight(h, c) <= 6 && (TrunkHeight(h, c) - 4 - h(c.x, c.z, 0, SaltTrunk)) % 3 == 0
    ensures IsAnchor(h, c) <==> exists n: nat :: h(c.x, c.z, SurfaceHeight(h, c), SaltAnchor) == 48 * n
  {
    var a := h(c.x, c.z, SurfaceHeight(h, c), SaltAnchor);
    assert a == 48 * (a / 48) + a % 48;
  }

  /** Two hashes that agree on everything asked about a column. */
  ghost predicate AgreeOn(h: Hash, g: Hash, c: Column) {
    && h(c.x, c.z, 0, SaltHeight) == g(c.x, c.z, 0, SaltHeight)
    && h(c.x, c.z, 0, SaltTrunk) == g(c.x, c.z, 0, SaltTrunk)
    && forall y: int :: 8 <= y < 24 ==> h(c.x, c.z, y, SaltAnchor) == g(c.x, c.z, y, SaltAnchor)
  }

  lemma SameColumn(h: Hash, g: Hash, c: Column, p: Pos)
    requires AgreeOn(h, g, c)
    ensures SurfaceHeight(h, c) == SurfaceHeight(g, c) && StructureAt(h, c, p) == StructureAt(g, c, p)
  {
    var y := SurfaceHeight(h, c);
    assert h(c.x, c.z, y, SaltAnchor) == g(c.x, c.z, y, SaltAnchor);
  }

  lemma {:induction false} SameOverlay(h: Hash, g: Hash, cols: seq<Column>, p: Pos)
    requires AgreeOn(h, g, Column(p.x, p.z)) && forall i :: 0 <= i < |cols| ==> AgreeOn(h, g, cols[i])
    ensures Overlaid(h, cols, p) == Overlaid(g, cols, p)
    decreases |cols|
  {
    SameColumn(h, g, Column(p.x, p.z), p);
    if cols != [] {
      SameColumn(h, g, cols[|cols| - 1], p);
      SameOverlay(h, g, cols[..|cols| - 1], p);
    }
  }

  /** A cell depends on the columns within 2 of its own, and on the decoration hash at the cell itself. */
  lemma WorldIsLocal(h: Hash, g: Hash, p: Pos)
    requires forall c: Column :: Abs(p.x - c.x) <= 2 && Abs(p.z - c.z) <= 2 ==> AgreeOn(h, g, c)
    requires h(p.x, p.y, p.z, SaltDeco) == g(p.x, p.y, p.z, SaltDeco)
    ensures WorldCell(h, p) == WorldCell(g, p)
  {
    var near := Window(p.x - REACH_XZ, p.x + REACH_XZ + 1, p.z - REACH_XZ, p.z + REACH_XZ + 1);
    WindowFacts(p.x - REACH_XZ, p.x + REACH_XZ + 1, p.z - REACH_XZ, p.z + REACH_XZ + 1);
    forall i | 0 <= i < |near|
      ensures AgreeOn(h, g, near[i])
    {
      assert near[i] in near;
    }
    SameOverlay(h, g, near, p);
  }
}
