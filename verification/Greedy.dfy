/**
 The chunk mesher: palette slots per cell, one visibility mask per slice and face direction, and
 either one quad per visible face or the greedy merge of them.
 */
module Greedy {
  import opened Chunk
  import opened RectMerge
  import opened MeshFormat
  import opened VoxelBlob
  import Morton

  /** Total and stable opacity of a cell value. */
  type Opacity = CellValue -> bool

  datatype NeighborViews = NeighborViews(posX: seq<CellValue>, negX: seq<CellValue>, posY: seq<CellValue>,
                                         negY: seq<CellValue>, posZ: seq<CellValue>, negZ: seq<CellValue>)
  {
    function Side(d: nat, positive: bool): seq<CellValue> {
      match 2 * d + (if positive then 0 else 1)
      case 0 => posX
      case 1 => negX
      case 2 => posY
      case 3 => negY
      case 4 => posZ
      case _ => negZ
    }
  }

  predicate InChunk(c: Vec) {
    0 <= c.x < EDGE && 0 <= c.y < EDGE && 0 <= c.z < EDGE
  }

  /** Plain grid order. */
  function GridIndex(c: Vec): (i: nat)
    requires InChunk(c)
    ensures i < CHUNK_CELLS
  {
    c.x + EDGE * (c.y + EDGE * c.z)
  }

  lemma GridIndexInjective(a: Vec, b: Vec)
    requires InChunk(a) && InChunk(b) && GridIndex(a) == GridIndex(b)
    ensures a == b
  {
  }

  lemma IndexBound(c: Vec)
    requires InChunk(c)
    ensures Morton.Index(c.x, c.y, c.z) < CHUNK_CELLS
  {
    IndexInExtent(c.x, c.y, c.z, 4);
    CellCountIsPow8(4);
    assert InExtent(c.x, c.y, c.z, 4) by { PowersOfTwo(); }
  }

  lemma PowersOfTwo()
    ensures Arithmetic.Pow(2, 4) == 16 && Arithmetic.Pow(8, 4) == 4096
  {
    assert Arithmetic.Pow(2, 2) == 4;
    assert Arithmetic.Pow(8, 2) == 64;
  }

  /** A cell of a Morton-ordered run of 4096. */
  function CellAt(cells: seq<CellValue>, c: Vec): CellValue
    requires |cells| == CHUNK_CELLS && InChunk(c)
  {
    IndexBound(c);
    cells[Morton.Index(c.x, c.y, c.z)]
  }

  /** The shape the mesher accepts: 16^3 cells, each present in the palette. */
  ghost predicate Meshable(chunk: UnpackedChunk) {
    && chunk.log2Extent == 4
    && |chunk.cells| == CHUNK_CELLS
    && chunk.palette != []
    && forall v :: v in chunk.cells ==> v in chunk.palette
  }

  /* ----- the visibility specification ----- */

  function Step(c: Vec, d: nat, n: int): Vec {
    if d == 0 then Vec(c.x + n, c.y, c.z) else if d == 1 then Vec(c.x, c.y + n, c.z) else Vec(c.x, c.y, c.z + n)
  }

  /** The same cell carried to the opposite boundary layer. */
  function Wrap(c: Vec, d: nat): Vec {
    Step(c, d, if c.Axis(d) < 0 then EDGE else if c.Axis(d) >= EDGE then -EDGE else 0)
  }

  /** Is the cell in front of this face opaque? Outside the chunk the neighbour view answers. */
  ghost predicate CoveredFace(chunk: UnpackedChunk, nb: NeighborViews, isOpaque: Opacity, d: nat,
                              positive: bool, c: Vec)
    requires |chunk.cells| == CHUNK_CELLS && d < 3 && InChunk(c)
  {
    var n := Step(c, d, if positive then 1 else -1);
    if InChunk(n) then isOpaque(CellAt(chunk.cells, n))
    else
      var view := nb.Side(d, positive);
      |view| == CHUNK_CELLS && isOpaque(CellAt(view, Wrap(n, d)))
  }

  /** The palette slot shown by a unit face, or NO_FACE. */
  ghost function FaceSlot(chunk: UnpackedChunk, nb: NeighborViews, isOpaque: Opacity, d: nat,
                          positive: bool, c: Vec): (s: nat)
    requires |chunk.cells| == CHUNK_CELLS && d < 3 && InChunk(c)
  {
    if !isOpaque(CellAt(chunk.cells, c)) || CoveredFace(chunk, nb, isOpaque, d, positive, c) then NO_FACE
    else SlotOf(chunk.palette, CellAt(chunk.cells, c))
  }

  ghost function MaskOf(chunk: UnpackedChunk, nb: NeighborViews, isOpaque: Opacity, d: nat, positive: bool,
                        slice: nat): (m: Mask)
    requires |chunk.cells| == CHUNK_CELLS && d < 3 && slice < EDGE
  {
    seq(CELLS, i requires 0 <= i < CELLS =>
        FaceSlot(chunk, nb, isOpaque, d, positive, Place(d, slice, i / EDGE, i % EDGE)))
  }

  /* ----- the emitted quads as a function ----- */

  function RectsOf(mask: Mask, merge: bool): seq<Rect> {
    if merge then GreedyFrom(mask, NoneClaimed(), 0) else NaiveFrom(mask, 0)
  }

  function Lift(rs: seq<Rect>, d: nat, positive: bool, p: nat): seq<Quad> {
    seq(|rs|, k requires 0 <= k < |rs| => Quad(d, positive, p, rs[k]))
  }

  ghost function SliceQuads(chunk: UnpackedChunk, nb: NeighborViews, isOpaque: Opacity, merge: bool, d: nat,
                            positive: bool, slice: nat): seq<Quad>
    requires |chunk.cells| == CHUNK_CELLS && d < 3 && slice < EDGE
  {
    Lift(RectsOf(MaskOf(chunk, nb, isOpaque, d, positive, slice), merge), d, positive,
         if positive then slice + 1 else slice)
  }

  /** The 96 slices in sweep order: axis, then positive before negative, then layer. */
  ghost function Slices(chunk: UnpackedChunk, nb: NeighborViews, isOpaque: Opacity,
                        merge: bool): (ss: seq<seq<Quad>>)
    requires |chunk.cells| == CHUNK_CELLS
    ensures |ss| == 96
  {
    seq(96, t requires 0 <= t < 96 => SliceQuads(chunk, nb, isOpaque, merge, t / 32, t % 32 < 16, t % 16))
  }

  function Flatten(ss: seq<seq<Quad>>): (qs: seq<Quad>)
    decreases |ss|
  {
    if ss == [] then [] else Flatten(ss[..|ss| - 1]) + ss[|ss| - 1]
  }

  ghost function MeshQuads(chunk: UnpackedChunk, nb: NeighborViews, isOpaque: Opacity, merge: bool): seq<Quad> {
    if Meshable(chunk) then Flatten(Slices(chunk, nb, isOpaque, merge)) else []
  }

  /* ----- exact cover ----- */

  datatype UnitFace = UnitFace(d: nat, positive: bool, cell: Vec)
  {
    ghost predicate Valid() { d < 3 && InChunk(cell) }
    /** Position of the face's slice in sweep order. */
    function Slice(): int { 32 * d + (if positive then 0 else 16) + cell.Axis(d) }
  }

  /** The unit faces that a quad spans. */
  predicate Spans(q: Quad, f: UnitFace) {
    && q.d == f.d && q.positive == f.positive
    && f.cell.Axis(f.d) == (if q.positive then q.p - 1 else q.p)
    && q.rect.Contains(f.cell.Axis(AxisU(f.d)), f.cell.Axis(AxisV(f.d)))
  }

  ghost predicate Shown(qs: seq<Quad>, f: UnitFace) {
    exists k :: 0 <= k < |qs| && Spans(qs[k], f)
  }

  /** What each unit face of a chunk shows: a palette slot or NO_FACE. */
  ghost function Shows(chunk: UnpackedChunk, nb: NeighborViews, isOpaque: Opacity): UnitFace -> nat
    requires |chunk.cells| == CHUNK_CELLS
  {
    (f: UnitFace) => if f.Valid() then FaceSlot(chunk, nb, isOpaque, f.d, f.positive, f.cell) else NO_FACE
  }

  /** The quads cover exactly the showing faces of slices lo to hi, each once and with its slot. */
  ghost predicate ExactCover(qs: seq<Quad>, shows: UnitFace -> nat, lo: int, hi: int) {
    && AllValid(qs)
    && (forall k, f: UnitFace :: 0 <= k < |qs| && Spans(qs[k], f) ==>
        f.Valid() && lo <= f.Slice() < hi && shows(f) == qs[k].rect.slot != NO_FACE)
    && (forall f: UnitFace :: f.Valid() && lo <= f.Slice() < hi && shows(f) != NO_FACE ==> Shown(qs, f))
    && (forall j, k, f: UnitFace :: 0 <= j < k < |qs| && Spans(qs[j], f) ==> !Spans(qs[k], f))
  }

  /** The two halves of a list of quads, by index. */
  lemma HalfOf(a: seq<Quad>, b: seq<Quad>, k: nat)
    requires k < |a + b|
    ensures (a + b)[k] == if k < |a| then a[k] else b[k - |a|]
  {
  }

  lemma JoinSpans(a: seq<Quad>, b: seq<Quad>, shows: UnitFace -> nat, lo: int, mid: int, hi: int, k: nat, f: UnitFace)
    requires lo <= mid <= hi && ExactCover(a, shows, lo, mid) && ExactCover(b, shows, mid, hi)
    requires k < |a + b| && Spans((a + b)[k], f)
    ensures f.Valid() && shows(f) == (a + b)[k].rect.slot != NO_FACE
    ensures if k < |a| then lo <= f.Slice() < mid else mid <= f.Slice() < hi
  {
    HalfOf(a, b, k);
  }

  lemma JoinShows(a: seq<Quad>, b: seq<Quad>, shows: UnitFace -> nat, lo: int, mid: int, hi: int, f: UnitFace)
    requires lo <= mid <= hi && ExactCover(a, shows, lo, mid) && ExactCover(b, shows, mid, hi)
    requires f.Valid() && lo <= f.Slice() < hi && shows(f) != NO_FACE
    ensures Shown(a + b, f)
  {
    if f.Slice() < mid {
      var k :| 0 <= k < |a| && Spans(a[k], f);
      HalfOf(a, b, k);
    } else {
      var k :| 0 <= k < |b| && Spans(b[k], f);
      HalfOf(a, b, |a| + k);
    }
  }

  lemma JoinCovers(a: seq<Quad>, b: seq<Quad>, shows: UnitFace -> nat, lo: int, mid: int, hi: int)
    requires lo <= mid <= hi && ExactCover(a, shows, lo, mid) && ExactCover(b, shows, mid, hi)
    ensures ExactCover(a + b, shows, lo, hi)
  {
    var qs := a + b;
    forall k, f: UnitFace | 0 <= k < |qs| && Spans(qs[k], f)
      ensures f.Valid() && lo <= f.Slice() < hi && shows(f) == qs[k].rect.slot != NO_FACE
    {
      JoinSpans(a, b, shows, lo, mid, hi, k, f);
    }
    forall f: UnitFace | f.Valid() && lo <= f.Slice() < hi && shows(f) != NO_FACE
      ensures Shown(qs, f)
    {
      JoinShows(a, b, shows, lo, mid, hi, f);
    }
    forall j, k, f: UnitFace | 0 <= j < k < |qs| && Spans(qs[j], f)
      ensures !Spans(qs[k], f)
    {
      HalfOf(a, b, j);
      HalfOf(a, b, k);
      if Spans(qs[k], f) {
        JoinSpans(a, b, shows, lo, mid, hi, j, f);
        JoinSpans(a, b, shows, lo, mid, hi, k, f);
      }
    }
  }

  /** A mask holds what the faces of its slice show. */
  ghost predicate MaskShows(mask: Mask, shows: UnitFace -> nat, d: nat, positive: bool, slice: nat) {
    forall u, v :: 0 <= u < EDGE && 0 <= v < EDGE ==>
        mask[At(u, v)] == shows(UnitFace(d, positive, Place(d, slice, u, v)))
  }

  lemma PlaceOfAxes(d: nat, c: Vec)
    requires d < 3
    ensures Place(d, c.Axis(d), c.Axis(AxisU(d)), c.Axis(AxisV(d))) == c
  {
  }

  lemma PlaceInChunk(d: nat, p: int, u: int, v: int)
    requires d < 3
    ensures InChunk(Place(d, p, u, v)) <==> 0 <= p < EDGE && 0 <= u < EDGE && 0 <= v < EDGE
  {
  }

  lemma LiftSpans(rs: seq<Rect>, mask: Mask, shows: UnitFace -> nat, d: nat, positive: bool, slice: nat,
                  k: nat, f: UnitFace)
    requires d < 3 && slice < EDGE && k < |rs|
    requires Fits(mask, NoneClaimed(), rs[k]) && MaskShows(mask, shows, d, positive, slice)
    requires Spans(Quad(d, positive, if positive then slice + 1 else slice, rs[k]), f)
    ensures f.Valid() && f.Slice() == 32 * d + (if positive then 0 else 16) + slice
    ensures shows(f) == rs[k].slot != NO_FACE
  {
    var u, v := f.cell.Axis(AxisU(d)), f.cell.Axis(AxisV(d));
    PlaceOfAxes(d, f.cell);
    PlaceInChunk(d, slice, u, v);
    assert mask[At(u, v)] == shows(UnitFace(d, positive, Place(d, slice, u, v)));
  }

  lemma LiftShows(rs: seq<Rect>, mask: Mask, shows: UnitFace -> nat, d: nat, positive: bool, slice: nat,
                  f: UnitFace)
    requires d < 3 && slice < EDGE
    requires Partitions(rs, mask, NoneClaimed()) && MaskShows(mask, shows, d, positive, slice)
    requires f.Valid() && f.Slice() == 32 * d + (if positive then 0 else 16) + slice && shows(f) != NO_FACE
    ensures Shown(Lift(rs, d, positive, if positive then slice + 1 else slice), f)
  {
    SliceDetermines(f, d, positive, slice);
    var u, v := f.cell.Axis(AxisU(d)), f.cell.Axis(AxisV(d));
    PlaceOfAxes(d, f.cell);
    PlaceInChunk(d, slice, u, v);
    assert mask[At(u, v)] == shows(f);
    assert Covered(rs, u, v);
    var k :| 0 <= k < |rs| && rs[k].Contains(u, v);
    assert Spans(Lift(rs, d, positive, if positive then slice + 1 else slice)[k], f);
  }

  /** A partition of one mask, lifted to quads, covers that slice exactly. */
  lemma LiftCovers(rs: seq<Rect>, mask: Mask, shows: UnitFace -> nat, d: nat, positive: bool, slice: nat,
                   t: nat)
    requires d < 3 && slice < EDGE && t == 32 * d + (if positive then 0 else 16) + slice
    requires Partitions(rs, mask, NoneClaimed()) && MaskShows(mask, shows, d, positive, slice)
    ensures ExactCover(Lift(rs, d, positive, if positive then slice + 1 else slice), shows, t, t + 1)
  {
    var qs := Lift(rs, d, positive, if positive then slice + 1 else slice);
    forall k, f: UnitFace | 0 <= k < |qs| && Spans(qs[k], f)
      ensures f.Valid() && f.Slice() == t && shows(f) == qs[k].rect.slot != NO_FACE
    {
      LiftSpans(rs, mask, shows, d, positive, slice, k, f);
    }
    forall f: UnitFace | f.Valid() && t <= f.Slice() < t + 1 && shows(f) != NO_FACE
      ensures Shown(qs, f)
    {
      LiftShows(rs, mask, shows, d, positive, slice, f);
    }
    forall k | 0 <= k < |qs|
      ensures qs[k].Valid()
    {
      assert Fits(mask, NoneClaimed(), rs[k]);
    }
  }

  lemma SliceDetermines(f: UnitFace, d: nat, positive: bool, slice: nat)
    requires f.Valid() && d < 3 && slice < EDGE
    requires f.Slice() == 32 * d + (if positive then 0 else 16) + slice
    ensures f.d == d && f.positive == positive && f.cell.Axis(d) == slice
  {
  }

  lemma RectsPartition(mask: Mask, merge: bool)
    ensures Partitions(RectsOf(mask, merge), mask, NoneClaimed())
  {
    GreedyExact(mask, NoneClaimed(), 0);
    NaiveExact(mask, NoneClaimed(), 0);
  }

  lemma MaskOfShows(chunk: UnpackedChunk, nb: NeighborViews, isOpaque: Opacity, d: nat, positive: bool,
                    slice: nat)
    requires |chunk.cells| == CHUNK_CELLS && d < 3 && slice < EDGE
    ensures MaskShows(MaskOf(chunk, nb, isOpaque, d, positive, slice), Shows(chunk, nb, isOpaque), d, positive, slice)
  {
    forall u, v | 0 <= u < EDGE && 0 <= v < EDGE
      ensures MaskOf(chunk, nb, isOpaque, d, positive, slice)[At(u, v)] ==
          Shows(chunk, nb, isOpaque)(UnitFace(d, positive, Place(d, slice, u, v)))
    {
      PlaceInChunk(d, slice, u, v);
    }
  }

  lemma MaskCovers(mask: Mask, merge: bool, shows: UnitFace -> nat, d: nat, positive: bool, slice: nat, t: nat)
    requires d < 3 && slice < EDGE && MaskShows(mask, shows, d, positive, slice)
    requires t == 32 * d + (if positive then 0 else 16) + slice
    ensures ExactCover(Lift(RectsOf(mask, merge), d, positive, if positive then slice + 1 else slice), shows, t, t + 1)
  {
    RectsPartition(mask, merge);
    LiftCovers(RectsOf(mask, merge), mask, shows, d, positive, slice, t);
  }

  lemma SliceCovers(chunk: UnpackedChunk, nb: NeighborViews, isOpaque: Opacity, merge: bool, d: nat,
                    positive: bool, slice: nat, t: nat)
    requires |chunk.cells| == CHUNK_CELLS && d < 3 && slice < EDGE && t == 32 * d + (if positive then 0 else 16) + slice
    ensures ExactCover(SliceQuads(chunk, nb, isOpaque, merge, d, positive, slice), Shows(chunk, nb, isOpaque), t, t + 1)
  {
    MaskOfShows(chunk, nb, isOpaque, d, positive, slice);
    MaskCovers(MaskOf(chunk, nb, isOpaque, d, positive, slice), merge, Shows(chunk, nb, isOpaque), d, positive,
               slice, t);
  }

  lemma SweepPosition(t: nat)
    requires t < 96
    ensures t == 32 * (t / 32) + (if t % 32 < 16 then 0 else 16) + t % 16
  {
  }

  lemma {:induction false} FlattenCovers(ss: seq<seq<Quad>>, shows: UnitFace -> nat)
    requires forall t :: 0 <= t < |ss| ==> ExactCover(ss[t], shows, t, t + 1)
    ensures ExactCover(Flatten(ss), shows, 0, |ss|)
    decreases |ss|
  {
    if ss == [] {
      NothingBeforeZero(shows);
    } else {
      var n := |ss| - 1;
      FlattenCovers(ss[..n], shows);
      JoinCovers(Flatten(ss[..n]), ss[n], shows, 0, n, n + 1);
    }
  }

  lemma NothingBeforeZero(shows: UnitFace -> nat)
    ensures ExactCover([], shows, 0, 0)
  {
  }

  lemma SliceRange(f: UnitFace)
    requires f.Valid()
    ensures 0 <= f.Slice() < 96
  {
  }

  lemma SweepCovers(chunk: UnpackedChunk, nb: NeighborViews, isOpaque: Opacity, merge: bool, t: nat)
    requires |chunk.cells| == CHUNK_CELLS && t < 96
    ensures ExactCover(Slices(chunk, nb, isOpaque, merge)[t], Shows(chunk, nb, isOpaque), t, t + 1)
  {
    SweepPosition(t);
    SliceAt(chunk, nb, isOpaque, merge, t);
    SliceCovers(chunk, nb, isOpaque, merge, t / 32, t % 32 < 16, t % 16, t);
  }

  lemma SliceAt(chunk: UnpackedChunk, nb: NeighborViews, isOpaque: Opacity, merge: bool, t: nat)
    requires |chunk.cells| == CHUNK_CELLS && t < 96
    ensures Slices(chunk, nb, isOpaque, merge)[t] == SliceQuads(chunk, nb, isOpaque, merge, t / 32, t % 32 < 16, t % 16)
  {
  }

  lemma SweepIsExact(chunk: UnpackedChunk, nb: NeighborViews, isOpaque: Opacity, merge: bool)
    requires |chunk.cells| == CHUNK_CELLS
    ensures ExactCover(Flatten(Slices(chunk, nb, isOpaque, merge)), Shows(chunk, nb, isOpaque), 0, 96)
  {
    forall t | 0 <= t < 96 {
      SweepCovers(chunk, nb, isOpaque, merge, t);
    }
    FlattenCovers(Slices(chunk, nb, isOpaque, merge), Shows(chunk, nb, isOpaque));
  }

  /**
   Both meshers cover exactly the visible unit faces, each by one quad that carries its slot; and
   the decoded vertex words say the same as the emitted rectangles.
   */
  lemma MeshIsExact(chunk: UnpackedChunk, nb: NeighborViews, isOpaque: Opacity, merge: bool)
    requires Meshable(chunk)
    ensures var qs := MeshQuads(chunk, nb, isOpaque, merge);
            ExactCover(qs, Shows(chunk, nb, isOpaque), 0, 96) && DecodeQuads(MeshOf(qs)) == qs
  {
    SweepIsExact(chunk, nb, isOpaque, merge);
    DecodeOfMesh(MeshQuads(chunk, nb, isOpaque, merge));
  }

  /** Greedy and naive output decompose into the same unit faces with the same slots. */
  lemma GreedyShowsWhatNaiveShows(chunk: UnpackedChunk, nb: NeighborViews, isOpaque: Opacity, f: UnitFace,
                                  slot: nat)
    requires Meshable(chunk)
    ensures var g, n := MeshQuads(chunk, nb, isOpaque, true), MeshQuads(chunk, nb, isOpaque, false);
            (exists k :: 0 <= k < |g| && Spans(g[k], f) && g[k].rect.slot == slot) <==>
            (exists k :: 0 <= k < |n| && Spans(n[k], f) && n[k].rect.slot == slot)
  {
    MeshIsExact(chunk, nb, isOpaque, true);
    MeshIsExact(chunk, nb, isOpaque, false);
    ShownIffShows(MeshQuads(chunk, nb, isOpaque, true), Shows(chunk, nb, isOpaque), f, slot);
    ShownIffShows(MeshQuads(chunk, nb, isOpaque, false), Shows(chunk, nb, isOpaque), f, slot);
  }

  lemma ShownIffShows(qs: seq<Quad>, shows: UnitFace -> nat, f: UnitFace, slot: nat)
    requires ExactCover(qs, shows, 0, 96)
    ensures (exists k :: 0 <= k < |qs| && Spans(qs[k], f) && qs[k].rect.slot == slot) <==>
            f.Valid() && shows(f) == slot != NO_FACE
  {
    if f.Valid() && shows(f) == slot != NO_FACE {
      SliceRange(f);
      assert Shown(qs, f);
      var k :| 0 <= k < |qs| && Spans(qs[k], f);
      assert shows(f) == qs[k].rect.slot;
    }
  }

  lemma {:induction false} FlattenFewer(a: seq<seq<Quad>>, b: seq<seq<Quad>>)
    requires |a| == |b| && forall t :: 0 <= t < |a| ==> |a[t]| <= |b[t]|
    ensures |Flatten(a)| <= |Flatten(b)|
    decreases |a|
  {
    if a != [] {
      FlattenFewer(a[..|a| - 1], b[..|b| - 1]);
    }
  }

  lemma SliceFewer(chunk: UnpackedChunk, nb: NeighborViews, isOpaque: Opacity, d: nat, positive: bool,
                   slice: nat)
    requires |chunk.cells| == CHUNK_CELLS && d < 3 && slice < EDGE
    ensures |SliceQuads(chunk, nb, isOpaque, true, d, positive, slice)|
         <= |SliceQuads(chunk, nb, isOpaque, false, d, positive, slice)|
  {
    GreedyNoMore(MaskOf(chunk, nb, isOpaque, d, positive, slice), NoneClaimed(), 0);
  }

  /** Merging never emits more quads than there are visible faces. */
  lemma GreedyEmitsNoMore(chunk: UnpackedChunk, nb: NeighborViews, isOpaque: Opacity)
    ensures |MeshQuads(chunk, nb, isOpaque, true)| <= |MeshQuads(chunk, nb, isOpaque, false)|
  {
    if Meshable(chunk) {
      forall t | 0 <= t < 96
        ensures |Slices(chunk, nb, isOpaque, true)[t]| <= |Slices(chunk, nb, isOpaque, false)[t]|
      {
        SliceFewer(chunk, nb, isOpaque, t / 32, t % 32 < 16, t % 16);
      }
      FlattenFewer(Slices(chunk, nb, isOpaque, true), Slices(chunk, nb, isOpaque, false));
    }
  }

  /* ----- a solid chunk ----- */

  /** Every cell holds the same opaque value. */
  ghost predicate Solid(chunk: UnpackedChunk, isOpaque: Opacity, value: CellValue) {
    && Meshable(chunk) && |chunk.palette| <= NO_FACE
    && isOpaque(value)
    && forall i :: 0 <= i < CHUNK_CELLS ==> chunk.cells[i] == value
  }

  /** No neighbour chunks. */
  function NoViews(): NeighborViews {
    NeighborViews([], [], [], [], [], [])
  }

  lemma SolidFace(chunk: UnpackedChunk, isOpaque: Opacity, value: CellValue, d: nat, positive: bool, c: Vec)
    requires Solid(chunk, isOpaque, value) && d < 3 && InChunk(c)
    ensures var outer := c.Axis(d) == (if positive then EDGE - 1 else 0);
            FaceSlot(chunk, NoViews(), isOpaque, d, positive, c)
            == if outer then SlotOf(chunk.palette, value) else NO_FACE
  {
    var n := Step(c, d, if positive then 1 else -1);
    IndexBound(c);
    if InChunk(n) {
      IndexBound(n);
    }
  }

  /** The outer layers of a solid chunk are full, the others hidden. */
  lemma SolidMask(chunk: UnpackedChunk, isOpaque: Opacity, value: CellValue, d: nat, positive: bool, slice: nat)
    requires Solid(chunk, isOpaque, value) && d < 3 && slice < EDGE
    ensures var mask := MaskOf(chunk, NoViews(), isOpaque, d, positive, slice);
            var slot := SlotOf(chunk.palette, value);
            if slice == (if positive then EDGE - 1 else 0)
            then slot != NO_FACE && forall i :: 0 <= i < CELLS ==> mask[i] == slot
            else forall i :: 0 <= i < CELLS ==> mask[i] == NO_FACE
  {
    assert chunk.cells[0] in chunk.cells;
    forall i | 0 <= i < CELLS
      ensures MaskOf(chunk, NoViews(), isOpaque, d, positive, slice)[i]
           == if slice == (if positive then EDGE - 1 else 0) then SlotOf(chunk.palette, value) else NO_FACE
    {
      PlaceInChunk(d, slice, i / EDGE, i % EDGE);
      SolidFace(chunk, isOpaque, value, d, positive, Place(d, slice, i / EDGE, i % EDGE));
    }
  }

  /** A full or empty mask of one slot. */
  lemma UniformMask(mask: Mask, slot: nat, merge: bool)
    requires forall i :: 0 <= i < CELLS ==> mask[i] == slot
    ensures |RectsOf(mask, merge)| == if slot == NO_FACE then 0 else if merge then 1 else CELLS
  {
    NaiveCount(mask, 0, slot != NO_FACE);
    if slot == NO_FACE {
      NoRectangle(mask);
    } else {
      OneRectangle(mask, Rect(0, 0, EDGE, EDGE, slot));
    }
  }

  lemma SolidSlice(chunk: UnpackedChunk, isOpaque: Opacity, value: CellValue, merge: bool, d: nat, positive: bool,
                   slice: nat)
    requires Solid(chunk, isOpaque, value) && d < 3 && slice < EDGE
    ensures |SliceQuads(chunk, NoViews(), isOpaque, merge, d, positive, slice)|
         == if slice != (if positive then EDGE - 1 else 0) then 0 else if merge then 1 else CELLS
  {
    var mask := MaskOf(chunk, NoViews(), isOpaque, d, positive, slice);
    SolidMask(chunk, isOpaque, value, d, positive, slice);
    UniformMask(mask, mask[0], merge);
  }

  /** How many of the first n slices in sweep order are outer layers. */
  function OuterSlices(n: nat): nat {
    2 * (n / 32) + (if n % 32 > 16 then 2 else if n % 32 == 16 then 1 else 0)
  }

  lemma {:induction false} FlattenOuter(ss: seq<seq<Quad>>, k: nat, n: nat)
    requires n <= |ss| && forall t :: 0 <= t < |ss| ==> |ss[t]| == if t % 32 == 15 || t % 32 == 16 then k else 0
    ensures |Flatten(ss[..n])| == k * OuterSlices(n)
  {
    if n > 0 {
      FlattenOuter(ss, k, n - 1);
      assert ss[..n][..n - 1] == ss[..n - 1];
      OuterStep(k, n - 1);
    }
  }

  lemma OuterStep(k: nat, n: nat)
    ensures k * OuterSlices(n + 1) == k * OuterSlices(n) + if n % 32 == 15 || n % 32 == 16 then k else 0
  {
    assert OuterSlices(n + 1) == OuterSlices(n) + if n % 32 == 15 || n % 32 == 16 then 1 else 0;
  }

  /** A solid chunk without neighbours is six quads, where the naive mesh has 1536. */
  lemma SolidChunkIsSixQuads(chunk: UnpackedChunk, isOpaque: Opacity, value: CellValue)
    requires Solid(chunk, isOpaque, value)
    ensures |MeshQuads(chunk, NoViews(), isOpaque, true)| == 6
    ensures |MeshQuads(chunk, NoViews(), isOpaque, false)| == 1536
  {
    SolidCount(chunk, isOpaque, value, true);
    SolidCount(chunk, isOpaque, value, false);
  }

  lemma SolidCount(chunk: UnpackedChunk, isOpaque: Opacity, value: CellValue, merge: bool)
    requires Solid(chunk, isOpaque, value)
    ensures |MeshQuads(chunk, NoViews(), isOpaque, merge)| == 6 * (if merge then 1 else CELLS)
  {
    var ss, k := Slices(chunk, NoViews(), isOpaque, merge), if merge then 1 else CELLS;
    forall t | 0 <= t < 96
      ensures |ss[t]| == if t % 32 == 15 || t % 32 == 16 then k else 0
    {
      SolidSliceAt(chunk, isOpaque, value, merge, t, ss[t], k);
    }
    FlattenOuter(ss, k, 96);
    assert ss[..96] == ss;
  }

  lemma SolidSliceAt(chunk: UnpackedChunk, isOpaque: Opacity, value: CellValue, merge: bool, t: nat, qs: seq<Quad>,
                     k: nat)
    requires Solid(chunk, isOpaque, value) && t < 96 && k == (if merge then 1 else CELLS)
    requires qs == Slices(chunk, NoViews(), isOpaque, merge)[t]
    ensures |qs| == if t % 32 == 15 || t % 32 == 16 then k else 0
  {
    SliceAt(chunk, NoViews(), isOpaque, merge, t);
    SolidSlice(chunk, isOpaque, value, merge, t / 32, t % 32 < 16, t % 16);
    OuterPosition(t);
  }

  lemma OuterPosition(t: nat)
    ensures t % 32 == 15 || t % 32 == 16 <==> t % 16 == (if t % 32 < 16 then 15 else 0)
  {
    var r := t % 32;
    assert t == 16 * (2 * (t / 32)) + r;
    assert t % 16 == if r < 16 then r else r - 16;
  }
}
