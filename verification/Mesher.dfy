/** The mesher's loops over in-place grid, mask and claim arrays, each proved against Greedy. */
module Mesher {
  import opened Chunk
  import opened RectMerge
  import opened MeshFormat
  import opened VoxelBlob
  import opened Greedy
  import Morton

  /* ----- cell to slot ----- */

  /** Slot per cell in grid order, and opacity per slot. */
  ghost predicate GridHolds(chunk: UnpackedChunk, isOpaque: Opacity, slots: seq<nat>, slotOpaque: seq<bool>)
    requires |chunk.cells| == CHUNK_CELLS
  {
    && |slots| == CHUNK_CELLS
    && (forall c: Vec :: InChunk(c) ==> slots[GridIndex(c)] == SlotOf(chunk.palette, CellAt(chunk.cells, c)))
    && |slotOpaque| == |chunk.palette|
    && (forall s :: 0 <= s < |slotOpaque| ==> slotOpaque[s] == isOpaque(chunk.palette[s]))
  }

  function PosVec(m: nat): (c: Vec)
    requires m < CHUNK_CELLS
    ensures InChunk(c)
  {
    var p := Morton.Pos(m);
    PosInChunk(m);
    Vec(p.x, p.y, p.z)
  }

  lemma PosInChunk(m: nat)
    requires m < CHUNK_CELLS
    ensures var p := Morton.Pos(m); p.x < EDGE && p.y < EDGE && p.z < EDGE
    ensures var p := Morton.Pos(m); Morton.Index(p.x, p.y, p.z) == m
  {
    var p := Morton.Pos(m);
    Morton.IndexOfPos(m);
    PowersOfTwo();
    Morton.CubeIsPrefix(p.x, p.y, p.z, 4);
  }

  /** Cells before m have their slot, at their decoded position. */
  ghost predicate GridUpTo(chunk: UnpackedChunk, slots: seq<nat>, m: nat)
    requires |chunk.cells| == CHUNK_CELLS && m <= CHUNK_CELLS
  {
    && |slots| == CHUNK_CELLS
    && forall j :: 0 <= j < m ==>
         && chunk.cells[j] in chunk.palette
         && slots[GridIndex(PosVec(j))] == SlotOf(chunk.palette, chunk.cells[j])
  }

  lemma GridStep(chunk: UnpackedChunk, slots: seq<nat>, m: nat, s: nat)
    requires |chunk.cells| == CHUNK_CELLS && m < CHUNK_CELLS && GridUpTo(chunk, slots, m)
    requires IsSlot(chunk.palette, chunk.cells[m], s)
    ensures GridUpTo(chunk, slots[GridIndex(PosVec(m)) := s], m + 1)
  {
    SlotOfUnique(chunk.palette, chunk.cells[m], s);
    forall j | 0 <= j < m
      ensures GridIndex(PosVec(j)) != GridIndex(PosVec(m))
    {
      PosInChunk(j);
      PosInChunk(m);
      if GridIndex(PosVec(j)) == GridIndex(PosVec(m)) {
        GridIndexInjective(PosVec(j), PosVec(m));
      }
    }
  }

  lemma GridDone(chunk: UnpackedChunk, isOpaque: Opacity, slots: seq<nat>, slotOpaque: seq<bool>)
    requires |chunk.cells| == CHUNK_CELLS && GridUpTo(chunk, slots, CHUNK_CELLS)
    requires |slotOpaque| == |chunk.palette|
    requires forall s :: 0 <= s < |slotOpaque| ==> slotOpaque[s] == isOpaque(chunk.palette[s])
    ensures GridHolds(chunk, isOpaque, slots, slotOpaque)
  {
    forall c: Vec | InChunk(c)
      ensures slots[GridIndex(c)] == SlotOf(chunk.palette, CellAt(chunk.cells, c))
    {
      IndexBound(c);
      var j := Morton.Index(c.x, c.y, c.z);
      Morton.PosOfIndex(c.x, c.y, c.z);
      assert PosVec(j) == c;
    }
  }

  /** First slot of the palette holding v, by linear scan. */
  method ScanPalette(palette: seq<CellValue>, v: CellValue) returns (s: nat)
    ensures s <= |palette| && (s == |palette| <==> v !in palette)
    ensures s < |palette| ==> IsSlot(palette, v, s)
  {
    s := 0;
    while s < |palette| && palette[s] != v
      invariant 0 <= s <= |palette|
      invariant forall j :: 0 <= j < s ==> palette[j] != v
    {
      s := s + 1;
    }
  }

  /**
   Resolves every cell to its palette slot, remembering the last match. The remembered slot is
   always the first match of its own value, so the shortcut agrees with the scan even when the
   palette holds duplicates.
   */
  method BuildGrid(chunk: UnpackedChunk, isOpaque: Opacity) returns (ok: bool, slot: array<nat>,
                   slotOpaque: seq<bool>)
    ensures fresh(slot)
    ensures ok <==> Meshable(chunk)
    ensures ok ==> GridHolds(chunk, isOpaque, slot[..], slotOpaque)
  {
    slot := new nat[CHUNK_CELLS](_ => 0);
    slotOpaque := [];
    if chunk.log2Extent != 4 || |chunk.cells| != CHUNK_CELLS || chunk.palette == [] {
      return false, slot, slotOpaque;
    }
    for s := 0 to |chunk.palette|
      invariant |slotOpaque| == s
      invariant forall j :: 0 <= j < s ==> slotOpaque[j] == isOpaque(chunk.palette[j])
    {
      slotOpaque := slotOpaque + [isOpaque(chunk.palette[s])];
    }
    var last: nat := 0;
    for m := 0 to CHUNK_CELLS
      invariant last < |chunk.palette| && IsSlot(chunk.palette, chunk.palette[last], last)
      invariant GridUpTo(chunk, slot[..], m)
    {
      var s := last;
      if chunk.palette[s] != chunk.cells[m] {
        s := ScanPalette(chunk.palette, chunk.cells[m]);
        if s == |chunk.palette| {
          return false, slot, slotOpaque;
        }
      }
      last := s;
      GridStep(chunk, slot[..], m, s);
      slot[GridIndex(PosVec(m))] := s;
    }
    GridDone(chunk, isOpaque, slot[..], slotOpaque);
    return true, slot, slotOpaque;
  }

  /* ----- one mask ----- */

  predicate NeighborOpaque(view: seq<CellValue>, c: Vec, isOpaque: Opacity)
    requires InChunk(c)
  {
    |view| == CHUNK_CELLS && isOpaque(CellAt(view, c))
  }

  /** The mask entry of one cell, from grid slots. */
  function MaskCell(slots: seq<nat>, slotOpaque: seq<bool>, nb: NeighborViews, isOpaque: Opacity, d: nat,
                    positive: bool, c: Vec): (s: nat)
    requires |slots| == CHUNK_CELLS && d < 3 && InChunk(c)
    requires forall i :: 0 <= i < |slots| ==> slots[i] < |slotOpaque|
  {
    if !slotOpaque[slots[GridIndex(c)]] then NO_FACE
    else
      var n := Greedy.Step(c, d, if positive then 1 else -1);
      var covered := if InChunk(n) then slotOpaque[slots[GridIndex(n)]]
                     else NeighborOpaque(nb.Side(d, positive), Wrap(n, d), isOpaque);
      if covered then NO_FACE else slots[GridIndex(c)]
  }

  lemma GridSlotsInRange(chunk: UnpackedChunk, isOpaque: Opacity, slots: seq<nat>, slotOpaque: seq<bool>)
    requires Meshable(chunk) && GridHolds(chunk, isOpaque, slots, slotOpaque)
    ensures forall i :: 0 <= i < |slots| ==> slots[i] < |slotOpaque|
  {
    forall i | 0 <= i < |slots|
      ensures slots[i] < |slotOpaque|
    {
      var c := Vec(i % EDGE, (i / EDGE) % EDGE, i / EDGE / EDGE);
      assert InChunk(c) && GridIndex(c) == i;
      IndexBound(c);
      SlotOfMember(chunk.palette, CellAt(chunk.cells, c));
    }
  }

  lemma GridOpacity(chunk: UnpackedChunk, isOpaque: Opacity, slots: seq<nat>, slotOpaque: seq<bool>, c: Vec)
    requires Meshable(chunk) && GridHolds(chunk, isOpaque, slots, slotOpaque) && InChunk(c)
    ensures slots[GridIndex(c)] < |slotOpaque|
    ensures slotOpaque[slots[GridIndex(c)]] == isOpaque(CellAt(chunk.cells, c))
  {
    IndexBound(c);
    SlotOfMember(chunk.palette, CellAt(chunk.cells, c));
  }

  lemma MaskCellShows(chunk: UnpackedChunk, isOpaque: Opacity, slots: seq<nat>, slotOpaque: seq<bool>,
                      nb: NeighborViews, d: nat, positive: bool, c: Vec)
    requires Meshable(chunk) && GridHolds(chunk, isOpaque, slots, slotOpaque) && d < 3 && InChunk(c)
    requires forall i :: 0 <= i < |slots| ==> slots[i] < |slotOpaque|
    ensures MaskCell(slots, slotOpaque, nb, isOpaque, d, positive, c) == FaceSlot(chunk, nb, isOpaque, d, positive, c)
  {
    var n := Greedy.Step(c, d, if positive then 1 else -1);
    GridOpacity(chunk, isOpaque, slots, slotOpaque, c);
    if InChunk(n) {
      GridOpacity(chunk, isOpaque, slots, slotOpaque, n);
    }
  }

  lemma MaskEntry(chunk: UnpackedChunk, isOpaque: Opacity, slots: seq<nat>, slotOpaque: seq<bool>,
                  nb: NeighborViews,
                  d: nat, positive: bool, slice: nat, u: nat, v: nat)
    requires Meshable(chunk) && GridHolds(chunk, isOpaque, slots, slotOpaque)
    requires d < 3 && slice < EDGE && u < EDGE && v < EDGE
    requires forall i :: 0 <= i < |slots| ==> slots[i] < |slotOpaque|
    ensures InChunk(Place(d, slice, u, v))
    ensures MaskCell(slots, slotOpaque, nb, isOpaque, d, positive, Place(d, slice, u, v)) ==
        MaskOf(chunk, nb, isOpaque, d, positive, slice)[u * EDGE + v]
  {
    PlaceInChunk(d, slice, u, v);
    MaskCellShows(chunk, isOpaque, slots, slotOpaque, nb, d, positive, Place(d, slice, u, v));
    assert (u * EDGE + v) / EDGE == u && (u * EDGE + v) % EDGE == v;
  }

  method BuildMaskRow(chunk: UnpackedChunk, slot: array<nat>, slotOpaque: seq<bool>, nb: NeighborViews,
                      isOpaque: Opacity,
                      d: nat, positive: bool, slice: nat, mask: array<nat>, u: nat, ghost want: Mask)
    requires Meshable(chunk) && GridHolds(chunk, isOpaque, slot[..], slotOpaque)
    requires d < 3 && slice < EDGE && mask.Length == CELLS && mask != slot && u < EDGE
    requires want == MaskOf(chunk, nb, isOpaque, d, positive, slice)
    requires mask[..u * EDGE] == want[..u * EDGE]
    modifies mask
    ensures mask[..u * EDGE + EDGE] == want[..u * EDGE + EDGE]
  {
    ghost var slots := slot[..];
    GridSlotsInRange(chunk, isOpaque, slots, slotOpaque);
    for v := 0 to EDGE
      invariant slot[..] == slots
      invariant mask[..u * EDGE + v] == want[..u * EDGE + v]
    {
      MaskEntry(chunk, isOpaque, slots, slotOpaque, nb, d, positive, slice, u, v);
      mask[u * EDGE + v] := MaskCell(slot[..], slotOpaque, nb, isOpaque, d, positive, Place(d, slice, u, v));
      assert mask[..u * EDGE + v + 1] == mask[..u * EDGE + v] + [mask[u * EDGE + v]];
    }
  }

  /** Fills the visibility mask of one slice of one face direction. */
  method BuildMask(chunk: UnpackedChunk, slot: array<nat>, slotOpaque: seq<bool>, nb: NeighborViews,
                   isOpaque: Opacity,
                   d: nat, positive: bool, slice: nat, mask: array<nat>)
    requires Meshable(chunk) && GridHolds(chunk, isOpaque, slot[..], slotOpaque)
    requires d < 3 && slice < EDGE && mask.Length == CELLS && mask != slot
    modifies mask
    ensures mask[..] == MaskOf(chunk, nb, isOpaque, d, positive, slice)
  {
    ghost var want := MaskOf(chunk, nb, isOpaque, d, positive, slice);
    for u := 0 to EDGE
      invariant GridHolds(chunk, isOpaque, slot[..], slotOpaque)
      invariant mask[..u * EDGE] == want[..u * EDGE]
    {
      BuildMaskRow(chunk, slot, slotOpaque, nb, isOpaque, d, positive, slice, mask, u, want);
    }
  }

  /* ----- the greedy scan ----- */

  method FindWidth(mask: array<nat>, claimed: array<bool>, u: nat, v: nat) returns (dv: nat)
    requires mask.Length == CELLS && claimed.Length == CELLS && u < EDGE && v < EDGE
    ensures dv == RunWidth(mask[..], claimed[..], u, v, 1)
    ensures WidthIsMaximal(mask[..], claimed[..], u, v, dv, mask[At(u, v)])
    ensures !claimed[At(u, v)] ==> RowFree(mask[..], claimed[..], u, v, dv, mask[At(u, v)])
  {
    dv := 1;
    while v + dv < EDGE && mask[At(u, v + dv)] == mask[At(u, v)] && !claimed[At(u, v + dv)]
      invariant v + dv <= EDGE
      invariant RunWidth(mask[..], claimed[..], u, v, dv) == RunWidth(mask[..], claimed[..], u, v, 1)
    {
      dv := dv + 1;
    }
    WidthStops(mask[..], claimed[..], u, v, 1);
    if !claimed[At(u, v)] {
      WidthFree(mask[..], claimed[..], u, v, 1);
    }
  }

  method RowIsFree(mask: array<nat>, claimed: array<bool>, u: nat, v: nat, dv: nat,
                   slot: nat) returns (ok: bool)
    requires mask.Length == CELLS && claimed.Length == CELLS && u < EDGE && v + dv <= EDGE
    ensures ok == RowFree(mask[..], claimed[..], u, v, dv, slot)
  {
    for k := 0 to dv
      invariant forall j :: v <= j < v + k ==> Free(mask[..], claimed[..], u, j, slot)
    {
      if mask[At(u, v + k)] != slot || claimed[At(u, v + k)] {
        assert !Free(mask[..], claimed[..], u, v + k, slot);
        return false;
      }
    }
    return true;
  }

  method FindHeight(mask: array<nat>, claimed: array<bool>, u: nat, v: nat, dv: nat) returns (du: nat)
    requires mask.Length == CELLS && claimed.Length == CELLS && u < EDGE && v < EDGE && v + dv <= EDGE
    ensures du == RunHeight(mask[..], claimed[..], u, v, dv, 1)
    ensures HeightIsMaximal(mask[..], claimed[..], u, v, dv, du, mask[At(u, v)])
  {
    HeightStops(mask[..], claimed[..], u, v, dv, 1);
    du := 1;
    while u + du < EDGE
      invariant u + du <= EDGE
      invariant RunHeight(mask[..], claimed[..], u, v, dv, du) == RunHeight(mask[..], claimed[..], u, v, dv, 1)
    {
      var rowOk := RowIsFree(mask, claimed, u + du, v, dv, mask[At(u, v)]);
      if !rowOk {
        return;
      }
      du := du + 1;
    }
  }

  /** Marks rows u0 to u0+a of r, the last only up to column v0+k. */
  ghost predicate ClaimedSoFar(before: seq<bool>, now: seq<bool>, r: Rect, a: nat, k: nat) {
    && |before| == CELLS && |now| == CELLS
    && forall u, v :: 0 <= u < EDGE && 0 <= v < EDGE ==>
         now[At(u, v)] == (before[At(u, v)] || (r.v0 <= v < r.v0 + r.dv && r.u0 <= u < r.u0 + a) ||
                           (u == r.u0 + a && r.v0 <= v < r.v0 + k))
  }

  lemma ClaimedAll(before: Claims, now: Claims, r: Rect)
    requires ClaimedSoFar(before, now, r, r.du, 0)
    ensures now == Claim(before, r)
  {
    forall i | 0 <= i < CELLS
      ensures now[i] == Claim(before, r)[i]
    {
      assert At(i / EDGE, i % EDGE) == i;
    }
  }

  method ClaimRect(claimed: array<bool>, r: Rect)
    requires claimed.Length == CELLS && r.InMask()
    modifies claimed
    ensures claimed[..] == Claim(old(claimed[..]), r)
  {
    ghost var before := claimed[..];
    for a := 0 to r.du
      invariant ClaimedSoFar(before, claimed[..], r, a, 0)
    {
      for k := 0 to r.dv
        invariant ClaimedSoFar(before, claimed[..], r, a, k)
      {
        claimed[At(r.u0 + a, r.v0 + k)] := true;
      }
    }
    ClaimedAll(before, claimed[..], r);
  }

  lemma LiftPrepend(r: Rect, rest: seq<Rect>, d: nat, positive: bool, p: nat)
    ensures Lift([r] + rest, d, positive, p) == [Quad(d, positive, p, r)] + Lift(rest, d, positive, p)
  {
  }

  /** Quads emitted so far, and those still to come from cell i, make up the whole scan. */
  ghost predicate ScanInvariant(all: seq<Quad>, emitted: seq<Quad>, rest: seq<Rect>, d: nat, positive: bool,
                                p: nat) {
    all == emitted + Lift(rest, d, positive, p)
  }

  lemma ScanEmits(all: seq<Quad>, emitted: seq<Quad>, r: Rect, rest: seq<Rect>, d: nat, positive: bool, p: nat)
    requires ScanInvariant(all, emitted, [r] + rest, d, positive, p)
    ensures ScanInvariant(all, emitted + [Quad(d, positive, p, r)], rest, d, positive, p)
  {
    LiftPrepend(r, rest, d, positive, p);
  }

  lemma ScanDone(all: seq<Quad>, emitted: seq<Quad>, d: nat, positive: bool, p: nat)
    requires ScanInvariant(all, emitted, [], d, positive, p)
    ensures all == emitted
  {
  }

  method GreedyCell(mask: array<nat>, claimed: array<bool>, u: nat, v: nat, em: Emitter, d: nat,
                    positive: bool, p: nat)
    requires mask.Length == CELLS && claimed.Length == CELLS && u < EDGE && v < EDGE
    requires em.Valid() && d < 3 && p <= EDGE
    requires mask[At(u, v)] != NO_FACE && !claimed[At(u, v)]
    modifies claimed, em
    ensures em.Valid()
    ensures var r := NextRect(mask[..], old(claimed[..]), At(u, v));
            claimed[..] == Claim(old(claimed[..]), r) && em.quads == old(em.quads) + [Quad(d, positive, p, r)]
  {
    var slot := mask[At(u, v)];
    var dv := FindWidth(mask, claimed, u, v);
    var du := FindHeight(mask, claimed, u, v, dv);
    var r := Rect(u, v, du, dv, slot);
    assert r == NextRect(mask[..], claimed[..], At(u, v));
    ClaimRect(claimed, r);
    em.EmitQuad(d, positive, p, u, v, du, dv, slot);
  }

  /** One turn of the greedy sweep: skip a hidden or claimed cell, or emit its rectangle. */
  method GreedyVisit(mask: array<nat>, claimed: array<bool>, u: nat, v: nat, em: Emitter, d: nat,
                     positive: bool, p: nat, ghost all: seq<Quad>)
    requires mask.Length == CELLS && claimed.Length == CELLS && u < EDGE && v < EDGE
    requires em.Valid() && d < 3 && p <= EDGE
    requires ScanInvariant(all, em.quads, GreedyFrom(mask[..], claimed[..], At(u, v)), d, positive, p)
    modifies claimed, em
    ensures em.Valid()
    ensures ScanInvariant(all, em.quads, GreedyFrom(mask[..], claimed[..], At(u, v) + 1), d, positive, p)
  {
    var i := At(u, v);
    if mask[i] == NO_FACE || claimed[i] {
      return;
    }
    ghost var r := NextRect(mask[..], claimed[..], i);
    ScanEmits(all, em.quads, r, GreedyFrom(mask[..], Claim(claimed[..], r), i + 1), d, positive, p);
    GreedyCell(mask, claimed, u, v, em, d, positive, p);
  }

  method GreedyRow(mask: array<nat>, claimed: array<bool>, u: nat, em: Emitter, d: nat, positive: bool,
                   p: nat, ghost all: seq<Quad>)
    requires mask.Length == CELLS && claimed.Length == CELLS && u < EDGE
    requires em.Valid() && d < 3 && p <= EDGE
    requires ScanInvariant(all, em.quads, GreedyFrom(mask[..], claimed[..], u * EDGE), d, positive, p)
    modifies claimed, em
    ensures em.Valid()
    ensures ScanInvariant(all, em.quads, GreedyFrom(mask[..], claimed[..], u * EDGE + EDGE), d, positive, p)
  {
    for v := 0 to EDGE
      invariant em.Valid()
      invariant ScanInvariant(all, em.quads, GreedyFrom(mask[..], claimed[..], u * EDGE + v), d, positive, p)
    {
      GreedyVisit(mask, claimed, u, v, em, d, positive, p, all);
    }
  }

  /** The greedy sweep of one slice. */
  method GreedySlice(mask: array<nat>, em: Emitter, d: nat, positive: bool, p: nat)
    requires mask.Length == CELLS && em.Valid() && d < 3 && p <= EDGE
    modifies em
    ensures em.Valid()
    ensures em.quads == old(em.quads) + Lift(GreedyFrom(mask[..], NoneClaimed(), 0), d, positive, p)
  {
    ghost var visible := mask[..];
    ghost var all := em.quads + Lift(GreedyFrom(visible, NoneClaimed(), 0), d, positive, p);
    var claimed := new bool[CELLS](_ => false);
    assert claimed[..] == NoneClaimed();
    for u := 0 to EDGE
      invariant em.Valid() && mask[..] == visible
      invariant ScanInvariant(all, em.quads, GreedyFrom(visible, claimed[..], u * EDGE), d, positive, p)
    {
      GreedyRow(mask, claimed, u, em, d, positive, p, all);
    }
    ScanDone(all, em.quads, d, positive, p);
  }

  method NaiveRow(mask: array<nat>, u: nat, em: Emitter, d: nat, positive: bool, p: nat, ghost all: seq<Quad>)
    requires mask.Length == CELLS && u < EDGE && em.Valid() && d < 3 && p <= EDGE
    requires ScanInvariant(all, em.quads, NaiveFrom(mask[..], u * EDGE), d, positive, p)
    modifies em
    ensures em.Valid()
    ensures ScanInvariant(all, em.quads, NaiveFrom(mask[..], u * EDGE + EDGE), d, positive, p)
  {
    for v := 0 to EDGE
      invariant em.Valid()
      invariant ScanInvariant(all, em.quads, NaiveFrom(mask[..], u * EDGE + v), d, positive, p)
    {
      var i := At(u, v);
      if mask[i] != NO_FACE {
        ScanEmits(all, em.quads, Rect(u, v, 1, 1, mask[i]), NaiveFrom(mask[..], i + 1), d, positive, p);
        em.EmitQuad(d, positive, p, u, v, 1, 1, mask[i]);
      }
    }
  }

  /** One quad per visible face of one slice. */
  method NaiveSlice(mask: array<nat>, em: Emitter, d: nat, positive: bool, p: nat)
    requires mask.Length == CELLS && em.Valid() && d < 3 && p <= EDGE
    modifies em
    ensures em.Valid()
    ensures em.quads == old(em.quads) + Lift(NaiveFrom(mask[..], 0), d, positive, p)
  {
    ghost var visible := mask[..];
    ghost var all := em.quads + Lift(NaiveFrom(visible, 0), d, positive, p);
    for u := 0 to EDGE
      invariant em.Valid() && mask[..] == visible
      invariant ScanInvariant(all, em.quads, NaiveFrom(visible, u * EDGE), d, positive, p)
    {
      NaiveRow(mask, u, em, d, positive, p, all);
    }
    ScanDone(all, em.quads, d, positive, p);
  }

  /** One slice of one face direction: fill the mask, then merge or not. */
  method MeshSlice(chunk: UnpackedChunk, slot: array<nat>, slotOpaque: seq<bool>, nb: NeighborViews,
                   isOpaque: Opacity,
                   merge: bool, d: nat, positive: bool, slice: nat, mask: array<nat>, em: Emitter)
    requires Meshable(chunk) && GridHolds(chunk, isOpaque, slot[..], slotOpaque)
    requires d < 3 && slice < EDGE && mask.Length == CELLS && mask != slot && em.Valid()
    modifies mask, em
    ensures em.Valid() && em.quads == old(em.quads) + SliceQuads(chunk, nb, isOpaque, merge, d, positive, slice)
  {
    BuildMask(chunk, slot, slotOpaque, nb, isOpaque, d, positive, slice, mask);
    var p := if positive then slice + 1 else slice;
    if merge {
      GreedySlice(mask, em, d, positive, p);
    } else {
      NaiveSlice(mask, em, d, positive, p);
    }
  }

  /** The sixteen slices of one face direction, in order. */
  method MeshDirection(chunk: UnpackedChunk, slot: array<nat>, slotOpaque: seq<bool>, nb: NeighborViews,
                       isOpaque: Opacity,
                       merge: bool, d: nat, positive: bool, mask: array<nat>, em: Emitter, ghost from: nat,
                       ghost ss: seq<seq<Quad>>)
    requires Meshable(chunk) && GridHolds(chunk, isOpaque, slot[..], slotOpaque)
    requires d < 3 && mask.Length == CELLS && mask != slot
    requires from == 32 * d + (if positive then 0 else 16)
    requires ss == Slices(chunk, nb, isOpaque, merge) && em.Valid() && em.quads == Flatten(ss[..from])
    modifies mask, em
    ensures em.Valid() && em.quads == Flatten(ss[..from + EDGE])
  {
    for slice := 0 to EDGE
      invariant GridHolds(chunk, isOpaque, slot[..], slotOpaque)
      invariant em.Valid() && em.quads == Flatten(ss[..from + slice])
    {
      FlattenNext(chunk, nb, isOpaque, merge, d, positive, slice, from + slice, ss);
      MeshSlice(chunk, slot, slotOpaque, nb, isOpaque, merge, d, positive, slice, mask, em);
    }
  }

  /** The two sweeps of one axis, the positive faces before the negative. */
  method MeshAxis(chunk: UnpackedChunk, slot: array<nat>, slotOpaque: seq<bool>, nb: NeighborViews,
                  isOpaque: Opacity, merge: bool, d: nat, mask: array<nat>, em: Emitter, ghost from: nat,
                  ghost ss: seq<seq<Quad>>)
    requires Meshable(chunk) && GridHolds(chunk, isOpaque, slot[..], slotOpaque)
    requires d < 3 && mask.Length == CELLS && mask != slot && from == 32 * d
    requires ss == Slices(chunk, nb, isOpaque, merge) && em.Valid() && em.quads == Flatten(ss[..from])
    modifies mask, em
    ensures em.Valid() && em.quads == Flatten(ss[..from + 32])
  {
    ghost var grid := slot[..];
    MeshDirection(chunk, slot, slotOpaque, nb, isOpaque, merge, d, true, mask, em, from, ss);
    assert slot[..] == grid;
    MeshDirection(chunk, slot, slotOpaque, nb, isOpaque, merge, d, false, mask, em, from + 16, ss);
  }

  /** All six sweeps, axis by axis. */
  method MeshSweeps(chunk: UnpackedChunk, slot: array<nat>, slotOpaque: seq<bool>, nb: NeighborViews,
                    isOpaque: Opacity, merge: bool, em: Emitter)
    requires Meshable(chunk) && GridHolds(chunk, isOpaque, slot[..], slotOpaque)
    requires em.Valid() && em.quads == []
    modifies em
    ensures em.Valid() && em.quads == Flatten(Slices(chunk, nb, isOpaque, merge))
  {
    var mask := new nat[CELLS];
    ghost var ss, grid := Slices(chunk, nb, isOpaque, merge), slot[..];
    for d := 0 to 3
      invariant slot[..] == grid && em.Valid() && em.quads == Flatten(ss[..32 * d])
    {
      MeshAxis(chunk, slot, slotOpaque, nb, isOpaque, merge, d, mask, em, 32 * d, ss);
    }
    AllSlices(chunk, nb, isOpaque, merge);
  }

  /** All six sweeps of a chunk; malformed input yields the empty mesh. */
  method MeshImpl(chunk: UnpackedChunk, nb: NeighborViews, isOpaque: Opacity,
                  merge: bool) returns (mesh: ChunkMesh)
    ensures AllValid(MeshQuads(chunk, nb, isOpaque, merge))
    ensures mesh == MeshOf(MeshQuads(chunk, nb, isOpaque, merge))
  {
    var em := new Emitter();
    var ok, slot, slotOpaque := BuildGrid(chunk, isOpaque);
    if ok {
      MeshSweeps(chunk, slot, slotOpaque, nb, isOpaque, merge, em);
    }
    mesh := em.Mesh();
  }

  lemma AllSlices(chunk: UnpackedChunk, nb: NeighborViews, isOpaque: Opacity, merge: bool)
    requires |chunk.cells| == CHUNK_CELLS
    ensures Slices(chunk, nb, isOpaque, merge)[..96] == Slices(chunk, nb, isOpaque, merge)
  {
  }

  lemma FlattenNext(chunk: UnpackedChunk, nb: NeighborViews, isOpaque: Opacity, merge: bool, d: nat,
                    positive: bool, slice: nat, t: nat, ss: seq<seq<Quad>>)
    requires |chunk.cells| == CHUNK_CELLS && d < 3 && slice < EDGE && t == 32 * d + (if positive then 0 else 16) + slice
    requires ss == Slices(chunk, nb, isOpaque, merge)
    ensures t < 96 && |ss| == 96
    ensures Flatten(ss[..t + 1]) == Flatten(ss[..t]) + SliceQuads(chunk, nb, isOpaque, merge, d, positive, slice)
  {
    assert t / 32 == d && (t % 32 < 16 <==> positive) && t % 16 == slice;
    SliceAt(chunk, nb, isOpaque, merge, t);
    FlattenStep(ss, t);
  }

  lemma FlattenStep(ss: seq<seq<Quad>>, t: nat)
    requires t < |ss|
    ensures Flatten(ss[..t + 1]) == Flatten(ss[..t]) + ss[t]
  {
    assert ss[..t + 1][..t] == ss[..t];
  }

  method GreedyMesh(chunk: UnpackedChunk, nb: NeighborViews, isOpaque: Opacity) returns (mesh: ChunkMesh)
    ensures AllValid(MeshQuads(chunk, nb, isOpaque, true))
    ensures mesh == MeshOf(MeshQuads(chunk, nb, isOpaque, true))
  {
    mesh := MeshImpl(chunk, nb, isOpaque, true);
  }

  method NaiveMesh(chunk: UnpackedChunk, nb: NeighborViews, isOpaque: Opacity) returns (mesh: ChunkMesh)
    ensures AllValid(MeshQuads(chunk, nb, isOpaque, false))
    ensures mesh == MeshOf(MeshQuads(chunk, nb, isOpaque, false))
  {
    mesh := MeshImpl(chunk, nb, isOpaque, false);
  }
}
