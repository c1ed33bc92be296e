/**
 Chunk meshes side by side. A window at rest shows, in world space, exactly the faces that meshing
 the whole window as one volume would show; no seam is doubled or left open.
 */
module Seams {
  import opened Bytes
  import opened Chunk
  import opened VoxelBlob
  import opened StoreKeys
  import opened MeshFormat
  import opened StreamWindow
  import opened Greedy
  import Arithmetic
  import RectMerge
  import VoxelBlobProofs
  import Minigen
  import Belt
  import Streamer

  /** A unit face in world cell coordinates. */
  datatype WorldFace = WorldFace(d: nat, positive: bool, cell: Vec)
  {
    function Front(): Vec { Greedy.Step(cell, d, if positive then 1 else -1) }
  }

  type Content = ChunkKey -> UnpackedChunk

  function KeyOf(c: Vec): ChunkKey {
    ChunkKey(c.x / 16, c.y / 16, c.z / 16)
  }

  function Local(k: ChunkKey, c: Vec): (l: Vec)
    ensures InChunk(l) <==> KeyOf(c) == k
  {
    Vec(c.x - 16 * k.cx, c.y - 16 * k.cy, c.z - 16 * k.cz)
  }

  /* ----- the window as one volume ----- */

  ghost predicate Full(chunk: UnpackedChunk) {
    |chunk.cells| == CHUNK_CELLS
  }

  /** What the store and the generator guarantee of a 16^3 chunk. */
  ghost predicate Sound(chunk: UnpackedChunk) {
    Full(chunk) ==> Meshable(chunk) && |chunk.palette| <= CHUNK_CELLS
  }

  /** The window holds a 16^3 chunk at this cell; outside, and in chunks of another size, there is nothing. */
  ghost predicate Filled(cfg: Config, c: Center, content: Content, cell: Vec) {
    InWindow(cfg, c, KeyOf(cell)) && Full(content(KeyOf(cell)))
  }

  ghost function VolumeCell(content: Content, cell: Vec): CellValue
    requires Full(content(KeyOf(cell)))
  {
    CellAt(content(KeyOf(cell)).cells, Local(KeyOf(cell), cell))
  }

  ghost predicate VolumeOpaque(cfg: Config, c: Center, content: Content, isOpaque: Opacity, cell: Vec) {
    Filled(cfg, c, content, cell) && isOpaque(VolumeCell(content, cell))
  }

  /** The content id that a face of the whole volume shows: an opaque cell in front of a cell that is not. */
  ghost function VolumeShows(cfg: Config, c: Center, content: Content, isOpaque: Opacity,
                             f: WorldFace): Option<nat> {
    if f.d < 3 && VolumeOpaque(cfg, c, content, isOpaque, f.cell) && !VolumeOpaque(cfg, c, content, isOpaque, f.Front())
    then Some(VolumeCell(content, f.cell).content % 0x1_0000)
    else None
  }

  /* ----- the window as resident meshes ----- */

  /** Quad j of the mesh of chunk k, moved to world space, spans this face. */
  ghost predicate Draws(rs: Residents, k: ChunkKey, j: nat, f: WorldFace) {
    && k in rs
    && j < |DecodeQuads(rs[k].mesh)|
    && Spans(DecodeQuads(rs[k].mesh)[j], UnitFace(f.d, f.positive, Local(k, f.cell)))
  }

  ghost predicate Drawn(rs: Residents, f: WorldFace) {
    exists k: ChunkKey, j: nat :: Draws(rs, k, j, f)
  }

  /* ----- one chunk ----- */

  ghost predicate Visible(chunk: UnpackedChunk, nb: NeighborViews, isOpaque: Opacity, f: UnitFace) {
    Full(chunk) && f.Valid() && isOpaque(CellAt(chunk.cells, f.cell)) &&
        !CoveredFace(chunk, nb, isOpaque, f.d, f.positive, f.cell)
  }

  lemma ShowsVisible(chunk: UnpackedChunk, nb: NeighborViews, isOpaque: Opacity, f: UnitFace)
    requires Full(chunk) && Sound(chunk)
    ensures Shows(chunk, nb, isOpaque)(f) != RectMerge.NO_FACE <==> Visible(chunk, nb, isOpaque, f)
    ensures Visible(chunk, nb, isOpaque, f) ==>
              var s := Shows(chunk, nb, isOpaque)(f);
              s < |chunk.palette| && chunk.palette[s] == CellAt(chunk.cells, f.cell)
  {
    if f.Valid() {
      IndexBound(f.cell);
      SlotOfMember(chunk.palette, CellAt(chunk.cells, f.cell));
    }
  }

  lemma RenderedQuads(chunk: UnpackedChunk, nb: NeighborViews, isOpaque: Opacity, j: nat)
    requires Sound(chunk)
    ensures var qs, m := MeshQuads(chunk, nb, isOpaque, true), DecodeQuads(Streamer.RenderMesh(chunk, nb, isOpaque));
            |m| == |qs| && (j < |qs| ==> m[j] == Belt.RemapQuad(qs[j], chunk.palette))
  {
    var qs := MeshQuads(chunk, nb, isOpaque, true);
    Streamer.QuadsAreValid(chunk, nb, isOpaque);
    DecodeOfMesh(qs);
    Belt.RemapDecodes(MeshOf(qs), chunk.palette);
  }

  /** A quad of a rendered chunk spans visible faces only, and carries their content id. */
  lemma QuadShowsVisible(chunk: UnpackedChunk, nb: NeighborViews, isOpaque: Opacity, j: nat, f: UnitFace)
    requires Sound(chunk)
    requires var m := DecodeQuads(Streamer.RenderMesh(chunk, nb, isOpaque)); j < |m| && Spans(m[j], f)
    ensures Visible(chunk, nb, isOpaque, f)
    ensures DecodeQuads(Streamer.RenderMesh(chunk, nb, isOpaque))[j].rect.slot ==
        CellAt(chunk.cells, f.cell).content % 0x1_0000
  {
    var qs := MeshQuads(chunk, nb, isOpaque, true);
    RenderedQuads(chunk, nb, isOpaque, j);
    assert Meshable(chunk);
    MeshIsExact(chunk, nb, isOpaque, true);
    assert Spans(qs[j], f);
    ShowsVisible(chunk, nb, isOpaque, f);
  }

  lemma VisibleIsSpanned(chunk: UnpackedChunk, nb: NeighborViews, isOpaque: Opacity,
                         f: UnitFace) returns (j: nat)
    requires Sound(chunk) && Visible(chunk, nb, isOpaque, f)
    ensures var m := DecodeQuads(Streamer.RenderMesh(chunk, nb, isOpaque)); j < |m| && Spans(m[j], f)
  {
    var qs := MeshQuads(chunk, nb, isOpaque, true);
    MeshIsExact(chunk, nb, isOpaque, true);
    ShowsVisible(chunk, nb, isOpaque, f);
    SliceRange(f);
    assert Shown(qs, f);
    j :| 0 <= j < |qs| && Spans(qs[j], f);
    RenderedQuads(chunk, nb, isOpaque, j);
  }

  lemma CoverSpansOnce(qs: seq<Quad>, shows: UnitFace -> nat, i: nat, j: nat, f: UnitFace)
    requires ExactCover(qs, shows, 0, 96) && i < |qs| && j < |qs| && Spans(qs[i], f) && Spans(qs[j], f)
    ensures i == j
  {
  }

  lemma RenderedSpans(chunk: UnpackedChunk, nb: NeighborViews, isOpaque: Opacity, m: seq<Quad>, j: nat,
                      f: UnitFace)
    requires Sound(chunk) && m == DecodeQuads(Streamer.RenderMesh(chunk, nb, isOpaque)) && j < |m| && Spans(m[j], f)
    ensures Meshable(chunk)
    ensures var qs := MeshQuads(chunk, nb, isOpaque, true); j < |qs| && Spans(qs[j], f)
  {
    RenderedQuads(chunk, nb, isOpaque, j);
    MeshableIfQuads(chunk, nb, isOpaque, j);
  }

  lemma SpannedOnce(chunk: UnpackedChunk, nb: NeighborViews, isOpaque: Opacity, m: seq<Quad>, i: nat,
                    j: nat, f: UnitFace)
    requires Sound(chunk) && m == DecodeQuads(Streamer.RenderMesh(chunk, nb, isOpaque))
    requires i < |m| && j < |m| && Spans(m[i], f) && Spans(m[j], f)
    ensures i == j
  {
    RenderedSpans(chunk, nb, isOpaque, m, i, f);
    RenderedSpans(chunk, nb, isOpaque, m, j, f);
    MeshIsExact(chunk, nb, isOpaque, true);
    CoverSpansOnce(MeshQuads(chunk, nb, isOpaque, true), Shows(chunk, nb, isOpaque), i, j, f);
  }

  lemma MeshableIfQuads(chunk: UnpackedChunk, nb: NeighborViews, isOpaque: Opacity, i: nat)
    requires i < |MeshQuads(chunk, nb, isOpaque, true)|
    ensures Meshable(chunk)
  {
  }

  /* ----- crossing a seam ----- */

  function SideOf(d: nat, positive: bool): nat {
    2 * d + (if positive then 0 else 1)
  }

  lemma AcrossSeam(k: ChunkKey, d: nat, positive: bool, cell: Vec)
    requires d < 3 && KeyOf(cell) == k
    ensures var front := Greedy.Step(cell, d, if positive then 1 else -1); var n := Local(k, front);
            if InChunk(n) then KeyOf(front) == k
            else KeyOf(front) == Neighbor(k, SideOf(d, positive)) && Local(KeyOf(front), front) == Wrap(n, d)
  {
  }

  lemma ViewOfSide(content: Content, k: ChunkKey, mask: StreamWindow.Mask, d: nat, positive: bool)
    requires d < 3
    ensures Streamer.Views(content, k, mask).Side(d, positive)
         == if mask[SideOf(d, positive)] then content(Neighbor(k, SideOf(d, positive))).cells else []
  {
  }

  /** What the mesher sees across its border is what the volume holds there. */
  lemma CoveredIffVolumeOpaque(cfg: Config, c: Center, content: Content, isOpaque: Opacity, f: WorldFace)
    requires f.d < 3 && Filled(cfg, c, content, f.cell)
    ensures var k := KeyOf(f.cell);
            CoveredFace(content(k), Streamer.Views(content, k, WindowMask(cfg, c, k)), isOpaque, f.d, f.positive,
                        Local(k, f.cell))
            <==> VolumeOpaque(cfg, c, content, isOpaque, f.Front())
  {
    var k := KeyOf(f.cell);
    AcrossSeam(k, f.d, f.positive, f.cell);
    ViewOfSide(content, k, WindowMask(cfg, c, k), f.d, f.positive);
    assert Local(k, f.Front()) == Greedy.Step(Local(k, f.cell), f.d, if f.positive then 1 else -1);
  }

  /* ----- the whole window ----- */

  ghost predicate WindowIsSound(cfg: Config, c: Center, content: Content) {
    forall k: ChunkKey :: InWindow(cfg, c, k) ==> Sound(content(k))
  }

  lemma RestingMesh(cfg: Config, c: Center, content: Content, isOpaque: Opacity, rs: Residents, k: ChunkKey)
    requires AllPure(Streamer.WorldOver(content, isOpaque), rs) && Quiescent(cfg, c, rs) && InWindow(cfg, c, k)
    ensures var views := Streamer.Views(content, k, WindowMask(cfg, c, k));
            k in rs && rs[k].mesh == Streamer.RenderMesh(content(k), views, isOpaque)
  {
    assert k in Desired(cfg, c);
    assert Pure(Streamer.WorldOver(content, isOpaque), k, rs[k]);
  }

  lemma VisibleIffVolumeShows(cfg: Config, c: Center, content: Content, isOpaque: Opacity, k: ChunkKey,
                              f: WorldFace)
    requires InWindow(cfg, c, k)
    ensures Visible(content(k), Streamer.Views(content, k, WindowMask(cfg, c, k)), isOpaque,
                    UnitFace(f.d, f.positive, Local(k, f.cell)))
       <==> KeyOf(f.cell) == k && VolumeShows(cfg, c, content, isOpaque, f).Some?
  {
    if KeyOf(f.cell) == k && f.d < 3 && Full(content(k)) {
      CoveredIffVolumeOpaque(cfg, c, content, isOpaque, f);
    }
  }

  /** Whatever a resident mesh draws is a face of the volume, with its content id, from its own chunk. */
  lemma DrawnIsShown(cfg: Config, c: Center, content: Content, isOpaque: Opacity, rs: Residents,
                     k: ChunkKey, j: nat, f: WorldFace)
    requires WindowIsSound(cfg, c, content)
    requires AllPure(Streamer.WorldOver(content, isOpaque), rs) && Quiescent(cfg, c, rs)
    requires Draws(rs, k, j, f)
    ensures k == KeyOf(f.cell)
    ensures VolumeShows(cfg, c, content, isOpaque, f) == Some(DecodeQuads(rs[k].mesh)[j].rect.slot)
  {
    assert k in Desired(cfg, c);
    RestingMesh(cfg, c, content, isOpaque, rs, k);
    var nb := Streamer.Views(content, k, WindowMask(cfg, c, k));
    QuadShowsVisible(content(k), nb, isOpaque, j, UnitFace(f.d, f.positive, Local(k, f.cell)));
    VisibleIffVolumeShows(cfg, c, content, isOpaque, k, f);
  }

  lemma ShownIsDrawn(cfg: Config, c: Center, content: Content, isOpaque: Opacity, rs: Residents,
                     f: WorldFace) returns (j: nat)
    requires WindowIsSound(cfg, c, content)
    requires AllPure(Streamer.WorldOver(content, isOpaque), rs) && Quiescent(cfg, c, rs)
    requires VolumeShows(cfg, c, content, isOpaque, f).Some?
    ensures Draws(rs, KeyOf(f.cell), j, f)
  {
    var k := KeyOf(f.cell);
    RestingMesh(cfg, c, content, isOpaque, rs, k);
    VisibleIffVolumeShows(cfg, c, content, isOpaque, k, f);
    j := VisibleIsSpanned(content(k), Streamer.Views(content, k, WindowMask(cfg, c, k)), isOpaque,
                          UnitFace(f.d, f.positive, Local(k, f.cell)));
  }

  /**
   The streaming composition theorem: at rest, the resident meshes draw exactly the faces of the
   window meshed as one volume, each with its content id.
   */
  lemma RestDrawsTheVolume(cfg: Config, c: Center, content: Content, isOpaque: Opacity, rs: Residents,
                           f: WorldFace, id: nat)
    requires WindowIsSound(cfg, c, content)
    requires AllPure(Streamer.WorldOver(content, isOpaque), rs) && Quiescent(cfg, c, rs)
    ensures (exists k: ChunkKey, j: nat :: Draws(rs, k, j, f) && DecodeQuads(rs[k].mesh)[j].rect.slot == id)
       <==> VolumeShows(cfg, c, content, isOpaque, f) == Some(id)
  {
    if k: ChunkKey, j: nat :| Draws(rs, k, j, f) && DecodeQuads(rs[k].mesh)[j].rect.slot == id {
      DrawnIsShown(cfg, c, content, isOpaque, rs, k, j, f);
    }
    if VolumeShows(cfg, c, content, isOpaque, f) == Some(id) {
      var j := ShownIsDrawn(cfg, c, content, isOpaque, rs, f);
      DrawnIsShown(cfg, c, content, isOpaque, rs, KeyOf(f.cell), j, f);
    }
  }

  /** No face is drawn twice, not even by two chunks. */
  lemma RestDrawsOnce(cfg: Config, c: Center, content: Content, isOpaque: Opacity, rs: Residents, f: WorldFace,
                      k: ChunkKey, j: nat, k': ChunkKey, j': nat)
    requires WindowIsSound(cfg, c, content)
    requires AllPure(Streamer.WorldOver(content, isOpaque), rs) && Quiescent(cfg, c, rs)
    requires Draws(rs, k, j, f) && Draws(rs, k', j', f)
    ensures k == k' && j == j'
  {
    DrawnIsShown(cfg, c, content, isOpaque, rs, k, j, f);
    DrawnIsShown(cfg, c, content, isOpaque, rs, k', j', f);
    RestingMesh(cfg, c, content, isOpaque, rs, k);
    var nb := Streamer.Views(content, k, WindowMask(cfg, c, k));
    SpannedOnce(content(k), nb, isOpaque, DecodeQuads(rs[k].mesh), j, j', UnitFace(f.d, f.positive, Local(k, f.cell)));
  }

  /**
   Between two neighbouring cells of the window, in one chunk or across a seam, a face is drawn
   exactly when their opacities differ, and then from exactly one side.
   */
  lemma SeamShowsTheDifference(cfg: Config, c: Center, content: Content, isOpaque: Opacity, rs: Residents,
                               d: nat, a: Vec)
    requires WindowIsSound(cfg, c, content) && d < 3
    requires AllPure(Streamer.WorldOver(content, isOpaque), rs) && Quiescent(cfg, c, rs)
    requires Filled(cfg, c, content, a) && Filled(cfg, c, content, Greedy.Step(a, d, 1))
    ensures var b := Greedy.Step(a, d, 1);
            var differ := isOpaque(VolumeCell(content, a)) != isOpaque(VolumeCell(content, b));
            var up, down := Drawn(rs, WorldFace(d, true, a)), Drawn(rs, WorldFace(d, false, b));
            (up || down <==> differ) && !(up && down)
  {
    var b := Greedy.Step(a, d, 1);
    BackToStart(d, a);
    FaceBetween(cfg, c, content, isOpaque, rs, WorldFace(d, true, a));
    FaceBetween(cfg, c, content, isOpaque, rs, WorldFace(d, false, b));
  }

  lemma BackToStart(d: nat, a: Vec)
    ensures WorldFace(d, false, Greedy.Step(a, d, 1)).Front() == a
  {
  }

  lemma FaceBetween(cfg: Config, c: Center, content: Content, isOpaque: Opacity, rs: Residents, f: WorldFace)
    requires WindowIsSound(cfg, c, content) && f.d < 3
    requires AllPure(Streamer.WorldOver(content, isOpaque), rs) && Quiescent(cfg, c, rs)
    requires Filled(cfg, c, content, f.cell) && Filled(cfg, c, content, f.Front())
    ensures Drawn(rs, f) <==> isOpaque(VolumeCell(content, f.cell)) && !isOpaque(VolumeCell(content, f.Front()))
  {
    DrawnIffShown(cfg, c, content, isOpaque, rs, f);
  }

  lemma DrawnIffShown(cfg: Config, c: Center, content: Content, isOpaque: Opacity, rs: Residents, f: WorldFace)
    requires WindowIsSound(cfg, c, content)
    requires AllPure(Streamer.WorldOver(content, isOpaque), rs) && Quiescent(cfg, c, rs)
    ensures Drawn(rs, f) <==> VolumeShows(cfg, c, content, isOpaque, f).Some?
  {
    if k: ChunkKey, j: nat :| Draws(rs, k, j, f) {
      DrawnIsShown(cfg, c, content, isOpaque, rs, k, j, f);
    }
    if VolumeShows(cfg, c, content, isOpaque, f).Some? {
      var j := ShownIsDrawn(cfg, c, content, isOpaque, rs, f);
    }
  }

  /* ----- every store and every generated world is sound ----- */

  lemma StoredIsSound(blob: seq<byte>)
    requires Unpacked(blob).Some?
    ensures Sound(Unpacked(blob).value)
  {
    var chunk, h := Unpacked(blob).value, ReadHeader(blob).value;
    VoxelBlobProofs.CellsUsePalette(blob);
    if Full(chunk) {
      OnlySixteenIsFull(h.log2Extent);
    }
  }

  lemma OnlySixteenIsFull(l: nat)
    requires 1 <= l <= MAX_LOG2_EXTENT && CellCount(l) == CHUNK_CELLS
    ensures l == 4
  {
    CellCountIsPow8(l);
    PowersOfTwo();
    if l < 4 {
      PowGrows(l, 4);
    } else if l > 4 {
      PowGrows(4, l);
    }
  }

  lemma PowGrows(m: nat, n: nat)
    requires m < n
    ensures Arithmetic.Pow(8, m) < Arithmetic.Pow(8, n)
  {
    Arithmetic.PowMono(8, m + 1, n);
  }

  lemma GeneratedIsSound(h: Minigen.Hash, k: ChunkKey)
    ensures Sound(Belt.Generated(h, k)) && Full(Belt.Generated(h, k))
  {
    FirstAppearanceFacts(Belt.WorldCells(h, k));
  }

  lemma AnyStoreIsSound(cfg: Config, c: Center, chunks: map<Key, seq<byte>>, h: Minigen.Hash)
    ensures WindowIsSound(cfg, c, Streamer.ContentFunction(chunks, h))
  {
    forall k: ChunkKey | InWindow(cfg, c, k)
      ensures Sound(Streamer.ContentFunction(chunks, h)(k))
    {
      GeneratedIsSound(h, k);
      if k.InWord() && Belt.Stored(chunks, k) {
        StoredIsSound(chunks[ChunkStoreKey(k)]);
      }
    }
  }

  lemma StreamerIsSound(s: Streamer.Streamer)
    requires s.Valid()
    ensures WindowIsSound(s.cfg, s.center, s.content)
  {
    forall k: ChunkKey | InWindow(s.cfg, s.center, k)
      ensures Sound(s.content(k))
    {
      Streamer.WindowInWord(s.cfg, s.center, k);
      assert s.content(k) == Belt.ContentOf(s.store.chunks, s.hash, k);
      GeneratedIsSound(s.hash, k);
      if Belt.Stored(s.store.chunks, k) {
        StoredIsSound(s.store.chunks[ChunkStoreKey(k)]);
      }
    }
  }

  /** Any streamer at rest, over any store, draws its window as one volume. */
  lemma StreamerDrawsTheVolume(s: Streamer.Streamer, f: WorldFace, id: nat)
    requires s.Valid() && Quiescent(s.cfg, s.center, s.resident)
    ensures (exists k: ChunkKey, j: nat ::
               Draws(s.resident, k, j, f) && DecodeQuads(s.resident[k].mesh)[j].rect.slot == id)
       <==> VolumeShows(s.cfg, s.center, s.content, s.isOpaque, f) == Some(id)
  {
    StreamerIsSound(s);
    RestDrawsTheVolume(s.cfg, s.center, s.content, s.isOpaque, s.resident, f, id);
  }
}
