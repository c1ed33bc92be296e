/**
 The conveyor belt: load a chunk from the store, or generate it, pack it, try to persist it, and
 unpack it; and the adapter that rewrites palette slots to content ids.
 */
module Belt {
  import opened Bytes
  import opened Chunk
  import opened VoxelBlob
  import opened StoreKeys
  import opened MeshFormat
  import VoxelBlobProofs
  import Minigen
  import ChunkGen
  import Mesher
  import Greedy
  import Morton

  const CHUNK_LOG2: nat := 4

  /** One call of put and its result. */
  datatype PutCall = PutCall(key: Key, value: seq<byte>, ok: bool)

  /** The chunk space of a store. A put may fail, and then leaves everything as it was. */
  class ChunkStore {
    var chunks: map<Key, seq<byte>>
    /** Every put so far. */
    ghost var puts: seq<PutCall>

    method Put(key: Key, value: seq<byte>) returns (ok: bool)
      modifies this
      ensures key == [] ==> !ok
      ensures chunks == if ok then old(chunks)[key := value] else old(chunks)
      ensures puts == old(puts) + [PutCall(key, value, ok)]
    {
      ok := *;
      if key == [] {
        ok := false;
      }
      if ok {
        chunks := chunks[key := value];
      }
      puts := puts + [PutCall(key, value, ok)];
    }

    method Get(key: Key) returns (r: Option<seq<byte>>)
      ensures r == if key in chunks then Some(chunks[key]) else None
    {
      if key in chunks {
        return Some(chunks[key]);
      }
      return None;
    }
  }

  function GenPos(k: ChunkKey): ChunkGen.ChunkPos {
    ChunkGen.ChunkPos(k.cx, k.cy, k.cz)
  }

  /** The generated cells of a chunk in Morton order. */
  ghost function WorldCells(h: Minigen.Hash, k: ChunkKey): (cells: seq<CellValue>)
    ensures |cells| == CHUNK_CELLS
  {
    seq(CHUNK_CELLS, i requires 0 <= i < CHUNK_CELLS =>
      var c := Mesher.PosVec(i);
      CellValue(Minigen.WorldCell(h, ChunkGen.WorldPos(GenPos(k), c.x, c.y, c.z)), 0))
  }

  ghost function Generated(h: Minigen.Hash, k: ChunkKey): UnpackedChunk {
    UnpackedChunk(CHUNK_LOG2, FirstAppearance(WorldCells(h, k)), WorldCells(h, k))
  }

  ghost predicate Stored(chunks: map<Key, seq<byte>>, k: ChunkKey)
    requires k.InWord()
  {
    ChunkStoreKey(k) in chunks && Unpacked(chunks[ChunkStoreKey(k)]).Some?
  }

  /** What load-or-generate yields for a chunk: the stored chunk if it validates, else the world's. */
  ghost function ContentOf(chunks: map<Key, seq<byte>>, h: Minigen.Hash, k: ChunkKey): UnpackedChunk
    requires k.InWord()
  {
    if Stored(chunks, k) then Unpacked(chunks[ChunkStoreKey(k)]).value else Generated(h, k)
  }

  /** Two stores that answer alike for every chunk. */
  ghost predicate SameContent(a: map<Key, seq<byte>>, b: map<Key, seq<byte>>, h: Minigen.Hash) {
    forall k: ChunkKey :: k.InWord() ==> ContentOf(a, h, k) == ContentOf(b, h, k)
  }

  lemma ChunkExtent()
    ensures CellCount(CHUNK_LOG2) == CHUNK_CELLS
  {
    CellCountIsPow8(4);
    Greedy.PowersOfTwo();
  }

  lemma GeneratedUnpacks(h: Minigen.Hash, k: ChunkKey)
    ensures Unpacked(Packed(WorldCells(h, k), CHUNK_LOG2)) == Some(Generated(h, k))
  {
    ChunkExtent();
    VoxelBlobProofs.UnpackOfPack(WorldCells(h, k), CHUNK_LOG2);
  }

  /** Persisting a generated chunk changes no answer of the store. */
  lemma PersistKeepsContent(chunks: map<Key, seq<byte>>, h: Minigen.Hash, k: ChunkKey)
    requires k.InWord() && !Stored(chunks, k)
    ensures var after := chunks[ChunkStoreKey(k) := Packed(WorldCells(h, k), CHUNK_LOG2)];
            SameContent(chunks, after, h) && Stored(after, k)
  {
    var after := chunks[ChunkStoreKey(k) := Packed(WorldCells(h, k), CHUNK_LOG2)];
    GeneratedUnpacks(h, k);
    forall l: ChunkKey | l.InWord()
      ensures ContentOf(chunks, h, l) == ContentOf(after, h, l)
    {
      ChunkKeyOrder(k, l);
    }
  }

  /** Moves generated cells from storage order to Morton order. */
  method MortonCells(h: Minigen.Hash, k: ChunkKey,
                     chunk: array<Minigen.Content>) returns (cells: seq<CellValue>)
    requires chunk.Length == CHUNK_CELLS
    requires ChunkGen.Holds(chunk[..], GenPos(k), p => Minigen.WorldCell(h, p))
    ensures cells == WorldCells(h, k)
  {
    var out := new CellValue[CHUNK_CELLS](_ => CellValue(0, 0));
    for z := 0 to 16
      invariant FilledTo(h, k, out[..], 0, 0, z)
    {
      for y := 0 to 16
        invariant FilledTo(h, k, out[..], 0, y, z)
      {
        for x := 0 to 16
          invariant FilledTo(h, k, out[..], x, y, z)
        {
          Greedy.IndexBound(Vec(x, y, z));
          FillNext(h, k, out[..], x, y, z);
          out[Morton.Index(x, y, z)] := CellValue(chunk[ChunkGen.CellIndex(x, y, z)], 0);
        }
      }
    }
    Filled(h, k, out[..]);
    return out[..];
  }

  /** Positions visited before (x, y, z) hold their world cell. */
  ghost predicate FilledTo(h: Minigen.Hash, k: ChunkKey, cells: seq<CellValue>, x: int, y: int, z: int) {
    && |cells| == CHUNK_CELLS
    && forall i :: 0 <= i < CHUNK_CELLS ==>
         var c := Mesher.PosVec(i);
         ChunkGen.VisitedBefore(c.x, c.y, c.z, x, y, z) ==> cells[i] == WorldCells(h, k)[i]
  }

  lemma FillNext(h: Minigen.Hash, k: ChunkKey, cells: seq<CellValue>, x: nat, y: nat, z: nat)
    requires x < 16 && y < 16 && z < 16 && FilledTo(h, k, cells, x, y, z)
    requires Morton.Index(x, y, z) < CHUNK_CELLS
    ensures var i := Morton.Index(x, y, z);
            && WorldCells(h, k)[i] == CellValue(Minigen.WorldCell(h, ChunkGen.WorldPos(GenPos(k), x, y, z)), 0)
            && FilledTo(h, k, cells[i := WorldCells(h, k)[i]], x + 1, y, z)
  {
    var i := Morton.Index(x, y, z);
    Morton.PosOfIndex(x, y, z);
    assert Mesher.PosVec(i) == Vec(x, y, z);
    forall j | 0 <= j < CHUNK_CELLS && Mesher.PosVec(j) == Vec(x, y, z)
      ensures j == i
    {
      Mesher.PosInChunk(j);
    }
  }

  lemma Filled(h: Minigen.Hash, k: ChunkKey, cells: seq<CellValue>)
    requires FilledTo(h, k, cells, 0, 0, 16)
    ensures cells == WorldCells(h, k)
  {
    forall i | 0 <= i < CHUNK_CELLS
      ensures cells[i] == WorldCells(h, k)[i]
    {
      var c := Mesher.PosVec(i);
      assert ChunkGen.VisitedBefore(c.x, c.y, c.z, 0, 0, 16);
    }
  }

  datatype BeltChunk = BeltChunk(key: ChunkKey, chunk: UnpackedChunk, fromStore: bool, persisted: bool)

  /** The put of a generated chunk: its packed cells under its key. */
  ghost function ChunkPut(h: Minigen.Hash, k: ChunkKey, ok: bool): PutCall
    requires k.InWord()
  {
    PutCall(ChunkStoreKey(k), Packed(WorldCells(h, k), CHUNK_LOG2), ok)
  }

  ghost predicate PutsChunk(h: Minigen.Hash, bc: BeltChunk, p: PutCall) {
    bc.key.InWord() && p == ChunkPut(h, bc.key, bc.persisted)
  }

  /** The puts made while the answers in out were given: none for a stored chunk, exactly one for a generated one. */
  ghost predicate Logged(h: Minigen.Hash, out: seq<BeltChunk>, puts: seq<PutCall>)
    decreases |out|
  {
    if out == [] then puts == []
    else
      var n, m := |out| - 1, |puts| - 1;
      if out[n].fromStore then Logged(h, out[..n], puts)
      else m >= 0 && PutsChunk(h, out[n], puts[m]) && Logged(h, out[..n], puts[..m])
  }

  lemma {:induction false} LoggedJoin(h: Minigen.Hash, a: seq<BeltChunk>, b: seq<BeltChunk>, p: seq<PutCall>,
                                      q: seq<PutCall>)
    requires Logged(h, a, p) && Logged(h, b, q)
    ensures Logged(h, a + b, p + q)
    decreases |b|
  {
    if b == [] {
      assert a + b == a && p + q == p;
    } else {
      var n, m := |b| - 1, |q| - 1;
      assert (a + b)[..|a| + n] == a + b[..n] && (a + b)[|a| + n] == b[n];
      if b[n].fromStore {
        LoggedJoin(h, a, b[..n], p, q);
      } else {
        LoggedJoin(h, a, b[..n], p, q[..m]);
        assert (p + q)[..|p| + m] == p + q[..m] && (p + q)[|p| + m] == q[m];
      }
    }
  }

  lemma LogGrows(h: Minigen.Hash, a: seq<BeltChunk>, b: seq<BeltChunk>, log: seq<PutCall>, mid: seq<PutCall>,
                 now: seq<PutCall>)
    requires log <= mid && mid <= now && Logged(h, a, mid[|log|..]) && Logged(h, b, now[|mid|..])
    ensures log <= now && Logged(h, a + b, now[|log|..])
  {
    LoggedJoin(h, a, b, mid[|log|..], now[|mid|..]);
    assert now[|log|..] == mid[|log|..] + now[|mid|..];
  }

  /** Every stored chunk stays, and none but the listed ones is added. */
  ghost predicate OnlyAdds(before: map<Key, seq<byte>>, after: map<Key, seq<byte>>, keys: seq<ChunkKey>) {
    && (forall k: ChunkKey :: k.InWord() && Stored(before, k) ==> Stored(after, k))
    && (forall k: ChunkKey :: k.InWord() && Stored(after, k) ==> Stored(before, k) || k in keys)
  }

  lemma PutOnlyAdds(chunks: map<Key, seq<byte>>, h: Minigen.Hash, k: ChunkKey)
    requires k.InWord() && !Stored(chunks, k)
    ensures OnlyAdds(chunks, chunks[ChunkStoreKey(k) := Packed(WorldCells(h, k), CHUNK_LOG2)], [k])
  {
    forall l: ChunkKey | l.InWord() && l != k
      ensures ChunkStoreKey(l) != ChunkStoreKey(k)
    {
      ChunkKeyOrder(k, l);
    }
  }

  lemma LoggedOne(h: Minigen.Hash, bc: BeltChunk, puts: seq<PutCall>)
    requires if bc.fromStore then puts == [] else |puts| == 1 && PutsChunk(h, bc, puts[0])
    ensures Logged(h, [bc], puts)
  {
    assert [bc][..0] == [];
    if |puts| == 1 {
      assert puts[..0] == [];
    }
  }

  /** What asking for k may put: nothing if the store holds it, else its generated cells, once. */
  ghost predicate PutsMiss(h: Minigen.Hash, chunks: map<Key, seq<byte>>, k: ChunkKey, puts: seq<PutCall>)
    requires k.InWord()
  {
    if Stored(chunks, k) then puts == [] else |puts| == 1 && puts[0] == ChunkPut(h, k, puts[0].ok)
  }

  lemma LoggedIsMiss(h: Minigen.Hash, bc: BeltChunk, k: ChunkKey, chunks: map<Key, seq<byte>>, puts: seq<PutCall>)
    requires k.InWord() && bc.key == k && (bc.fromStore <==> Stored(chunks, k)) && Logged(h, [bc], puts)
    ensures PutsMiss(h, chunks, k, puts)
  {
    assert [bc][..0] == [];
    if !bc.fromStore {
      assert Logged(h, [bc][..0], puts[..|puts| - 1]);
    }
  }

  /** A miss: generate, pack, put once, unpack what was packed. */
  method GenerateAndPut(store: ChunkStore, h: Minigen.Hash, k: ChunkKey) returns (bc: BeltChunk)
    requires k.InWord() && !Stored(store.chunks, k)
    modifies store
    ensures bc == BeltChunk(k, Generated(h, k), false, bc.persisted)
    ensures bc.persisted <==> Stored(store.chunks, k)
    ensures SameContent(old(store.chunks), store.chunks, h) && OnlyAdds(old(store.chunks), store.chunks, [k])
    ensures old(store.puts) <= store.puts && Logged(h, [bc], store.puts[|old(store.puts)|..])
  {
    var g := new Minigen.Content[CHUNK_CELLS];
    ChunkGen.GenerateChunk(h, GenPos(k), g);
    var cells := MortonCells(h, k, g);
    var packed := PackVoxelBlob(cells, CHUNK_LOG2);
    PersistKeepsContent(store.chunks, h, k);
    GeneratedUnpacks(h, k);
    ghost var before, log := store.chunks, store.puts;
    var persisted := store.Put(ChunkStoreKey(k), packed);
    PutOnlyAdds(before, h, k);
    var chunk := UnpackVoxelBlob(packed);
    bc := BeltChunk(k, chunk.value, false, persisted);
    assert store.puts[|log|..] == [PutCall(ChunkStoreKey(k), packed, persisted)];
    LoggedOne(h, bc, store.puts[|log|..]);
  }

  /** One chunk of the belt: a stored blob that fails validation counts as a miss. */
  method LoadOrGenerate(store: ChunkStore, h: Minigen.Hash, k: ChunkKey) returns (bc: BeltChunk)
    requires k.InWord()
    modifies store
    ensures bc.key == k && bc.chunk == ContentOf(old(store.chunks), h, k)
    ensures bc.fromStore <==> Stored(old(store.chunks), k)
    ensures bc.persisted <==> Stored(store.chunks, k)
    ensures SameContent(old(store.chunks), store.chunks, h)
    ensures OnlyAdds(old(store.chunks), store.chunks, [k])
    ensures old(store.puts) <= store.puts && Logged(h, [bc], store.puts[|old(store.puts)|..])
  {
    var blob := store.Get(ChunkStoreKey(k));
    if blob.Some? {
      var chunk := UnpackVoxelBlob(blob.value);
      if chunk.Some? {
        bc := BeltChunk(k, chunk.value, true, true);
        LoggedOne(h, bc, []);
        return;
      }
    }
    bc := GenerateAndPut(store, h, k);
  }

  /* ----- a box of chunks ----- */

  /** The belt's answer for one key, given the store before and after the pass. */
  ghost predicate Answers(bc: BeltChunk, k: ChunkKey, before: map<Key, seq<byte>>,
                          after: map<Key, seq<byte>>, h: Minigen.Hash) {
    && k.InWord()
    && bc.key == k
    && bc.chunk == ContentOf(before, h, k)
    && (bc.fromStore <==> Stored(before, k))
    && (bc.persisted <==> Stored(after, k))
  }

  /** A whole pass: one answer per key in order, and a store that answers as before. */
  ghost predicate Pass(out: seq<BeltChunk>, keys: seq<ChunkKey>, before: map<Key, seq<byte>>,
                       after: map<Key, seq<byte>>, h: Minigen.Hash) {
    && |out| == |keys|
    && (forall i :: 0 <= i < |keys| ==> Answers(out[i], keys[i], before, after, h))
    && SameContent(before, after, h)
    && OnlyAdds(before, after, keys)
  }

  ghost predicate Disjoint(ks: seq<ChunkKey>, ks': seq<ChunkKey>) {
    forall k :: k in ks ==> k !in ks'
  }

  lemma JoinAdds(a: map<Key, seq<byte>>, b: map<Key, seq<byte>>, c: map<Key, seq<byte>>, ks: seq<ChunkKey>,
                 ks': seq<ChunkKey>)
    requires OnlyAdds(a, b, ks) && OnlyAdds(b, c, ks')
    ensures OnlyAdds(a, c, ks + ks')
  {
  }

  /** A later pass over other keys leaves an answer true. */
  lemma AnswerStays(bc: BeltChunk, k: ChunkKey, a: map<Key, seq<byte>>, b: map<Key, seq<byte>>,
                    c: map<Key, seq<byte>>, h: Minigen.Hash, ks': seq<ChunkKey>)
    requires Answers(bc, k, a, b, h) && OnlyAdds(b, c, ks') && k !in ks'
    ensures Answers(bc, k, a, c, h)
  {
  }

  /** Seen from before an earlier pass over other keys, an answer is the same. */
  lemma AnswerWas(bc: BeltChunk, k: ChunkKey, a: map<Key, seq<byte>>, b: map<Key, seq<byte>>,
                  c: map<Key, seq<byte>>, h: Minigen.Hash, ks: seq<ChunkKey>)
    requires Answers(bc, k, b, c, h) && OnlyAdds(a, b, ks) && k !in ks
    requires ContentOf(a, h, k) == ContentOf(b, h, k)
    ensures Answers(bc, k, a, c, h)
  {
  }

  lemma JoinAnswer(o: seq<BeltChunk>, o': seq<BeltChunk>, ks: seq<ChunkKey>, ks': seq<ChunkKey>,
                   a: map<Key, seq<byte>>, b: map<Key, seq<byte>>, c: map<Key, seq<byte>>, h: Minigen.Hash,
                   i: nat, bc: BeltChunk, k: ChunkKey)
    requires Pass(o, ks, a, b, h) && Pass(o', ks', b, c, h) && Disjoint(ks, ks')
    requires i < |ks + ks'| && bc == (o + o')[i] && k == (ks + ks')[i]
    ensures Answers(bc, k, a, c, h)
  {
    if i < |ks| {
      assert Answers(o[i], ks[i], a, b, h) && ks[i] in ks;
      AnswerStays(bc, k, a, b, c, h, ks');
    } else {
      var j := i - |ks|;
      assert Answers(o'[j], ks'[j], b, c, h) && ks'[j] in ks';
      AnswerWas(bc, k, a, b, c, h, ks);
    }
  }

  lemma JoinPasses(o: seq<BeltChunk>, o': seq<BeltChunk>, ks: seq<ChunkKey>, ks': seq<ChunkKey>,
                   a: map<Key, seq<byte>>, b: map<Key, seq<byte>>, c: map<Key, seq<byte>>, h: Minigen.Hash)
    requires Pass(o, ks, a, b, h) && Pass(o', ks', b, c, h) && Disjoint(ks, ks')
    ensures Pass(o + o', ks + ks', a, c, h)
  {
    forall i | 0 <= i < |ks + ks'|
      ensures Answers((o + o')[i], (ks + ks')[i], a, c, h)
    {
      JoinAnswer(o, o', ks, ks', a, b, c, h, i, (o + o')[i], (ks + ks')[i]);
    }
    JoinAdds(a, b, c, ks, ks');
  }

  lemma OnePass(bc: BeltChunk, k: ChunkKey, a: map<Key, seq<byte>>, b: map<Key, seq<byte>>, h: Minigen.Hash)
    requires Answers(bc, k, a, b, h) && SameContent(a, b, h) && OnlyAdds(a, b, [k])
    ensures Pass([bc], [k], a, b, h)
  {
  }

  lemma RowIsNew(x0: int, x1: int, y0: int, y: int, z: int)
    ensures Disjoint(LayerKeys(x0, x1, y0, y, z), RowKeys(x0, x1, y, z))
  {
    forall k | k in LayerKeys(x0, x1, y0, y, z)
      ensures k !in RowKeys(x0, x1, y, z)
    {
      LayerMembers(x0, x1, y0, y, z, k);
    }
  }

  lemma LayerIsNew(x0: int, x1: int, y0: int, y1: int, z0: int, z: int)
    ensures Disjoint(BoxKeys(x0, x1, y0, y1, z0, z), LayerKeys(x0, x1, y0, y1, z))
  {
    forall k | k in BoxKeys(x0, x1, y0, y1, z0, z)
      ensures k !in LayerKeys(x0, x1, y0, y1, z)
    {
      BoxMembers(x0, x1, y0, y1, z0, z, k);
      LayerMembers(x0, x1, y0, y1, z, k);
    }
  }

  lemma RowPassGrows(out: seq<BeltChunk>, bc: BeltChunk, x0: int, x: int, y: int, z: int, a: map<Key, seq<byte>>,
                     b: map<Key, seq<byte>>, c: map<Key, seq<byte>>, h: Minigen.Hash)
    requires x0 <= x && Pass(out, RowKeys(x0, x, y, z), a, b, h) && Answers(bc, ChunkKey(x, y, z), b, c, h)
    requires SameContent(b, c, h) && OnlyAdds(b, c, [ChunkKey(x, y, z)])
    ensures Pass(out + [bc], RowKeys(x0, x + 1, y, z), a, c, h)
  {
    OnePass(bc, ChunkKey(x, y, z), b, c, h);
    JoinPasses(out, [bc], RowKeys(x0, x, y, z), [ChunkKey(x, y, z)], a, b, c, h);
    RowGrows(x0, x, y, z);
  }

  lemma LayerGrows(out: seq<BeltChunk>, row: seq<BeltChunk>, x0: int, x1: int, y0: int, y: int, z: int,
                   a: map<Key, seq<byte>>, b: map<Key, seq<byte>>, c: map<Key, seq<byte>>, h: Minigen.Hash)
    requires y0 <= y && Pass(out, LayerKeys(x0, x1, y0, y, z), a, b, h) && Pass(row, RowKeys(x0, x1, y, z), b, c, h)
    ensures Pass(out + row, LayerKeys(x0, x1, y0, y + 1, z), a, c, h)
  {
    RowIsNew(x0, x1, y0, y, z);
    JoinPasses(out, row, LayerKeys(x0, x1, y0, y, z), RowKeys(x0, x1, y, z), a, b, c, h);
  }

  lemma BoxGrows(out: seq<BeltChunk>, layer: seq<BeltChunk>, x0: int, x1: int, y0: int, y1: int, z0: int, z: int,
                 a: map<Key, seq<byte>>, b: map<Key, seq<byte>>, c: map<Key, seq<byte>>, h: Minigen.Hash)
    requires z0 <= z && Pass(out, BoxKeys(x0, x1, y0, y1, z0, z), a, b, h)
    requires Pass(layer, LayerKeys(x0, x1, y0, y1, z), b, c, h)
    ensures Pass(out + layer, BoxKeys(x0, x1, y0, y1, z0, z + 1), a, c, h)
  {
    LayerIsNew(x0, x1, y0, y1, z0, z);
    JoinPasses(out, layer, BoxKeys(x0, x1, y0, y1, z0, z), LayerKeys(x0, x1, y0, y1, z), a, b, c, h);
  }

  method RegionRow(store: ChunkStore, h: Minigen.Hash, x0: int, x1: int, y: int,
                   z: int) returns (out: seq<BeltChunk>)
    requires forall x :: x0 <= x <= x1 ==> ChunkKey(x, y, z).InWord()
    modifies store
    ensures Pass(out, RowKeys(x0, x1 + 1, y, z), old(store.chunks), store.chunks, h)
    ensures old(store.puts) <= store.puts && Logged(h, out, store.puts[|old(store.puts)|..])
  {
    out := [];
    ghost var start, log := store.chunks, store.puts;
    var cx := x0;
    while cx <= x1
      invariant x0 <= cx && (cx <= x1 + 1 || cx == x0)
      invariant Pass(out, RowKeys(x0, cx, y, z), start, store.chunks, h)
      invariant log <= store.puts && Logged(h, out, store.puts[|log|..])
      decreases x1 - cx
    {
      ghost var before, mid := store.chunks, store.puts;
      var bc := LoadOrGenerate(store, h, ChunkKey(cx, y, z));
      LogGrows(h, out, [bc], log, mid, store.puts);
      RowPassGrows(out, bc, x0, cx, y, z, start, before, store.chunks, h);
      out := out + [bc];
      cx := cx + 1;
    }
  }

  method RegionLayer(store: ChunkStore, h: Minigen.Hash, x0: int, x1: int, y0: int, y1: int,
                     z: int) returns (out: seq<BeltChunk>)
    requires forall x, y :: x0 <= x <= x1 && y0 <= y <= y1 ==> ChunkKey(x, y, z).InWord()
    modifies store
    ensures Pass(out, LayerKeys(x0, x1 + 1, y0, y1 + 1, z), old(store.chunks), store.chunks, h)
    ensures old(store.puts) <= store.puts && Logged(h, out, store.puts[|old(store.puts)|..])
  {
    out := [];
    ghost var start, log := store.chunks, store.puts;
    var cy := y0;
    while cy <= y1
      invariant y0 <= cy && (cy <= y1 + 1 || cy == y0)
      invariant Pass(out, LayerKeys(x0, x1 + 1, y0, cy, z), start, store.chunks, h)
      invariant log <= store.puts && Logged(h, out, store.puts[|log|..])
      decreases y1 - cy
    {
      ghost var before, mid := store.chunks, store.puts;
      var row := RegionRow(store, h, x0, x1, cy, z);
      LogGrows(h, out, row, log, mid, store.puts);
      LayerGrows(out, row, x0, x1 + 1, y0, cy, z, start, before, store.chunks, h);
      out := out + row;
      cy := cy + 1;
    }
  }

  /**
   Loads or generates every chunk of an inclusive box. Exactly the chunks that were stored come back
   from the store, and exactly those reported as persisted are stored afterwards.
   */
  method LoadOrGenerateRegion(store: ChunkStore, h: Minigen.Hash, x0: int, y0: int, z0: int, x1: int,
                              y1: int, z1: int)
    returns (out: seq<BeltChunk>)
    requires forall x, y, z :: x0 <= x <= x1 && y0 <= y <= y1 && z0 <= z <= z1 ==> ChunkKey(x, y, z).InWord()
    modifies store
    ensures Pass(out, BoxKeys(x0, x1 + 1, y0, y1 + 1, z0, z1 + 1), old(store.chunks), store.chunks, h)
    ensures old(store.puts) <= store.puts && Logged(h, out, store.puts[|old(store.puts)|..])
  {
    out := [];
    ghost var start, log := store.chunks, store.puts;
    var cz := z0;
    while cz <= z1
      invariant z0 <= cz && (cz <= z1 + 1 || cz == z0)
      invariant Pass(out, BoxKeys(x0, x1 + 1, y0, y1 + 1, z0, cz), start, store.chunks, h)
      invariant log <= store.puts && Logged(h, out, store.puts[|log|..])
      decreases z1 - cz
    {
      ghost var before, mid := store.chunks, store.puts;
      var layer := RegionLayer(store, h, x0, x1, y0, y1, cz);
      LogGrows(h, out, layer, log, mid, store.puts);
      BoxGrows(out, layer, x0, x1 + 1, y0, y1 + 1, z0, cz, start, before, store.chunks, h);
      out := out + layer;
      cz := cz + 1;
    }
  }

  /** In a second pass exactly the persisted chunks come back from the store, and all chunks are the same. */
  lemma SecondPassIsStored(first: seq<BeltChunk>, second: seq<BeltChunk>, keys: seq<ChunkKey>,
                           a: map<Key, seq<byte>>, b: map<Key, seq<byte>>, c: map<Key, seq<byte>>,
                           h: Minigen.Hash, i: nat)
    requires Pass(first, keys, a, b, h) && Pass(second, keys, b, c, h) && i < |keys|
    ensures second[i].fromStore <==> first[i].persisted
    ensures second[i].chunk == first[i].chunk
  {
    assert Answers(first[i], keys[i], a, b, h) && Answers(second[i], keys[i], b, c, h);
  }

  /** No put of a pass failed. */
  ghost predicate AllAccepted(puts: seq<PutCall>) {
    forall i :: 0 <= i < |puts| ==> puts[i].ok
  }

  lemma {:induction false} AcceptedIsPersisted(h: Minigen.Hash, out: seq<BeltChunk>, puts: seq<PutCall>, i: nat)
    requires i < |out| && Logged(h, out, puts) && AllAccepted(puts)
    ensures out[i].fromStore || out[i].persisted
    decreases |out|
  {
    var n := |out| - 1;
    if i < n {
      AcceptedIsPersisted(h, out[..n], if out[n].fromStore then puts else puts[..|puts| - 1], i);
    }
  }

  /** On a store that accepted every put of the first pass, all of the second comes from the store, the same. */
  lemma SecondPassOnAcceptingStore(first: seq<BeltChunk>, second: seq<BeltChunk>, puts: seq<PutCall>,
                                   keys: seq<ChunkKey>, a: map<Key, seq<byte>>, b: map<Key, seq<byte>>,
                                   c: map<Key, seq<byte>>, h: Minigen.Hash, i: nat)
    requires Pass(first, keys, a, b, h) && Pass(second, keys, b, c, h) && i < |keys|
    requires Logged(h, first, puts) && AllAccepted(puts)
    ensures second[i].fromStore && second[i].chunk == first[i].chunk
  {
    assert Answers(first[i], keys[i], a, b, h);
    AcceptedIsPersisted(h, first, puts, i);
    SecondPassIsStored(first, second, keys, a, b, c, h, i);
  }

  /* ----- slots to content ids ----- */

  function RemapVertex(v: PackedVertex, palette: seq<CellValue>): PackedVertex {
    if v.slot >= |palette| then v else PackedVertex(v.posFace, palette[v.slot].content % 0x1_0000)
  }

  function Remapped(m: ChunkMesh, palette: seq<CellValue>): ChunkMesh {
    ChunkMesh(seq(|m.vertices|, i requires 0 <= i < |m.vertices| => RemapVertex(m.vertices[i], palette)), m.indices,
              m.quadCount)
  }

  /** Rewrites each vertex's palette slot to the low 16 bits of the entry's content id. */
  method RemapSlotsToContent(m: ChunkMesh, chunk: UnpackedChunk) returns (r: ChunkMesh)
    ensures r == Remapped(m, chunk.palette)
  {
    var vertices := m.vertices;
    for i := 0 to |vertices|
      invariant |vertices| == |m.vertices|
      invariant forall j :: 0 <= j < i ==> vertices[j] == RemapVertex(m.vertices[j], chunk.palette)
      invariant forall j :: i <= j < |vertices| ==> vertices[j] == m.vertices[j]
    {
      var v := vertices[i];
      if v.slot < |chunk.palette| {
        vertices := vertices[i := PackedVertex(v.posFace, chunk.palette[v.slot].content % 0x1_0000)];
      }
    }
    r := ChunkMesh(vertices, m.indices, m.quadCount);
    assert r.vertices == Remapped(m, chunk.palette).vertices;
  }

  function RemapQuad(q: Quad, palette: seq<CellValue>): Quad {
    if q.rect.slot >= |palette| then q
    else q.(rect := q.rect.(slot := palette[q.rect.slot].content % 0x1_0000))
  }

  /** Remapping moves no corner: the decoded rectangles differ only in their slot. */
  lemma RemapDecodes(m: ChunkMesh, palette: seq<CellValue>)
    ensures |DecodeQuads(Remapped(m, palette))| == |DecodeQuads(m)|
    ensures forall k :: 0 <= k < |DecodeQuads(m)| ==>
        DecodeQuads(Remapped(m, palette))[k] == RemapQuad(DecodeQuads(m)[k], palette)
  {
    var r := Remapped(m, palette);
    forall k | 0 <= k < |DecodeQuads(m)|
      ensures DecodeQuads(r)[k] == RemapQuad(DecodeQuads(m)[k], palette)
    {
      assert r.vertices[4 * k] == RemapVertex(m.vertices[4 * k], palette);
      assert r.vertices[4 * k + 2] == RemapVertex(m.vertices[4 * k + 2], palette);
    }
  }
}
