/** The streamer: a window of resident chunks that pumps evict, load and mesh in place. */
module Streamer {
  import opened Arithmetic
  import opened Bytes
  import opened VoxelBlob
  import opened StoreKeys
  import opened MeshFormat
  import opened StreamWindow
  import Greedy
  import Mesher
  import Minigen
  import Belt

  /* ----- the world a streamer shows ----- */

  ghost function Views(content: ChunkKey -> UnpackedChunk, k: ChunkKey, mask: Mask): Greedy.NeighborViews {
    Greedy.NeighborViews(
      if mask[0] then content(Neighbor(k, 0)).cells else [],
      if mask[1] then content(Neighbor(k, 1)).cells else [],
      if mask[2] then content(Neighbor(k, 2)).cells else [],
      if mask[3] then content(Neighbor(k, 3)).cells else [],
      if mask[4] then content(Neighbor(k, 4)).cells else [],
      if mask[5] then content(Neighbor(k, 5)).cells else [])
  }

  lemma QuadsAreValid(chunk: UnpackedChunk, nb: Greedy.NeighborViews, isOpaque: Greedy.Opacity)
    ensures AllValid(Greedy.MeshQuads(chunk, nb, isOpaque, true))
  {
    if Greedy.Meshable(chunk) {
      Greedy.MeshIsExact(chunk, nb, isOpaque, true);
    }
  }

  /** Greedy mesh of a chunk against the given neighbours, its slots remapped to content ids. */
  ghost function RenderMesh(chunk: UnpackedChunk, nb: Greedy.NeighborViews,
                            isOpaque: Greedy.Opacity): ChunkMesh {
    QuadsAreValid(chunk, nb, isOpaque);
    Belt.Remapped(MeshOf(Greedy.MeshQuads(chunk, nb, isOpaque, true)), chunk.palette)
  }

  /** The world over a store's content: every mesh is a function of content and window alone. */
  ghost function WorldOver(content: ChunkKey -> UnpackedChunk, isOpaque: Greedy.Opacity): World {
    World(content, (k: ChunkKey, mask: Mask) => RenderMesh(content(k), Views(content, k, mask), isOpaque))
  }

  /** Load-or-generate answers of a store, as one function. */
  ghost function ContentFunction(chunks: map<Key, seq<byte>>, h: Minigen.Hash): ChunkKey -> UnpackedChunk {
    (k: ChunkKey) => if k.InWord() then Belt.ContentOf(chunks, h, k) else Belt.Generated(h, k)
  }

  ghost predicate AnswersAre(chunks: map<Key, seq<byte>>, h: Minigen.Hash, content: ChunkKey -> UnpackedChunk) {
    forall k: ChunkKey :: k.InWord() ==> Belt.ContentOf(chunks, h, k) == content(k)
  }

  /** The window and its rim stay inside 32-bit chunk coordinates. */
  predicate InDomain(cfg: Config, c: Center) {
    && IsInt32(c.x - cfg.radius - 1) && IsInt32(c.x + cfg.radius + 1)
    && IsInt32(c.z - cfg.radius - 1) && IsInt32(c.z + cfg.radius + 1)
    && IsInt32(cfg.cyMin - 1) && IsInt32(cfg.cyMax + 1)
  }

  lemma WindowInWord(cfg: Config, c: Center, k: ChunkKey)
    requires InDomain(cfg, c) && InWindow(cfg, c, k)
    ensures k.InWord()
  {
  }

  /* ----- nearest-first order ----- */

  ghost predicate SortedNearest(c: Center, ks: seq<ChunkKey>) {
    forall i, j :: 0 <= i < j < |ks| ==> Nearer(c, ks[i], ks[j])
  }

  /** Places k before the first key it is nearer than. */
  function InsertNearest(c: Center, ks: seq<ChunkKey>, k: ChunkKey): (r: seq<ChunkKey>)
    ensures |r| == |ks| + 1
  {
    if ks == [] then [k]
    else if Nearer(c, k, ks[0]) then [k] + ks
    else [ks[0]] + InsertNearest(c, ks[1..], k)
  }

  lemma NearerOrder(c: Center, a: ChunkKey, b: ChunkKey, d: ChunkKey)
    ensures a == b || Nearer(c, a, b) || Nearer(c, b, a)
    ensures Nearer(c, a, b) && Nearer(c, b, d) ==> Nearer(c, a, d)
    ensures !Nearer(c, a, a)
  {
  }

  lemma {:induction false} InsertKeepsOrder(c: Center, ks: seq<ChunkKey>, k: ChunkKey)
    requires SortedNearest(c, ks) && k !in ks
    ensures SortedNearest(c, InsertNearest(c, ks, k))
    ensures forall x :: x in InsertNearest(c, ks, k) <==> x == k || x in ks
  {
    if ks != [] {
      NearerOrder(c, k, ks[0], ks[0]);
      if Nearer(c, k, ks[0]) {
        forall j | 0 <= j < |ks|
          ensures Nearer(c, k, ks[j])
        {
          NearerOrder(c, k, ks[0], ks[j]);
        }
      } else {
        var rest := InsertNearest(c, ks[1..], k);
        InsertKeepsOrder(c, ks[1..], k);
        forall j | 0 <= j < |rest|
          ensures Nearer(c, ks[0], rest[j])
        {
          assert rest[j] in rest;
        }
      }
    }
  }

  /** Each key lies in every square around c that holds a later one; (cx, cy, cz) order on one ring. */
  ghost predicate InsideOut(c: Center, ks: seq<ChunkKey>) {
    && (forall i, j, r: int {:trigger InSquare(c, r, ks[i]), ks[j]} ::
          0 <= i < j < |ks| && InSquare(c, r, ks[j]) ==> InSquare(c, r, ks[i]))
    && (forall i, j, r: int {:trigger OnRing(c, r, ks[i]), OnRing(c, r, ks[j])} ::
          0 <= i < j < |ks| && OnRing(c, r, ks[i]) && OnRing(c, r, ks[j]) ==> ks[i].Before(ks[j]))
  }

  lemma SortedIsInsideOut(c: Center, ks: seq<ChunkKey>)
    requires SortedNearest(c, ks)
    ensures InsideOut(c, ks)
  {
    forall i, j, r: int {:trigger InSquare(c, r, ks[i]), ks[j]} | 0 <= i < j < |ks| && InSquare(c, r, ks[j])
      ensures InSquare(c, r, ks[i])
    {
      NearerIsInside(c, ks[i], ks[j], r);
    }
    forall i, j, r: int {:trigger OnRing(c, r, ks[i]), OnRing(c, r, ks[j])} |
      0 <= i < j < |ks| && OnRing(c, r, ks[i]) && OnRing(c, r, ks[j])
      ensures ks[i].Before(ks[j])
    {
      NearerIsInside(c, ks[i], ks[j], r);
    }
  }

  /** Sorts distinct keys nearest first. */
  method SortNearest(c: Center, ks: seq<ChunkKey>) returns (r: seq<ChunkKey>)
    requires NoRepeats(ks)
    ensures SortedNearest(c, r) && InsideOut(c, r) && |r| == |ks|
    ensures forall k :: k in r <==> k in ks
  {
    r := [];
    for i := 0 to |ks|
      invariant SortedNearest(c, r) && |r| == i
      invariant forall k :: k in r <==> k in ks[..i]
    {
      InsertKeepsOrder(c, r, ks[i]);
      r := InsertNearest(c, r, ks[i]);
      assert ks[..i + 1] == ks[..i] + [ks[i]];
    }
    assert ks[..|ks|] == ks;
    SortedIsInsideOut(c, r);
  }

  lemma SortedNoRepeats(c: Center, ks: seq<ChunkKey>)
    requires SortedNearest(c, ks)
    ensures NoRepeats(ks)
  {
    forall i, j | 0 <= i < j < |ks|
      ensures ks[i] != ks[j]
    {
      NearerOrder(c, ks[i], ks[j], ks[j]);
    }
  }

  /** The first keys of the sorted missing list are the nearest-first admission. */
  lemma PrefixIsAdmission(cfg: Config, c: Center, missing: set<ChunkKey>, sorted: seq<ChunkKey>, n: nat)
    requires SortedNearest(c, sorted) && Elements(sorted) == missing
    requires n == (if |sorted| < cfg.budget then |sorted| else cfg.budget)
    ensures IsAdmission(cfg, c, missing, Elements(sorted[..n]))
  {
    SortedNoRepeats(c, sorted);
    NoRepeatsSize(sorted);
    NoRepeatsSize(sorted[..n]);
    forall a, b | a in Elements(sorted[..n]) && b in missing - Elements(sorted[..n])
      ensures Nearer(c, a, b)
    {
      var i :| 0 <= i < n && sorted[i] == a;
      var j :| 0 <= j < |sorted| && sorted[j] == b;
      forall m | 0 <= m < n
        ensures sorted[m] != b
      {
        assert sorted[..n][m] in sorted[..n];
      }
    }
  }

  /* ----- the streamer ----- */

  lemma OneKeyBox(k: ChunkKey)
    ensures BoxKeys(k.cx, k.cx + 1, k.cy, k.cy + 1, k.cz, k.cz + 1) == [k]
  {
    var ks := LayerKeys(k.cx, k.cx + 1, k.cy, k.cy + 1, k.cz);
    assert RowKeys(k.cx, k.cx + 1, k.cy, k.cz) == [k];
    assert LayerKeys(k.cx, k.cx + 1, k.cy, k.cy, k.cz) == [];
    assert ks == [k];
    assert BoxKeys(k.cx, k.cx + 1, k.cy, k.cy + 1, k.cz, k.cz) == [];
  }

  /** What a pass over one key answers. */
  lemma OneKeyPass(belt: seq<Belt.BeltChunk>, k: ChunkKey, before: map<Key, seq<byte>>,
                   after: map<Key, seq<byte>>,
                   h: Minigen.Hash, content: ChunkKey -> UnpackedChunk, puts: seq<Belt.PutCall>)
    requires k.InWord() && AnswersAre(before, h, content) && Belt.Logged(h, belt, puts)
    requires Belt.Pass(belt, BoxKeys(k.cx, k.cx + 1, k.cy, k.cy + 1, k.cz, k.cz + 1), before, after, h)
    ensures |belt| == 1 && belt[0].chunk == content(k) && AnswersAre(after, h, content)
    ensures (belt[0].fromStore <==> Belt.Stored(before, k)) && Belt.OnlyAdds(before, after, [k])
    ensures Belt.PutsMiss(h, before, k, puts)
  {
    OneKeyBox(k);
    assert Belt.Answers(belt[0], k, before, after, h);
    assert belt == [belt[0]];
    Belt.LoggedIsMiss(h, belt[0], k, before, puts);
  }

  /** Residents with the keys in todo not looked at yet: those looked at stay only inside the window. */
  ghost predicate EvictedSoFar(cfg: Config, c: Center, before: Residents, now: Residents, todo: set<ChunkKey>) {
    && (forall k :: k in now <==> k in before && (k in todo || InWindow(cfg, c, k)))
    && (forall k :: k in now ==> now[k] == before[k])
  }

  lemma EvictStep(cfg: Config, c: Center, before: Residents, now: Residents, todo: set<ChunkKey>, k: ChunkKey)
    requires EvictedSoFar(cfg, c, before, now, todo) && k in todo
    ensures EvictedSoFar(cfg, c, before, if InWindow(cfg, c, k) then now else now - {k}, todo - {k})
  {
  }

  lemma EvictDone(cfg: Config, c: Center, before: Residents, now: Residents)
    requires EvictedSoFar(cfg, c, before, now, {})
    ensures now == Kept(cfg, c, before)
  {
  }

  /** Keys looked at and found outside the window. */
  ghost function Gone(cfg: Config, c: Center, before: Residents, todo: set<ChunkKey>): set<ChunkKey> {
    (before.Keys - todo) - Desired(cfg, c)
  }

  lemma GoneStep(cfg: Config, c: Center, before: Residents, todo: set<ChunkKey>, k: ChunkKey)
    requires k in todo && todo <= before.Keys
    ensures |Gone(cfg, c, before, todo - {k})| == |Gone(cfg, c, before, todo)| + (if InWindow(cfg, c, k) then 0 else 1)
  {
    var g, g' := Gone(cfg, c, before, todo), Gone(cfg, c, before, todo - {k});
    if InWindow(cfg, c, k) {
      assert g' == g;
    } else {
      assert g' == g + {k};
    }
  }

  ghost predicate EvictState(cfg: Config, c: Center, before: Residents, now: Residents, todo: set<ChunkKey>,
                             evicted: nat) {
    todo <= before.Keys && EvictedSoFar(cfg, c, before, now, todo) && evicted == |Gone(cfg, c, before, todo)|
  }

  lemma EvictNext(cfg: Config, c: Center, before: Residents, now: Residents, todo: set<ChunkKey>,
                  evicted: nat, k: ChunkKey)
    requires EvictState(cfg, c, before, now, todo, evicted) && k in todo
    ensures InWindow(cfg, c, k) ==> EvictState(cfg, c, before, now, todo - {k}, evicted)
    ensures !InWindow(cfg, c, k) ==> EvictState(cfg, c, before, now - {k}, todo - {k}, evicted + 1)
  {
    EvictStep(cfg, c, before, now, todo, k);
    GoneStep(cfg, c, before, todo, k);
  }

  lemma EvictStart(cfg: Config, c: Center, before: Residents)
    ensures EvictState(cfg, c, before, before, before.Keys, 0)
  {
    assert Gone(cfg, c, before, before.Keys) == {};
  }

  lemma EvictEnd(cfg: Config, c: Center, before: Residents, now: Residents, evicted: nat)
    requires EvictState(cfg, c, before, now, {}, evicted)
    ensures now == Kept(cfg, c, before) && evicted == |before.Keys - Desired(cfg, c)|
  {
    EvictDone(cfg, c, before, now);
    assert Gone(cfg, c, before, {}) == before.Keys - Desired(cfg, c);
  }

  /** Visits every resident in any order and erases those outside the window. */
  method EvictOutside(cfg: Config, c: Center, before: Residents) returns (now: Residents, evicted: nat)
    ensures now == Kept(cfg, c, before)
    ensures evicted == |before.Keys - Desired(cfg, c)|
  {
    now, evicted := before, 0;
    var todo := before.Keys;
    EvictStart(cfg, c, before);
    while todo != {}
      invariant EvictState(cfg, c, before, now, todo, evicted)
      decreases |todo|
    {
      var k :| k in todo;
      EvictNext(cfg, c, before, now, todo, evicted, k);
      todo := todo - {k};
      if !InWindow(cfg, c, k) {
        now := now - {k};
        evicted := evicted + 1;
      }
    }
    EvictEnd(cfg, c, before, now, evicted);
  }

  /* ----- finding and admitting missing chunks ----- */

  /** The keys that are not resident, in order. */
  function NotResident(ks: seq<ChunkKey>, rs: Residents): (m: seq<ChunkKey>)
    decreases |ks|
  {
    if ks == [] then []
    else
      var front, k := NotResident(ks[..|ks| - 1], rs), ks[|ks| - 1];
      if k in rs then front else front + [k]
  }

  lemma NotResidentNext(ks: seq<ChunkKey>, k: ChunkKey, rs: Residents)
    ensures NotResident(ks + [k], rs) == if k in rs then NotResident(ks, rs) else NotResident(ks, rs) + [k]
  {
    assert (ks + [k])[..|ks|] == ks;
  }

  method SkipResident(ks: seq<ChunkKey>, rs: Residents) returns (missing: seq<ChunkKey>)
    ensures missing == NotResident(ks, rs)
  {
    missing := [];
    for i := 0 to |ks|
      invariant missing == NotResident(ks[..i], rs)
    {
      assert ks[..i + 1] == ks[..i] + [ks[i]];
      NotResidentNext(ks[..i], ks[i], rs);
      if ks[i] !in rs {
        missing := missing + [ks[i]];
      }
    }
    assert ks[..|ks|] == ks;
  }

  lemma {:induction false} NotResidentFacts(ks: seq<ChunkKey>, rs: Residents)
    requires NoRepeats(ks)
    ensures NoRepeats(NotResident(ks, rs))
    ensures forall k :: k in NotResident(ks, rs) <==> k in ks && k !in rs
    decreases |ks|
  {
    if ks != [] {
      var n := |ks| - 1;
      NotResidentFacts(ks[..n], rs);
      assert ks == ks[..n] + [ks[n]];
    }
  }

  lemma MissingElements(cfg: Config, c: Center, rs: Residents)
    ensures NoRepeats(NotResident(DesiredKeys(cfg, c), rs))
    ensures Elements(NotResident(DesiredKeys(cfg, c), rs)) == Missing(cfg, c, rs)
  {
    DesiredMembers(cfg, c);
    NotResidentFacts(DesiredKeys(cfg, c), rs);
  }

  /** Base residents unchanged, and the listed keys newly loaded with the world's content. */
  ghost predicate LoadedSoFar(content: ChunkKey -> UnpackedChunk, base: Residents, now: Residents,
                              ks: seq<ChunkKey>) {
    && now.Keys == base.Keys + Elements(ks)
    && (forall k :: k in base ==> now[k] == base[k])
    && (forall k :: k in ks ==> now[k].chunk == content(k) && !now[k].meshed)
  }

  lemma LoadNext(content: ChunkKey -> UnpackedChunk, base: Residents, now: Residents, ks: seq<ChunkKey>,
                 n: nat, r: ResidentChunk)
    requires n < |ks| && LoadedSoFar(content, base, now, ks[..n])
    requires ks[n] !in base && r.chunk == content(ks[n]) && !r.meshed
    ensures LoadedSoFar(content, base, now[ks[n] := r], ks[..n + 1])
  {
    assert ks[..n + 1] == ks[..n] + [ks[n]];
  }

  /** The chunks a store holds among the given keys. */
  ghost function StoreHits(chunks: map<Key, seq<byte>>, ks: set<ChunkKey>): set<ChunkKey> {
    set k | k in ks && k.InWord() && Belt.Stored(chunks, k)
  }

  /** The listed residents are flagged as loaded exactly when the store held them. */
  ghost predicate FlagsAreHits(chunks: map<Key, seq<byte>>, rs: Residents, ks: set<ChunkKey>) {
    forall k :: k in ks ==> k in rs && k.InWord() && (rs[k].fromStore <==> Belt.Stored(chunks, k))
  }

  lemma FlagsCount(chunks: map<Key, seq<byte>>, rs: Residents, ks: set<ChunkKey>)
    requires FlagsAreHits(chunks, rs, ks)
    ensures FromStore(rs, ks) == StoreHits(chunks, ks)
  {
  }

  lemma FlagNext(start: map<Key, seq<byte>>, before: map<Key, seq<byte>>, now: Residents, ks: seq<ChunkKey>,
                 n: nat, r: ResidentChunk)
    requires n < |ks| && NoRepeats(ks) && ks[n].InWord()
    requires FlagsAreHits(start, now, Elements(ks[..n])) && Belt.OnlyAdds(start, before, ks[..n])
    requires r.fromStore <==> Belt.Stored(before, ks[n])
    ensures FlagsAreHits(start, now[ks[n] := r], Elements(ks[..n + 1]))
  {
    assert ks[..n + 1] == ks[..n] + [ks[n]];
    assert ks[n] !in ks[..n];
  }

  lemma AddsNext(start: map<Key, seq<byte>>, before: map<Key, seq<byte>>, after: map<Key, seq<byte>>,
                 ks: seq<ChunkKey>, n: nat)
    requires n < |ks| && Belt.OnlyAdds(start, before, ks[..n]) && Belt.OnlyAdds(before, after, [ks[n]])
    ensures Belt.OnlyAdds(start, after, ks[..n + 1])
  {
    assert ks[..n + 1] == ks[..n] + [ks[n]];
  }

  lemma HitsNext(chunks: map<Key, seq<byte>>, ks: seq<ChunkKey>, n: nat)
    requires n < |ks| && NoRepeats(ks) && ks[n].InWord()
    ensures |StoreHits(chunks, Elements(ks[..n + 1]))|
         == |StoreHits(chunks, Elements(ks[..n]))| + (if Belt.Stored(chunks, ks[n]) then 1 else 0)
  {
    assert ks[..n + 1] == ks[..n] + [ks[n]];
    assert ks[n] !in ks[..n];
    var was, now := StoreHits(chunks, Elements(ks[..n])), StoreHits(chunks, Elements(ks[..n + 1]));
    if Belt.Stored(chunks, ks[n]) {
      assert now == was + {ks[n]};
    } else {
      assert now == was;
    }
  }

  /** The puts made while loading ks in order: one for each chunk the store did not hold. */
  ghost predicate MissesPut(h: Minigen.Hash, chunks: map<Key, seq<byte>>, ks: seq<ChunkKey>, puts: seq<Belt.PutCall>)
    decreases |ks|
  {
    if ks == [] then puts == []
    else
      var n, m := |ks| - 1, |puts| - 1;
      && ks[n].InWord()
      && if Belt.Stored(chunks, ks[n]) then MissesPut(h, chunks, ks[..n], puts)
         else m >= 0 && Belt.PutsMiss(h, chunks, ks[n], puts[m..]) && MissesPut(h, chunks, ks[..n], puts[..m])
  }

  lemma MissesJoin(h: Minigen.Hash, chunks: map<Key, seq<byte>>, ks: seq<ChunkKey>, k: ChunkKey,
                   a: seq<Belt.PutCall>, b: seq<Belt.PutCall>)
    requires k.InWord() && MissesPut(h, chunks, ks, a) && Belt.PutsMiss(h, chunks, k, b)
    ensures MissesPut(h, chunks, ks + [k], a + b)
  {
    assert (ks + [k])[..|ks|] == ks;
    if Belt.Stored(chunks, k) {
      assert a + b == a;
    } else {
      assert (a + b)[..|a|] == a && (a + b)[|a|..] == b;
    }
  }

  lemma MissNext(h: Minigen.Hash, start: map<Key, seq<byte>>, before: map<Key, seq<byte>>, ks: seq<ChunkKey>,
                 n: nat, log: seq<Belt.PutCall>, mid: seq<Belt.PutCall>, now: seq<Belt.PutCall>)
    requires n < |ks| && NoRepeats(ks) && ks[n].InWord() && Belt.OnlyAdds(start, before, ks[..n])
    requires log <= mid && mid <= now && MissesPut(h, start, ks[..n], mid[|log|..])
    requires Belt.PutsMiss(h, before, ks[n], now[|mid|..])
    ensures log <= now && MissesPut(h, start, ks[..n + 1], now[|log|..])
  {
    NotYetLoaded(h, start, before, ks, n, now[|mid|..]);
    MissesJoin(h, start, ks[..n], ks[n], mid[|log|..], now[|mid|..]);
    LogsJoin(log, mid, now);
    assert ks[..n + 1] == ks[..n] + [ks[n]];
  }

  lemma NotYetLoaded(h: Minigen.Hash, start: map<Key, seq<byte>>, before: map<Key, seq<byte>>, ks: seq<ChunkKey>,
                     n: nat, puts: seq<Belt.PutCall>)
    requires n < |ks| && NoRepeats(ks) && ks[n].InWord() && Belt.OnlyAdds(start, before, ks[..n])
    requires Belt.PutsMiss(h, before, ks[n], puts)
    ensures Belt.PutsMiss(h, start, ks[n], puts)
  {
    assert ks[n] !in ks[..n];
    assert Belt.Stored(start, ks[n]) <==> Belt.Stored(before, ks[n]);
  }

  lemma LogsJoin(log: seq<Belt.PutCall>, mid: seq<Belt.PutCall>, now: seq<Belt.PutCall>)
    requires log <= mid <= now
    ensures log <= now && now[|log|..] == mid[|log|..] + now[|mid|..]
  {
  }

  /**
   The chunks a pump loads, nearest first: the count is of those the store held, and each of the others
   is put once.
   */
  ghost predicate LoadsInOrder(cfg: Config, c: Center, missing: set<ChunkKey>, chunks: map<Key, seq<byte>>,
                               h: Minigen.Hash, count: nat, puts: seq<Belt.PutCall>, ks: seq<ChunkKey>) {
    && InsideOut(c, ks) && IsAdmission(cfg, c, missing, Elements(ks))
    && count == |StoreHits(chunks, Elements(ks))| && MissesPut(h, chunks, ks, puts)
  }

  lemma PrefixInsideOut(c: Center, sorted: seq<ChunkKey>, n: nat)
    requires SortedNearest(c, sorted) && n <= |sorted|
    ensures InsideOut(c, sorted[..n])
  {
    assert SortedNearest(c, sorted[..n]);
    SortedIsInsideOut(c, sorted[..n]);
  }

  lemma LoadedIsLoaded(cfg: Config, w: World, c: Center, rs: Residents, mid: Residents, ks: seq<ChunkKey>)
    requires LoadedSoFar(w.content, Kept(cfg, c, rs), mid, ks)
    ensures Loaded(cfg, w, c, rs, Elements(ks), mid)
  {
  }

  lemma KeptMissing(cfg: Config, c: Center, rs: Residents)
    ensures Missing(cfg, c, Kept(cfg, c, rs)) == Missing(cfg, c, rs)
  {
  }

  /** The prefix of the sorted missing keys is an admission of absent, distinct, loadable chunks. */
  lemma NearestPrefix(cfg: Config, c: Center, before: Residents, missing: seq<ChunkKey>,
                      sorted: seq<ChunkKey>, n: nat)
    requires InDomain(cfg, c) && missing == NotResident(DesiredKeys(cfg, c), Kept(cfg, c, before))
    requires SortedNearest(c, sorted) && forall k :: k in sorted <==> k in missing
    requires n == (if |sorted| < cfg.budget then |sorted| else cfg.budget)
    ensures IsAdmission(cfg, c, Missing(cfg, c, before), Elements(sorted[..n])) && n == |Elements(sorted[..n])|
    ensures NoRepeats(sorted[..n])
    ensures forall k :: k in sorted[..n] ==> k.InWord() && k !in Kept(cfg, c, before)
  {
    MissingElements(cfg, c, Kept(cfg, c, before));
    KeptMissing(cfg, c, before);
    assert Elements(sorted) == Elements(missing);
    PrefixIsAdmission(cfg, c, Missing(cfg, c, before), sorted, n);
    SortedNoRepeats(c, sorted);
    NoRepeatsSize(sorted[..n]);
    forall k | k in sorted[..n]
      ensures k.InWord() && k !in Kept(cfg, c, before)
    {
      assert k in Elements(sorted) && k in Missing(cfg, c, Kept(cfg, c, before));
      WindowInWord(cfg, c, k);
    }
  }

  /* ----- meshing ----- */

  /** Cells of exactly the in-window neighbours. */
  function ResidentViews(rs: Residents, k: ChunkKey, mask: Mask): Greedy.NeighborViews
    requires forall f :: 0 <= f < 6 && mask[f] ==> Neighbor(k, f) in rs
  {
    Greedy.NeighborViews(
      if mask[0] then rs[Neighbor(k, 0)].chunk.cells else [],
      if mask[1] then rs[Neighbor(k, 1)].chunk.cells else [],
      if mask[2] then rs[Neighbor(k, 2)].chunk.cells else [],
      if mask[3] then rs[Neighbor(k, 3)].chunk.cells else [],
      if mask[4] then rs[Neighbor(k, 4)].chunk.cells else [],
      if mask[5] then rs[Neighbor(k, 5)].chunk.cells else [])
  }

  ghost predicate HoldsContent(content: ChunkKey -> UnpackedChunk, rs: Residents) {
    forall k :: k in rs ==> rs[k].chunk == content(k)
  }

  lemma ViewsAgree(content: ChunkKey -> UnpackedChunk, rs: Residents, k: ChunkKey, mask: Mask)
    requires HoldsContent(content, rs)
    requires forall f :: 0 <= f < 6 && mask[f] ==> Neighbor(k, f) in rs
    ensures ResidentViews(rs, k, mask) == Views(content, k, mask)
  {
  }

  /** One mesh task: greedy, then remap. */
  method BuildMesh(rs: Residents, k: ChunkKey, mask: Mask, isOpaque: Greedy.Opacity,
                   ghost content: ChunkKey -> UnpackedChunk) returns (mesh: ChunkMesh)
    requires k in rs && HoldsContent(content, rs)
    requires forall f :: 0 <= f < 6 && mask[f] ==> Neighbor(k, f) in rs
    ensures mesh == WorldOver(content, isOpaque).mesh(k, mask)
  {
    ViewsAgree(content, rs, k, mask);
    var m := Mesher.GreedyMesh(rs[k].chunk, ResidentViews(rs, k, mask), isOpaque);
    mesh := Belt.RemapSlotsToContent(m, rs[k].chunk);
  }

  /** The work done so far: exactly the keys in done have been rebuilt. */
  ghost predicate MeshedSoFar(cfg: Config, w: World, c: Center, mid: Residents, now: Residents,
                              done: set<ChunkKey>) {
    && now.Keys == mid.Keys
    && done <= mid.Keys
    && forall k :: k in mid ==>
         now[k] == if k in done then
             mid[k].(mesh := w.mesh(k, WindowMask(cfg, c, k)), meshed := true, meshedMask := WindowMask(cfg, c, k))
                   else mid[k]
  }

  lemma MeshNext(cfg: Config, w: World, c: Center, mid: Residents, now: Residents, done: set<ChunkKey>,
                 k: ChunkKey, r: ResidentChunk)
    requires MeshedSoFar(cfg, w, c, mid, now, done) && k in mid && k !in done
    requires r == now[k].(mesh := w.mesh(k, WindowMask(cfg, c, k)), meshed := true, meshedMask := WindowMask(cfg, c, k))
    ensures MeshedSoFar(cfg, w, c, mid, now[k := r], done + {k})
  {
  }

  lemma MeshDone(cfg: Config, w: World, c: Center, mid: Residents, now: Residents)
    requires MeshedSoFar(cfg, w, c, mid, now, MeshWork(cfg, c, mid))
    ensures Meshed(cfg, w, c, mid, now)
  {
  }

  ghost predicate AllReady(cfg: Config, c: Center, mid: Residents, work: set<ChunkKey>) {
    work <= mid.Keys && forall k :: k in work ==> Ready(cfg, c, k, mid.Keys)
  }

  lemma WorkIsReady(cfg: Config, c: Center, mid: Residents)
    ensures AllReady(cfg, c, mid, MeshWork(cfg, c, mid))
  {
  }

  lemma MeshKeepsContent(cfg: Config, w: World, c: Center, mid: Residents, now: Residents, done: set<ChunkKey>)
    requires MeshedSoFar(cfg, w, c, mid, now, done) && HoldsContent(w.content, mid)
    ensures HoldsContent(w.content, now)
  {
  }

  class Streamer {
    const store: Belt.ChunkStore
    const hash: Minigen.Hash
    const cfg: Config
    const isOpaque: Greedy.Opacity
    ghost const content: ChunkKey -> UnpackedChunk
    var center: Center
    var resident: Residents

    /** The store still answers as it did at the start, and every resident is pure. */
    ghost predicate Valid()
      reads this, store
    {
      && cfg.Valid()
      && InDomain(cfg, center)
      && AnswersAre(store.chunks, hash, content)
      && AllPure(World(), resident)
    }

    ghost function World(): World {
      WorldOver(content, isOpaque)
    }

    constructor (store: Belt.ChunkStore, hash: Minigen.Hash, cfg: Config, isOpaque: Greedy.Opacity)
      requires cfg.Valid() && InDomain(cfg, Center(0, 0))
      ensures Valid() && this.store == store && this.hash == hash && this.cfg == cfg && this.isOpaque == isOpaque
      ensures resident == map[] && center == Center(0, 0)
      ensures content == ContentFunction(store.chunks, hash)
    {
      this.store, this.hash, this.cfg, this.isOpaque := store, hash, cfg, isOpaque;
      this.content := ContentFunction(store.chunks, hash);
      this.center := Center(0, 0);
      this.resident := map[];
    }

    /** Moves the desired window; all work happens in Pump. */
    method SetCenter(cx: int, cz: int)
      requires Valid() && InDomain(cfg, Center(cx, cz))
      modifies this`center
      ensures Valid() && center == Center(cx, cz) && resident == old(resident)
    {
      center := Center(cx, cz);
    }

    /** Drops residents that left the window. */
    method Evict() returns (evicted: nat)
      modifies this`resident
      ensures resident == Kept(cfg, center, old(resident))
      ensures evicted == |old(resident).Keys - Desired(cfg, center)|
    {
      resident, evicted := EvictOutside(cfg, center, resident);
    }

    /** The keys visited by the desired-window loops, in order. */
    method ForEachDesired() returns (ks: seq<ChunkKey>)
      ensures ks == DesiredKeys(cfg, center)
    {
      ks := [];
      var x0, x1 := center.x - cfg.radius, center.x + cfg.radius;
      var z0, z1 := center.z - cfg.radius, center.z + cfg.radius;
      var cz := z0;
      while cz <= z1
        invariant z0 <= cz && (cz <= z1 + 1 || cz == z0)
        invariant ks == BoxKeys(x0, x1 + 1, cfg.cyMin, cfg.cyMax + 1, z0, cz)
        decreases z1 - cz
      {
        ghost var box := ks;
        var cy := cfg.cyMin;
        while cy <= cfg.cyMax
          invariant cfg.cyMin <= cy && (cy <= cfg.cyMax + 1 || cy == cfg.cyMin)
          invariant ks == box + LayerKeys(x0, x1 + 1, cfg.cyMin, cy, cz)
          decreases cfg.cyMax - cy
        {
          ghost var layer := ks;
          var cx := x0;
          while cx <= x1
            invariant x0 <= cx && (cx <= x1 + 1 || cx == x0)
            invariant ks == layer + RowKeys(x0, cx, cy, cz)
            decreases x1 - cx
          {
            RowGrows(x0, cx, cy, cz);
            ks := ks + [ChunkKey(cx, cy, cz)];
            cx := cx + 1;
          }
          cy := cy + 1;
        }
        cz := cz + 1;
      }
    }

    /** Lists the desired chunks that are not resident. */
    method FindMissing() returns (missing: seq<ChunkKey>)
      ensures missing == NotResident(DesiredKeys(cfg, center), resident)
    {
      var ks := ForEachDesired();
      missing := SkipResident(ks, resident);
    }

    /** The store's answers have not changed. */
    ghost predicate StoreKeepsContent()
      reads store
    {
      AnswersAre(store.chunks, hash, content)
    }

    /** Loads one missing chunk through the belt. */
    method LoadOne(k: ChunkKey) returns (r: ResidentChunk)
      requires k.InWord() && StoreKeepsContent()
      modifies store
      ensures StoreKeepsContent() && r.chunk == content(k) && !r.meshed
      ensures r.fromStore <==> Belt.Stored(old(store.chunks), k)
      ensures Belt.OnlyAdds(old(store.chunks), store.chunks, [k])
      ensures old(store.puts) <= store.puts
      ensures Belt.PutsMiss(hash, old(store.chunks), k, store.puts[|old(store.puts)|..])
    {
      ghost var before, log := store.chunks, store.puts;
      var belt := Belt.LoadOrGenerateRegion(store, hash, k.cx, k.cy, k.cz, k.cx, k.cy, k.cz);
      OneKeyPass(belt, k, before, store.chunks, hash, content, store.puts[|log|..]);
      var noMask: Mask := [false, false, false, false, false, false];
      r := ResidentChunk(belt[0].chunk, ChunkMesh([], [], 0), belt[0].fromStore, false, noMask);
    }

    /** Loads the given absent chunks in order, and counts those that the store held. */
    method LoadAll(ks: seq<ChunkKey>) returns (fromStore: nat)
      requires StoreKeepsContent() && NoRepeats(ks)
      requires forall k :: k in ks ==> k.InWord() && k !in resident
      modifies this`resident, store
      ensures StoreKeepsContent() && Belt.OnlyAdds(old(store.chunks), store.chunks, ks)
      ensures LoadedSoFar(content, old(resident), resident, ks)
      ensures FlagsAreHits(old(store.chunks), resident, Elements(ks))
      ensures fromStore == |StoreHits(old(store.chunks), Elements(ks))|
      ensures old(store.puts) <= store.puts
      ensures MissesPut(hash, old(store.chunks), ks, store.puts[|old(store.puts)|..])
    {
      ghost var base, start, log := resident, store.chunks, store.puts;
      fromStore := 0;
      assert ks[..0] == [];
      for i := 0 to |ks|
        invariant StoreKeepsContent() && Belt.OnlyAdds(start, store.chunks, ks[..i])
        invariant LoadedSoFar(content, base, resident, ks[..i])
        invariant FlagsAreHits(start, resident, Elements(ks[..i]))
        invariant fromStore == |StoreHits(start, Elements(ks[..i]))|
        invariant log <= store.puts && MissesPut(hash, start, ks[..i], store.puts[|log|..])
      {
        ghost var before, mid := store.chunks, store.puts;
        var r := LoadOne(ks[i]);
        MissNext(hash, start, before, ks, i, log, mid, store.puts);
        LoadNext(content, base, resident, ks, i, r);
        FlagNext(start, before, resident, ks, i, r);
        AddsNext(start, before, store.chunks, ks, i);
        HitsNext(start, ks, i);
        resident := resident[ks[i] := r];
        if r.fromStore {
          fromStore := fromStore + 1;
        }
      }
      assert ks[..|ks|] == ks;
    }

    /** The missing chunks to admit, nearest first, up to the budget. */
    method ChooseNearest(ghost before: Residents) returns (ks: seq<ChunkKey>)
      requires InDomain(cfg, center) && resident == Kept(cfg, center, before)
      ensures IsAdmission(cfg, center, Missing(cfg, center, before), Elements(ks)) && |ks| == |Elements(ks)|
      ensures NoRepeats(ks) && forall k :: k in ks ==> k.InWord() && k !in resident
      ensures InsideOut(center, ks)
    {
      var missing := FindMissing();
      MissingElements(cfg, center, resident);
      var sorted := SortNearest(center, missing);
      var n := if |sorted| < cfg.budget then |sorted| else cfg.budget;
      NearestPrefix(cfg, center, before, missing, sorted, n);
      PrefixInsideOut(center, sorted, n);
      return sorted[..n];
    }

    /** Admits missing chunks nearest first, up to the budget. */
    method Admit(ghost before: Residents) returns (loaded: nat, fromStore: nat, ghost ks: seq<ChunkKey>)
      requires InDomain(cfg, center) && StoreKeepsContent()
      requires resident == Kept(cfg, center, before)
      modifies this`resident, store
      ensures StoreKeepsContent()
      ensures loaded == |Elements(ks)| && Loaded(cfg, World(), center, before, Elements(ks), resident)
      ensures FlagsAreHits(old(store.chunks), resident, Elements(ks)) && old(store.puts) <= store.puts
      ensures LoadsInOrder(cfg, center, Missing(cfg, center, before), old(store.chunks), hash, fromStore,
                           store.puts[|old(store.puts)|..], ks)
      ensures FillsInsideOut(cfg, center, before.Keys, resident.Keys)
    {
      var nearest := ChooseNearest(before);
      loaded, ks := |nearest|, nearest;
      fromStore := LoadAll(nearest);
      LoadedIsLoaded(cfg, World(), center, before, resident, ks);
      LoadedKeys(cfg, World(), center, before, Elements(ks), resident);
      AdmissionFills(cfg, center, before.Keys, Elements(ks), resident.Keys);
    }

    /** The residents to mesh: those whose mesh is missing or stale and whose neighbours are all here. */
    method CollectWork() returns (work: set<ChunkKey>)
      ensures work == MeshWork(cfg, center, resident)
    {
      work := {};
      var todo := resident.Keys;
      while todo != {}
        invariant todo <= resident.Keys
        invariant work == MeshWork(cfg, center, resident) - todo
        decreases |todo|
      {
        var k :| k in todo;
        todo := todo - {k};
        if ToMesh(cfg, center, resident, k) {
          work := work + {k};
        }
      }
    }

    /** One mesh task: rebuilds a resident against its current window. */
    method BuildOne(k: ChunkKey, ghost mid: Residents, ghost done: set<ChunkKey>)
      requires HoldsContent(content, mid) && MeshedSoFar(cfg, World(), center, mid, resident, done)
      requires k in mid && Ready(cfg, center, k, mid.Keys) && k !in done
      modifies this`resident
      ensures MeshedSoFar(cfg, World(), center, mid, resident, done + {k})
    {
      MeshKeepsContent(cfg, World(), center, mid, resident, done);
      var mask := WindowMask(cfg, center, k);
      var mesh := BuildMesh(resident, k, mask, isOpaque, content);
      var r := resident[k].(mesh := mesh, meshed := true, meshedMask := mask);
      MeshNext(cfg, World(), center, mid, resident, done, k, r);
      resident := resident[k := r];
    }

    /** Rebuilds every mesh in the work list, in any order. */
    method BuildAll(work: set<ChunkKey>, ghost mid: Residents)
      requires resident == mid && AllReady(cfg, center, mid, work) && HoldsContent(content, mid)
      modifies this`resident
      ensures MeshedSoFar(cfg, World(), center, mid, resident, work)
    {
      var todo := work;
      ghost var done := {};
      while todo != {}
        invariant todo <= work && done == work - todo
        invariant MeshedSoFar(cfg, World(), center, mid, resident, done)
        decreases |todo|
      {
        var k :| k in todo;
        BuildOne(k, mid, done);
        done := done + {k};
        todo := todo - {k};
      }
      assert done == work;
    }

    /** One streaming slice: evict, admit up to the budget, mesh what became ready. */
    method Pump() returns (stats: PumpStats)
      requires Valid()
      modifies this`resident, store
      ensures Valid()
      ensures Pumped(cfg, World(), center, old(resident), resident, stats)
      ensures old(store.puts) <= store.puts
      ensures exists ks :: LoadsInOrder(cfg, center, Missing(cfg, center, old(resident)), old(store.chunks), hash,
                                        stats.loadedFromStore, store.puts[|old(store.puts)|..], ks)
      ensures FillsInsideOut(cfg, center, old(resident.Keys), resident.Keys)
    {
      ghost var before := resident;
      ghost var held := store.chunks;
      var evicted := Evict();
      var loaded, fromStore, ks := Admit(before);
      ghost var admitted := Elements(ks);
      FlagsCount(held, resident, admitted);
      ghost var mid := resident;
      LoadedIsPure(cfg, World(), center, before, admitted, mid);
      var work := CollectWork();
      PureHoldsContent(World(), mid);
      WorkIsReady(cfg, center, mid);
      BuildAll(work, mid);
      MeshDone(cfg, World(), center, mid, resident);
      stats := PumpStats(loaded, fromStore, |work|, evicted);
      MeshedIsPure(cfg, World(), center, mid, resident);
      assert PumpedVia(cfg, World(), center, before, admitted, mid, resident, stats);
      PumpFillsInsideOut(cfg, World(), center, before, resident, stats);
    }

    /** The code's own test for rest: everything desired is current, and nothing else is resident. */
    method IsQuiescent() returns (r: bool)
      ensures r <==> Quiescent(cfg, center, resident)
    {
      var ks := ForEachDesired();
      var desired := 0;
      var allIn := true;
      for i := 0 to |ks|
        invariant desired == i
        invariant allIn <==> forall j :: 0 <= j < i ==>
            ks[j] in resident && !NeedsMesh(cfg, center, ks[j], resident[ks[j]])
      {
        desired := desired + 1;
        if ks[i] !in resident || !resident[ks[i]].meshed ||
            resident[ks[i]].meshedMask != WindowMask(cfg, center, ks[i]) {
          allIn := false;
        }
      }
      r := allIn && desired == |resident|;
      CountsMeanQuiescent(cfg, center, resident, ks, allIn);
    }
  }

  lemma PureHoldsContent(w: World, rs: Residents)
    requires AllPure(w, rs)
    ensures HoldsContent(w.content, rs)
  {
    forall k | k in rs
      ensures rs[k].chunk == w.content(k)
    {
      assert Pure(w, k, rs[k]);
    }
  }

  lemma CountsMeanQuiescent(cfg: Config, c: Center, rs: Residents, ks: seq<ChunkKey>, allIn: bool)
    requires ks == DesiredKeys(cfg, c)
    requires allIn <==> forall j :: 0 <= j < |ks| ==> ks[j] in rs && !NeedsMesh(cfg, c, ks[j], rs[ks[j]])
    ensures allIn && |ks| == |rs| <==> Quiescent(cfg, c, rs)
  {
    DesiredMembers(cfg, c);
    assert |rs| == |rs.Keys|;
    if allIn && |ks| == |rs| {
      forall k | k in Desired(cfg, c)
        ensures k in rs && !NeedsMesh(cfg, c, k, rs[k])
      {
        assert k in ks;
      }
      SameSizeSubset(Desired(cfg, c), rs.Keys);
    }
    if Quiescent(cfg, c, rs) {
      forall j | 0 <= j < |ks|
        ensures ks[j] in rs && !NeedsMesh(cfg, c, ks[j], rs[ks[j]])
      {
        assert ks[j] in Desired(cfg, c);
      }
    }
  }

  /* ----- two streamers over one store ----- */

  lemma SameContentShows(cfg: Config, c: Center, a: ChunkKey -> UnpackedChunk, b: ChunkKey -> UnpackedChunk,
                         isOpaque: Greedy.Opacity, w: World, w': World)
    requires InDomain(cfg, c) && (forall k: ChunkKey :: k.InWord() ==> a(k) == b(k))
    requires w == WorldOver(a, isOpaque) && w' == WorldOver(b, isOpaque)
    ensures SameShown(cfg, c, w, w')
  {
    forall k | InWindow(cfg, c, k)
      ensures w.content(k) == w'.content(k)
      ensures w.mesh(k, WindowMask(cfg, c, k)) == w'.mesh(k, WindowMask(cfg, c, k))
    {
      WindowInWord(cfg, c, k);
      var mask := WindowMask(cfg, c, k);
      forall f | 0 <= f < 6 && mask[f]
        ensures a(Neighbor(k, f)) == b(Neighbor(k, f))
      {
        WindowInWord(cfg, c, Neighbor(k, f));
      }
      assert Views(a, k, mask) == Views(b, k, mask);
    }
  }

  /** Two streamers whose stores answer alike hold the same chunks and meshes once at rest at one centre. */
  lemma RestIsShared(a: Streamer, b: Streamer)
    requires a.Valid() && b.Valid()
    requires a.hash == b.hash && Belt.SameContent(a.store.chunks, b.store.chunks, a.hash)
    requires a.isOpaque == b.isOpaque && b.cfg == a.cfg.(budget := b.cfg.budget) && a.center == b.center
    requires Quiescent(a.cfg, a.center, a.resident) && Quiescent(b.cfg, b.center, b.resident)
    ensures SameResidents(a.resident, b.resident)
  {
    forall k: ChunkKey | k.InWord()
      ensures a.content(k) == b.content(k)
    {
      assert Belt.ContentOf(a.store.chunks, a.hash, k) == Belt.ContentOf(b.store.chunks, b.hash, k);
    }
    SameContentShows(a.cfg, a.center, a.content, b.content, a.isOpaque, a.World(), b.World());
    PureRestsAgree(a.cfg, b.cfg, a.center, a.World(), b.World(), a.resident, b.resident);
  }
}
