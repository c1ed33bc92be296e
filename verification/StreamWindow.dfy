/**
 The streaming window as a state machine over snapshots: what a pump does, what every run keeps,
 and when it comes to rest.
 */
module StreamWindow {
  import opened Arithmetic
  import opened StoreKeys
  import opened VoxelBlob
  import opened MeshFormat

  datatype Config = Config(radius: int, cyMin: int, cyMax: int, budget: nat)
  {
    predicate Valid() { budget >= 1 && radius >= 0 && cyMin <= cyMax }
  }

  datatype Center = Center(x: int, z: int)

  /** In-window neighbours of a chunk, one flag a face: +X, -X, +Y, -Y, +Z, -Z. */
  type Mask = m: seq<bool> | |m| == 6 witness [false, false, false, false, false, false]

  datatype ResidentChunk = ResidentChunk(chunk: UnpackedChunk, mesh: ChunkMesh, fromStore: bool, meshed: bool,
                                         meshedMask: Mask)

  type Residents = map<ChunkKey, ResidentChunk>

  /** The content of every chunk position, and its mesh against a given set of neighbours. */
  datatype World = World(content: ChunkKey -> UnpackedChunk, mesh: (ChunkKey, Mask) -> ChunkMesh)

  function Chebyshev(c: Center, k: ChunkKey): (d: int)
    ensures d >= 0
  {
    var dx := if k.cx >= c.x then k.cx - c.x else c.x - k.cx;
    var dz := if k.cz >= c.z then k.cz - c.z else c.z - k.cz;
    if dx > dz then dx else dz
  }

  predicate InWindow(cfg: Config, c: Center, k: ChunkKey) {
    cfg.cyMin <= k.cy <= cfg.cyMax && Chebyshev(c, k) <= cfg.radius
  }

  function Neighbor(k: ChunkKey, f: nat): ChunkKey {
    if f == 0 then ChunkKey(k.cx + 1, k.cy, k.cz)
    else if f == 1 then ChunkKey(k.cx - 1, k.cy, k.cz)
    else if f == 2 then ChunkKey(k.cx, k.cy + 1, k.cz)
    else if f == 3 then ChunkKey(k.cx, k.cy - 1, k.cz)
    else if f == 4 then ChunkKey(k.cx, k.cy, k.cz + 1)
    else ChunkKey(k.cx, k.cy, k.cz - 1)
  }

  function WindowMask(cfg: Config, c: Center, k: ChunkKey): Mask {
    seq(6, (f: nat) => InWindow(cfg, c, Neighbor(k, f)))
  }

  /** The desired window in visiting order. */
  function DesiredKeys(cfg: Config, c: Center): seq<ChunkKey> {
    BoxKeys(c.x - cfg.radius, c.x + cfg.radius + 1, cfg.cyMin, cfg.cyMax + 1, c.z - cfg.radius, c.z + cfg.radius + 1)
  }

  ghost function Desired(cfg: Config, c: Center): (s: set<ChunkKey>)
    ensures forall k: ChunkKey :: k in s <==> InWindow(cfg, c, k)
    ensures |s| == |DesiredKeys(cfg, c)|
  {
    DesiredMembers(cfg, c);
    NoRepeatsSize(DesiredKeys(cfg, c));
    Elements(DesiredKeys(cfg, c))
  }

  lemma DesiredMembers(cfg: Config, c: Center)
    ensures NoRepeats(DesiredKeys(cfg, c))
    ensures forall k: ChunkKey :: k in DesiredKeys(cfg, c) <==> InWindow(cfg, c, k)
  {
    BoxNoRepeats(c.x - cfg.radius, c.x + cfg.radius + 1, cfg.cyMin, cfg.cyMax + 1, c.z - cfg.radius,
                 c.z + cfg.radius + 1);
    forall k: ChunkKey
      ensures k in DesiredKeys(cfg, c) <==> InWindow(cfg, c, k)
    {
      BoxMembers(c.x - cfg.radius, c.x + cfg.radius + 1, cfg.cyMin, cfg.cyMax + 1, c.z - cfg.radius,
                 c.z + cfg.radius + 1, k);
    }
  }

  /** Nearest first: by distance, then by key. */
  predicate Nearer(c: Center, a: ChunkKey, b: ChunkKey) {
    Chebyshev(c, a) < Chebyshev(c, b) || (Chebyshev(c, a) == Chebyshev(c, b) && a.Before(b))
  }

  /** At most r columns from the centre along x and along z. */
  predicate InSquare(c: Center, r: int, k: ChunkKey) {
    c.x - r <= k.cx <= c.x + r && c.z - r <= k.cz <= c.z + r
  }

  predicate OnRing(c: Center, r: int, k: ChunkKey) {
    InSquare(c, r, k) && !InSquare(c, r - 1, k)
  }

  /** The window is the square of its radius, in the band of its layers. */
  lemma WindowIsSquare(cfg: Config, c: Center, k: ChunkKey)
    ensures k in DesiredKeys(cfg, c) <==> cfg.cyMin <= k.cy <= cfg.cyMax && InSquare(c, cfg.radius, k)
    ensures InWindow(cfg, c, k) <==> cfg.cyMin <= k.cy <= cfg.cyMax && InSquare(c, cfg.radius, k)
  {
    DesiredMembers(cfg, c);
  }

  /** Nearer keys lie in every square that holds the other; on one ring (cx, cy, cz) order decides. */
  lemma NearerIsInside(c: Center, a: ChunkKey, b: ChunkKey, r: int)
    ensures Nearer(c, a, b) && InSquare(c, r, b) ==> InSquare(c, r, a)
    ensures Nearer(c, a, b) && OnRing(c, r, a) && OnRing(c, r, b) ==> a.Before(b)
  {
    assert OnRing(c, r, a) ==> Chebyshev(c, a) == r;
    assert OnRing(c, r, b) ==> Chebyshev(c, b) == r;
  }

  /** What every resident satisfies at every moment of every run: content and mesh come from the world alone. */
  ghost predicate Pure(w: World, k: ChunkKey, r: ResidentChunk) {
    r.chunk == w.content(k) && (r.meshed ==> r.mesh == w.mesh(k, r.meshedMask))
  }

  ghost predicate AllPure(w: World, rs: Residents) {
    forall k :: k in rs ==> Pure(w, k, rs[k])
  }

  /* ----- one pump ----- */

  ghost function Missing(cfg: Config, c: Center, rs: Residents): set<ChunkKey> {
    Desired(cfg, c) - rs.Keys
  }

  /** The budget's worth of missing chunks, nearest first. */
  ghost predicate IsAdmission(cfg: Config, c: Center, missing: set<ChunkKey>, admitted: set<ChunkKey>) {
    && admitted <= missing
    && |admitted| == (if |missing| < cfg.budget then |missing| else cfg.budget)
    && forall a, b :: a in admitted && b in missing - admitted ==> Nearer(c, a, b)
  }

  ghost function Kept(cfg: Config, c: Center, rs: Residents): Residents {
    map k | k in rs && InWindow(cfg, c, k) :: rs[k]
  }

  predicate NeedsMesh(cfg: Config, c: Center, k: ChunkKey, r: ResidentChunk) {
    !r.meshed || r.meshedMask != WindowMask(cfg, c, k)
  }

  /** Every in-window neighbour is resident. */
  predicate Ready(cfg: Config, c: Center, k: ChunkKey, keys: set<ChunkKey>) {
    forall f :: 0 <= f < 6 && WindowMask(cfg, c, k)[f] ==> Neighbor(k, f) in keys
  }

  predicate ToMesh(cfg: Config, c: Center, rs: Residents, k: ChunkKey)
    requires k in rs
  {
    NeedsMesh(cfg, c, k, rs[k]) && Ready(cfg, c, k, rs.Keys)
  }

  /** After eviction and admission: kept residents as they were, admitted ones loaded and not yet meshed. */
  ghost predicate Loaded(cfg: Config, w: World, c: Center, rs: Residents, admitted: set<ChunkKey>,
                         mid: Residents) {
    && mid.Keys == Kept(cfg, c, rs).Keys + admitted
    && (forall k :: k in Kept(cfg, c, rs) ==> mid[k] == rs[k])
    && (forall k :: k in admitted ==> mid[k].chunk == w.content(k) && !mid[k].meshed)
  }

  /** After meshing: exactly the residents that need it and are ready are rebuilt. */
  ghost predicate Meshed(cfg: Config, w: World, c: Center, mid: Residents, rs: Residents) {
    && rs.Keys == mid.Keys
    && forall k :: k in mid ==>
         if ToMesh(cfg, c, mid, k) then
           rs[k] == mid[k].(mesh := w.mesh(k, WindowMask(cfg, c, k)), meshed := true,
                            meshedMask := WindowMask(cfg, c, k))
         else rs[k] == mid[k]
  }

  datatype PumpStats = PumpStats(loaded: nat, loadedFromStore: nat, meshed: nat, evicted: nat)
  {
    predicate Changed() { loaded + meshed + evicted > 0 }
  }

  ghost function MeshWork(cfg: Config, c: Center, mid: Residents): set<ChunkKey> {
    set k | k in mid && ToMesh(cfg, c, mid, k)
  }

  ghost function FromStore(rs: Residents, keys: set<ChunkKey>): set<ChunkKey> {
    set k | k in keys && k in rs && rs[k].fromStore
  }

  ghost predicate PumpedVia(cfg: Config, w: World, c: Center, rs: Residents,
                            admitted: set<ChunkKey>, mid: Residents, rs': Residents, stats: PumpStats) {
    && IsAdmission(cfg, c, Missing(cfg, c, rs), admitted)
    && Loaded(cfg, w, c, rs, admitted, mid)
    && Meshed(cfg, w, c, mid, rs')
    && stats.evicted == |rs.Keys - Desired(cfg, c)|
    && stats.loaded == |admitted|
    && stats.loadedFromStore == |FromStore(mid, admitted)|
    && stats.meshed == |MeshWork(cfg, c, mid)|
  }

  ghost predicate Pumped(cfg: Config, w: World, c: Center, rs: Residents, rs': Residents, stats: PumpStats) {
    exists admitted: set<ChunkKey>, mid: Residents :: PumpedVia(cfg, w, c, rs, admitted, mid, rs', stats)
  }

  /** Fully resident, and every mesh built against the current window. */
  ghost predicate Quiescent(cfg: Config, c: Center, rs: Residents) {
    && rs.Keys == Desired(cfg, c)
    && forall k :: k in rs ==> !NeedsMesh(cfg, c, k, rs[k])
  }

  /* ----- what a pump keeps and reaches ----- */

  lemma LoadedIsPure(cfg: Config, w: World, c: Center, rs: Residents, admitted: set<ChunkKey>, mid: Residents)
    requires AllPure(w, rs) && Loaded(cfg, w, c, rs, admitted, mid)
    ensures AllPure(w, mid)
  {
    forall k | k in mid
      ensures Pure(w, k, mid[k])
    {
      if k in Kept(cfg, c, rs) {
        assert mid[k] == rs[k] && Pure(w, k, rs[k]);
      } else {
        assert k in admitted;
      }
    }
  }

  lemma MeshedIsPure(cfg: Config, w: World, c: Center, mid: Residents, rs: Residents)
    requires AllPure(w, mid) && Meshed(cfg, w, c, mid, rs)
    ensures AllPure(w, rs)
  {
    forall k | k in rs
      ensures Pure(w, k, rs[k])
    {
      assert Pure(w, k, mid[k]);
    }
  }

  lemma LoadedKeys(cfg: Config, w: World, c: Center, rs: Residents, admitted: set<ChunkKey>, mid: Residents)
    requires IsAdmission(cfg, c, Missing(cfg, c, rs), admitted) && Loaded(cfg, w, c, rs, admitted, mid)
    ensures mid.Keys == (rs.Keys * Desired(cfg, c)) + admitted
    ensures Missing(cfg, c, mid) == Missing(cfg, c, rs) - admitted
  {
    assert Kept(cfg, c, rs).Keys == rs.Keys * Desired(cfg, c);
  }

  /** A pump keeps every resident pure, and leaves nobody outside the window. */
  lemma PumpKeepsPurity(cfg: Config, w: World, c: Center, rs: Residents, rs': Residents, stats: PumpStats)
    requires AllPure(w, rs) && Pumped(cfg, w, c, rs, rs', stats)
    ensures AllPure(w, rs')
    ensures forall k :: k in rs' ==> InWindow(cfg, c, k)
  {
    var admitted: set<ChunkKey>, mid: Residents :| PumpedVia(cfg, w, c, rs, admitted, mid, rs', stats);
    LoadedIsPure(cfg, w, c, rs, admitted, mid);
    MeshedIsPure(cfg, w, c, mid, rs');
    MidInWindow(cfg, w, c, rs, admitted, mid);
    MeshedInWindow(cfg, w, c, mid, rs');
  }

  lemma MeshedInWindow(cfg: Config, w: World, c: Center, mid: Residents, rs: Residents)
    requires mid.Keys <= Desired(cfg, c) && Meshed(cfg, w, c, mid, rs)
    ensures forall k :: k in rs ==> InWindow(cfg, c, k)
  {
    assert rs.Keys <= Desired(cfg, c);
  }

  /** Each pump closes the budget's worth of the gap. */
  lemma PumpAdmits(cfg: Config, w: World, c: Center, rs: Residents, rs': Residents, stats: PumpStats)
    requires Pumped(cfg, w, c, rs, rs', stats)
    ensures var m := |Missing(cfg, c, rs)|; |Missing(cfg, c, rs')| == if m < cfg.budget then 0 else m - cfg.budget
  {
    var admitted: set<ChunkKey>, mid: Residents :| PumpedVia(cfg, w, c, rs, admitted, mid, rs', stats);
    LoadedKeys(cfg, w, c, rs, admitted, mid);
    assert Missing(cfg, c, rs') == Missing(cfg, c, mid);
    assert |Missing(cfg, c, rs) - admitted| == |Missing(cfg, c, rs)| - |admitted|;
  }

  /**
   From one set of residents to the next the window fills from the inside out: no key enters beyond
   radius r while a key within r is missing, and on one ring no key enters after one that stays out.
   */
  ghost predicate FillsInsideOut(cfg: Config, c: Center, before: set<ChunkKey>, after: set<ChunkKey>) {
    && (forall k, r: int {:trigger InSquare(c, r, k)} ::
          k in after - before && 0 <= r <= cfg.radius && !InSquare(c, r, k) ==>
            Desired(cfg.(radius := r), c) <= after)
    && (forall a, b, r: int {:trigger OnRing(c, r, a), OnRing(c, r, b)} ::
          a in after - before && b in Desired(cfg, c) - after && OnRing(c, r, a) && OnRing(c, r, b) ==>
            a.Before(b))
  }

  lemma AdmissionFills(cfg: Config, c: Center, rs: set<ChunkKey>, admitted: set<ChunkKey>, after: set<ChunkKey>)
    requires IsAdmission(cfg, c, Desired(cfg, c) - rs, admitted)
    requires after == rs * Desired(cfg, c) + admitted
    ensures FillsInsideOut(cfg, c, rs, after)
  {
    forall k, r: int {:trigger InSquare(c, r, k)} | k in after - rs && 0 <= r <= cfg.radius && !InSquare(c, r, k)
      ensures Desired(cfg.(radius := r), c) <= after
    {
      forall d | d in Desired(cfg.(radius := r), c)
        ensures d in after
      {
        assert d !in after ==> d in (Desired(cfg, c) - rs) - admitted;
        NearerIsInside(c, k, d, r);
      }
    }
    forall a, b, r: int {:trigger OnRing(c, r, a), OnRing(c, r, b)} |
      a in after - rs && b in Desired(cfg, c) - after && OnRing(c, r, a) && OnRing(c, r, b)
      ensures a.Before(b)
    {
      assert Nearer(c, a, b);
      NearerIsInside(c, a, b, r);
    }
  }

  /** A pump loads the missing chunks from the centre outwards. */
  lemma PumpFillsInsideOut(cfg: Config, w: World, c: Center, rs: Residents, rs': Residents, stats: PumpStats)
    requires Pumped(cfg, w, c, rs, rs', stats)
    ensures FillsInsideOut(cfg, c, rs.Keys, rs'.Keys)
  {
    var admitted: set<ChunkKey>, mid: Residents :| PumpedVia(cfg, w, c, rs, admitted, mid, rs', stats);
    LoadedKeys(cfg, w, c, rs, admitted, mid);
    AdmissionFills(cfg, c, rs.Keys, admitted, rs'.Keys);
  }

  lemma MeshedRests(cfg: Config, w: World, c: Center, mid: Residents, rs: Residents)
    requires Meshed(cfg, w, c, mid, rs) && mid.Keys == Desired(cfg, c)
    ensures Quiescent(cfg, c, rs)
  {
    forall k | k in rs
      ensures !NeedsMesh(cfg, c, k, rs[k])
    {
      assert Ready(cfg, c, k, mid.Keys);
      assert ToMesh(cfg, c, mid, k) <==> NeedsMesh(cfg, c, k, mid[k]);
    }
  }

  lemma NothingMissing(cfg: Config, c: Center, rs: Residents)
    ensures Missing(cfg, c, rs) == {} <==> Desired(cfg, c) <= rs.Keys
  {
    if Missing(cfg, c, rs) == {} {
      forall k | k in Desired(cfg, c)
        ensures k in rs.Keys
      {
        assert k !in Missing(cfg, c, rs);
      }
    }
  }

  lemma MeshedRestsIffComplete(cfg: Config, w: World, c: Center, mid: Residents, rs: Residents)
    requires Meshed(cfg, w, c, mid, rs) && mid.Keys <= Desired(cfg, c)
    ensures Quiescent(cfg, c, rs) <==> Missing(cfg, c, rs) == {}
  {
    NothingMissing(cfg, c, rs);
    if Missing(cfg, c, rs) == {} {
      MeshedRests(cfg, w, c, mid, rs);
    }
  }

  lemma MidInWindow(cfg: Config, w: World, c: Center, rs: Residents, admitted: set<ChunkKey>, mid: Residents)
    requires IsAdmission(cfg, c, Missing(cfg, c, rs), admitted) && Loaded(cfg, w, c, rs, admitted, mid)
    ensures mid.Keys <= Desired(cfg, c)
  {
    LoadedKeys(cfg, w, c, rs, admitted, mid);
  }

  /** After a pump the window is at rest exactly when nothing is missing any more. */
  lemma PumpRestsIffComplete(cfg: Config, w: World, c: Center, rs: Residents, rs': Residents, stats: PumpStats)
    requires Pumped(cfg, w, c, rs, rs', stats)
    ensures Quiescent(cfg, c, rs') <==> Missing(cfg, c, rs') == {}
  {
    var admitted: set<ChunkKey>, mid: Residents :| PumpedVia(cfg, w, c, rs, admitted, mid, rs', stats);
    MidInWindow(cfg, w, c, rs, admitted, mid);
    MeshedRestsIffComplete(cfg, w, c, mid, rs');
  }

  lemma IdleMid(cfg: Config, w: World, c: Center, rs: Residents, mid: Residents)
    requires Loaded(cfg, w, c, rs, {}, mid) && rs.Keys <= Desired(cfg, c)
    ensures mid == rs
  {
    assert Kept(cfg, c, rs).Keys == rs.Keys;
  }

  lemma IdleMesh(cfg: Config, w: World, c: Center, mid: Residents, rs: Residents)
    requires Meshed(cfg, w, c, mid, rs) && MeshWork(cfg, c, mid) == {}
    ensures rs == mid
  {
    forall k | k in mid
      ensures rs[k] == mid[k]
    {
      assert k !in MeshWork(cfg, c, mid);
    }
  }

  lemma RestNeedsNothing(cfg: Config, c: Center, rs: Residents)
    ensures Quiescent(cfg, c, rs) <==>
        rs.Keys <= Desired(cfg, c) && Missing(cfg, c, rs) == {} && MeshWork(cfg, c, rs) == {}
  {
    NothingMissing(cfg, c, rs);
    if rs.Keys <= Desired(cfg, c) && Missing(cfg, c, rs) == {} && MeshWork(cfg, c, rs) == {} {
      assert rs.Keys == Desired(cfg, c);
      forall k | k in rs
        ensures !NeedsMesh(cfg, c, k, rs[k])
      {
        assert Ready(cfg, c, k, rs.Keys);
        assert k !in MeshWork(cfg, c, rs);
      }
    }
  }

  lemma NoneCounted<T>(s: set<T>)
    ensures |s| == 0 <==> s == {}
  {
  }

  lemma AdmitsNothing(cfg: Config, c: Center, missing: set<ChunkKey>, admitted: set<ChunkKey>)
    requires cfg.Valid() && IsAdmission(cfg, c, missing, admitted)
    ensures admitted == {} <==> missing == {}
  {
    NoneCounted(missing);
    NoneCounted(admitted);
  }

  lemma IdleVia(cfg: Config, w: World, c: Center, rs: Residents, admitted: set<ChunkKey>, mid: Residents,
                rs': Residents, stats: PumpStats)
    requires cfg.Valid() && PumpedVia(cfg, w, c, rs, admitted, mid, rs', stats)
    ensures !stats.Changed() <==> rs.Keys <= Desired(cfg, c) && admitted == {} && MeshWork(cfg, c, mid) == {}
    ensures !stats.Changed() ==> mid == rs && rs' == rs
  {
    NoneCounted(rs.Keys - Desired(cfg, c));
    NoneCounted(admitted);
    NoneCounted(MeshWork(cfg, c, mid));
    if !stats.Changed() {
      IdleMid(cfg, w, c, rs, mid);
      IdleMesh(cfg, w, c, mid, rs');
    }
  }

  /** The window is at rest exactly when the next pump reports no change; and then nothing changes. */
  lemma QuiescentIffPumpIsIdle(cfg: Config, w: World, c: Center, rs: Residents, rs': Residents,
                               stats: PumpStats)
    requires cfg.Valid() && Pumped(cfg, w, c, rs, rs', stats)
    ensures Quiescent(cfg, c, rs) <==> !stats.Changed()
    ensures !stats.Changed() ==> rs' == rs
  {
    var admitted: set<ChunkKey>, mid: Residents :| PumpedVia(cfg, w, c, rs, admitted, mid, rs', stats);
    RestNeedsNothing(cfg, c, rs);
    AdmitsNothing(cfg, c, Missing(cfg, c, rs), admitted);
    IdleVia(cfg, w, c, rs, admitted, mid, rs', stats);
    if Quiescent(cfg, c, rs) {
      IdleMid(cfg, w, c, rs, mid);
    }
  }

  /* ----- determinism of one pump ----- */

  lemma SameSizeSubset<T>(a: set<T>, b: set<T>)
    requires a <= b && |a| == |b|
    ensures a == b
  {
    assert |b - a| == |b| - |a|;
    assert b == a + (b - a);
  }

  lemma NearerAsymmetric(c: Center, a: ChunkKey, b: ChunkKey)
    ensures !(Nearer(c, a, b) && Nearer(c, b, a))
  {
  }

  /** Nearest-first admission leaves no choice. */
  lemma AdmissionIsUnique(cfg: Config, c: Center, missing: set<ChunkKey>, a: set<ChunkKey>, b: set<ChunkKey>)
    requires IsAdmission(cfg, c, missing, a) && IsAdmission(cfg, c, missing, b)
    ensures a == b
  {
    if exists x :: x in a && x !in b {
      var x :| x in a && x !in b;
      if y :| y in b && y !in a {
        NearerAsymmetric(c, x, y);
      } else {
        assert b <= a;
        SameSizeSubset(b, a);
      }
    } else {
      assert a <= b;
      SameSizeSubset(a, b);
    }
  }

  /** Same chunk, same mesh, but possibly loaded from elsewhere. */
  predicate Alike(r: ResidentChunk, r': ResidentChunk) {
    && r.chunk == r'.chunk && r.meshed == r'.meshed
    && (r.meshed ==> r.mesh == r'.mesh && r.meshedMask == r'.meshedMask)
  }

  lemma MidsAgree(cfg: Config, w: World, c: Center, rs: Residents, admitted: set<ChunkKey>, mid: Residents,
                  mid': Residents)
    requires Loaded(cfg, w, c, rs, admitted, mid) && Loaded(cfg, w, c, rs, admitted, mid')
    ensures mid.Keys == mid'.Keys && forall k :: k in mid ==> Alike(mid[k], mid'[k])
  {
    forall k | k in mid
      ensures Alike(mid[k], mid'[k])
    {
      if k in Kept(cfg, c, rs) {
        assert mid[k] == rs[k] && mid'[k] == rs[k];
      } else {
        assert k in admitted;
      }
    }
  }

  lemma MeshesAgree(cfg: Config, w: World, c: Center, mid: Residents, mid': Residents, r: Residents,
                    r': Residents)
    requires Meshed(cfg, w, c, mid, r) && Meshed(cfg, w, c, mid', r')
    requires mid.Keys == mid'.Keys && forall k :: k in mid ==> Alike(mid[k], mid'[k])
    ensures r.Keys == r'.Keys && forall k :: k in r ==> Alike(r[k], r'[k])
  {
    forall k | k in r
      ensures Alike(r[k], r'[k])
    {
      assert Alike(mid[k], mid'[k]);
      assert ToMesh(cfg, c, mid, k) == ToMesh(cfg, c, mid', k);
    }
  }

  /** Two pumps of the same residents give the same residents, whatever the store did with its puts. */
  lemma PumpIsDeterministic(cfg: Config, w: World, c: Center, rs: Residents, r: Residents, r': Residents,
                            stats: PumpStats, stats': PumpStats)
    requires Pumped(cfg, w, c, rs, r, stats) && Pumped(cfg, w, c, rs, r', stats')
    ensures r.Keys == r'.Keys && forall k :: k in r ==> Alike(r[k], r'[k])
  {
    var a: set<ChunkKey>, mid: Residents :| PumpedVia(cfg, w, c, rs, a, mid, r, stats);
    var a': set<ChunkKey>, mid': Residents :| PumpedVia(cfg, w, c, rs, a', mid', r', stats');
    AdmissionIsUnique(cfg, c, Missing(cfg, c, rs), a, a');
    MidsAgree(cfg, w, c, rs, a, mid, mid');
    MeshesAgree(cfg, w, c, mid, mid', r, r');
  }

  /* ----- runs ----- */

  datatype Snapshot = Snapshot(center: Center, residents: Residents)

  /** Either the centre moves, or a pump runs. */
  ghost predicate Step(cfg: Config, w: World, s: Snapshot, s': Snapshot) {
    || s'.residents == s.residents
    || (s'.center == s.center && exists stats :: Pumped(cfg, w, s.center, s.residents, s'.residents, stats))
  }

  /** A run from the empty window. */
  ghost predicate Run(cfg: Config, w: World, run: seq<Snapshot>) {
    && |run| > 0
    && run[0].residents == map[]
    && forall i :: 0 <= i < |run| - 1 ==> Step(cfg, w, run[i], run[i + 1])
  }

  lemma {:induction false} RunIsPure(cfg: Config, w: World, run: seq<Snapshot>, i: nat)
    requires Run(cfg, w, run) && i < |run|
    ensures AllPure(w, run[i].residents)
  {
    if i > 0 {
      RunIsPure(cfg, w, run, i - 1);
      var s, s' := run[i - 1], run[i];
      assert Step(cfg, w, s, s');
      if s'.residents != s.residents {
        var stats :| Pumped(cfg, w, s.center, s.residents, s'.residents, stats);
        PumpKeepsPurity(cfg, w, s.center, s.residents, s'.residents, stats);
      }
    }
  }

  /** Residents agree on everything but where their chunk was loaded from. */
  ghost predicate SameResidents(a: Residents, b: Residents) {
    && a.Keys == b.Keys
    && forall k :: k in a ==> a[k].(fromStore := b[k].fromStore) == b[k]
  }

  /** Two worlds that show the same in a window. */
  ghost predicate SameShown(cfg: Config, c: Center, w: World, w': World) {
    forall k :: InWindow(cfg, c, k) ==>
      && w.content(k) == w'.content(k)
      && w.mesh(k, WindowMask(cfg, c, k)) == w'.mesh(k, WindowMask(cfg, c, k))
  }

  /** Pure residents at rest are determined by what the window shows, whatever the budgets. */
  lemma PureRestsAgree(cfg: Config, cfg': Config, c: Center, w: World, w': World, a: Residents, b: Residents)
    requires cfg' == cfg.(budget := cfg'.budget) && SameShown(cfg, c, w, w')
    requires AllPure(w, a) && AllPure(w', b) && Quiescent(cfg, c, a) && Quiescent(cfg', c, b)
    ensures SameResidents(a, b)
  {
    SameDesired(cfg, cfg', c);
    forall k | k in a
      ensures a[k].(fromStore := b[k].fromStore) == b[k]
    {
      assert k in Desired(cfg, c);
      assert Pure(w, k, a[k]) && Pure(w', k, b[k]);
      assert !NeedsMesh(cfg, c, k, a[k]) && !NeedsMesh(cfg', c, k, b[k]);
    }
  }

  /**
   Path independence: any two runs over the same world that come to rest at the same centre hold
   the same chunks and the same meshes, whatever path, budget or order took them there.
   */
  lemma RestIsPathIndependent(cfg: Config, cfg': Config, w: World, run: seq<Snapshot>, run': seq<Snapshot>,
                              i: nat, j: nat)
    requires Run(cfg, w, run) && Run(cfg', w, run') && i < |run| && j < |run'|
    requires cfg' == cfg.(budget := cfg'.budget)
    requires run[i].center == run'[j].center
    requires Quiescent(cfg, run[i].center, run[i].residents) && Quiescent(cfg', run'[j].center, run'[j].residents)
    ensures SameResidents(run[i].residents, run'[j].residents)
  {
    RunIsPure(cfg, w, run, i);
    RunIsPure(cfg', w, run', j);
    PureRestsAgree(cfg, cfg', run[i].center, w, w, run[i].residents, run'[j].residents);
  }

  lemma SameDesired(cfg: Config, cfg': Config, c: Center)
    requires cfg' == cfg.(budget := cfg'.budget)
    ensures Desired(cfg, c) == Desired(cfg', c)
    ensures forall k :: WindowMask(cfg, c, k) == WindowMask(cfg', c, k)
  {
    assert forall k :: InWindow(cfg, c, k) <==> InWindow(cfg', c, k);
  }

  /* ----- convergence ----- */

  ghost predicate PumpedSome(cfg: Config, w: World, c: Center, rs: Residents, rs': Residents) {
    exists stats :: Pumped(cfg, w, c, rs, rs', stats)
  }

  /** Consecutive pumps at one centre. */
  ghost predicate Pumping(cfg: Config, w: World, c: Center, rs: seq<Residents>) {
    && |rs| > 0
    && forall i :: 0 <= i < |rs| - 1 ==> PumpedSome(cfg, w, c, rs[i], rs[i + 1])
  }

  lemma PumpStep(cfg: Config, w: World, c: Center, rs: Residents, rs': Residents)
    requires PumpedSome(cfg, w, c, rs, rs')
    ensures var m := |Missing(cfg, c, rs)|; |Missing(cfg, c, rs')| == if m < cfg.budget then 0 else m - cfg.budget
    ensures Quiescent(cfg, c, rs') <==> |Missing(cfg, c, rs')| == 0
  {
    var stats :| Pumped(cfg, w, c, rs, rs', stats);
    PumpAdmits(cfg, w, c, rs, rs', stats);
    PumpRestsIffComplete(cfg, w, c, rs, rs', stats);
    NoneCounted(Missing(cfg, c, rs'));
  }

  /** What is left of a gap after i pumps. */
  function Remaining(missing: nat, budget: nat, i: nat): (m: nat)
  {
    if missing <= i * budget then 0 else missing - i * budget
  }

  lemma RemainingStep(missing: nat, budget: nat, i: nat)
    requires i > 0
    ensures var m := Remaining(missing, budget, i - 1);
            Remaining(missing, budget, i) == if m < budget then 0 else m - budget
  {
    assert i * budget == (i - 1) * budget + budget;
  }

  lemma {:induction false} GapCloses(cfg: Config, w: World, c: Center, rs: seq<Residents>, i: nat)
    requires Pumping(cfg, w, c, rs) && i < |rs|
    ensures |Missing(cfg, c, rs[i])| == Remaining(|Missing(cfg, c, rs[0])|, cfg.budget, i)
  {
    if i > 0 {
      var m := |Missing(cfg, c, rs[0])|;
      GapCloses(cfg, w, c, rs, i - 1);
      assert PumpedSome(cfg, w, c, rs[i - 1], rs[i - 1 + 1]);
      PumpStep(cfg, w, c, rs[i - 1], rs[i]);
      RemainingStep(m, cfg.budget, i);
    }
  }

  /** ceil(missing / budget), but at least one pump. */
  function PumpsNeeded(missing: nat, budget: nat): (n: nat)
    requires budget >= 1
  {
    if missing == 0 then 1 else (missing + budget - 1) / budget
  }

  lemma CeilIsLeast(missing: nat, budget: nat, i: nat)
    requires budget >= 1 && i >= 1
    ensures missing <= i * budget <==> PumpsNeeded(missing, budget) <= i
  {
    if missing > 0 {
      var n := (missing + budget - 1) / budget;
      assert missing + budget - 1 == budget * n + (missing + budget - 1) % budget;
      if n <= i {
        MulMono(budget, n, i);
      } else {
        MulMono(budget, i + 1, n);
      }
    }
  }

  lemma NothingRemains(missing: nat, budget: nat, i: nat)
    requires budget >= 1 && i >= 1
    ensures Remaining(missing, budget, i) == 0 <==> PumpsNeeded(missing, budget) <= i
  {
    CeilIsLeast(missing, budget, i);
  }

  lemma PumpsNeededPositive(missing: nat, budget: nat)
    requires budget >= 1
    ensures PumpsNeeded(missing, budget) >= 1
  {
    if missing > 0 {
      CeilIsLeast(missing, budget, 1);
    }
  }

  /**
   Bounded convergence: with the centre fixed, a window not at rest reaches rest after exactly
   max(1, ceil(missing / budget)) pumps, and not before.
   */
  lemma RestsAfterExactly(cfg: Config, w: World, c: Center, rs: seq<Residents>, i: nat)
    requires cfg.Valid() && Pumping(cfg, w, c, rs) && i < |rs|
    requires !Quiescent(cfg, c, rs[0])
    ensures Quiescent(cfg, c, rs[i]) <==> PumpsNeeded(|Missing(cfg, c, rs[0])|, cfg.budget) <= i
  {
    if i > 0 {
      assert PumpedSome(cfg, w, c, rs[i - 1], rs[i - 1 + 1]);
      PumpStep(cfg, w, c, rs[i - 1], rs[i]);
      GapCloses(cfg, w, c, rs, i);
      NothingRemains(|Missing(cfg, c, rs[0])|, cfg.budget, i);
    } else {
      PumpsNeededPositive(|Missing(cfg, c, rs[0])|, cfg.budget);
    }
  }
}
