/**
 The LOD pyramid over signed chunk space: octree topology by floor division, the chain of nodes that
 one chunk edit touches, and why re-hashing that chain is enough.
 */
module Lod {
  import opened Arithmetic
  import opened Bytes
  import opened LodHash
  import StoreKeys
  import Scans

  const TOP_LEVEL: nat := 28

  datatype NodeKey = NodeKey(level: nat, x: int, y: int, z: int)
  {
    predicate InWord() { level < 256 && IsInt32(x) && IsInt32(y) && IsInt32(z) }
  }

  function KeyForChunk(cx: int, cy: int, cz: int): NodeKey {
    NodeKey(0, cx, cy, cz)
  }

  /** Halves rounding down, as an arithmetic shift does. */
  function FloorHalf(v: int): int { v / 2 }

  function Parent(k: NodeKey): Option<NodeKey> {
    if k.level >= TOP_LEVEL then None
    else Some(NodeKey(k.level + 1, FloorHalf(k.x), FloorHalf(k.y), FloorHalf(k.z)))
  }

  /** The low coordinate bits: x, then y, then z. */
  function OctantOf(k: NodeKey): (o: nat)
    ensures o < 8
  {
    k.x % 2 + 2 * (k.y % 2) + 4 * (k.z % 2)
  }

  function Child(k: NodeKey, octant: nat): Option<NodeKey> {
    if k.level == 0 || octant > 7 then None
    else Some(NodeKey(k.level - 1, k.x * 2 + octant % 2, k.y * 2 + octant / 2 % 2, k.z * 2 + octant / 4 % 2))
  }

  /** Every node is the child of its parent in its octant, and of no other. */
  lemma ChildOfParent(k: NodeKey)
    requires k.level < TOP_LEVEL
    ensures Child(Parent(k).value, OctantOf(k)) == Some(k)
  {
  }

  lemma ParentOfChild(k: NodeKey, octant: nat)
    requires 0 < k.level <= TOP_LEVEL && octant <= 7
    ensures var c := Child(k, octant).value; Parent(c) == Some(k) && OctantOf(c) == octant
  {
  }

  /** Bit 0 of the octant is the upper half along x, bit 1 along y, bit 2 along z. */
  lemma ChildHalves(k: NodeKey, octant: nat)
    requires k.level > 0 && octant <= 7
    ensures var c := Child(k, octant).value;
            && c.level == k.level - 1
            && c.x == 2 * k.x + (if octant in {1, 3, 5, 7} then 1 else 0)
            && c.y == 2 * k.y + (if octant in {2, 3, 6, 7} then 1 else 0)
            && c.z == 2 * k.z + (if octant in {4, 5, 6, 7} then 1 else 0)
  {
    assert octant == octant % 2 + 2 * (octant / 2 % 2) + 4 * (octant / 4);
  }

  /* ----- which chunks a node covers ----- */

  predicate CoversAxis(n: int, size: nat, c: int) {
    n * size <= c < n * size + size
  }

  /** A level-L node covers 2^L chunks on each axis. */
  predicate Covers(k: NodeKey, c: NodeKey) {
    var size := Pow(2, k.level);
    CoversAxis(k.x, size, c.x) && CoversAxis(k.y, size, c.y) && CoversAxis(k.z, size, c.z)
  }

  lemma AxisUnique(m: int, n: int, size: nat, c: int)
    requires size > 0 && CoversAxis(m, size, c) && CoversAxis(n, size, c)
    ensures m == n
  {
    Apart(m, n, size);
    Apart(n, m, size);
  }

  lemma Spread(m: int, d: nat, size: nat)
    ensures (m + 1 + d) * size == m * size + size + d * size && d * size >= 0
  {
  }

  lemma Apart(m: int, n: int, size: nat)
    ensures m < n ==> m * size + size <= n * size
  {
    if m < n {
      Spread(m, n - m - 1, size);
    }
  }

  /** At each level exactly one node covers a chunk. */
  lemma CoversUnique(j: NodeKey, k: NodeKey, c: NodeKey)
    requires j.level == k.level && Covers(j, c) && Covers(k, c)
    ensures j == k
  {
    var size := Pow(2, k.level);
    AxisUnique(j.x, k.x, size, c.x);
    AxisUnique(j.y, k.y, size, c.y);
    AxisUnique(j.z, k.z, size, c.z);
  }

  lemma HalfCovers(n: int, size: nat, c: int)
    requires CoversAxis(n, size, c)
    ensures CoversAxis(FloorHalf(n), 2 * size, c)
  {
    var m := FloorHalf(n);
    assert n == 2 * m || n == 2 * m + 1;
    assert (2 * m) * size == m * (2 * size) && (2 * m + 1) * size == m * (2 * size) + size;
  }

  lemma ParentCovers(k: NodeKey, c: NodeKey)
    requires k.level < TOP_LEVEL && Covers(k, c)
    ensures Covers(Parent(k).value, c)
  {
    var size := Pow(2, k.level);
    assert Pow(2, k.level + 1) == 2 * size;
    HalfCovers(k.x, size, c.x);
    HalfCovers(k.y, size, c.y);
    HalfCovers(k.z, size, c.z);
  }

  /* ----- the dirty chain ----- */

  ghost predicate IsChain(chain: seq<NodeKey>, c: NodeKey) {
    forall i :: 0 <= i < |chain| ==> chain[i].level == i && Covers(chain[i], c)
  }

  /** The level-0 node of a chunk and every ancestor up to its root. */
  method DirtyChain(cx: int, cy: int, cz: int) returns (chain: seq<NodeKey>)
    ensures |chain| == TOP_LEVEL + 1 && IsChain(chain, KeyForChunk(cx, cy, cz))
  {
    var k := KeyForChunk(cx, cy, cz);
    chain := [k];
    var p := Parent(k);
    assert Pow(2, 0) == 1;
    while p.Some?
      invariant |chain| == k.level + 1 && k.level <= TOP_LEVEL && k == chain[k.level] && p == Parent(k)
      invariant IsChain(chain, KeyForChunk(cx, cy, cz))
      decreases TOP_LEVEL - k.level
    {
      ParentCovers(k, KeyForChunk(cx, cy, cz));
      chain := chain + [p.value];
      k := p.value;
      p := Parent(k);
    }
  }

  /** The chain is exactly the nodes whose box contains the chunk. */
  lemma ChainIsCoveringNodes(chain: seq<NodeKey>, c: NodeKey, k: NodeKey)
    requires |chain| == TOP_LEVEL + 1 && IsChain(chain, c)
    ensures k in chain <==> k.level <= TOP_LEVEL && Covers(k, c)
  {
    if k.level <= TOP_LEVEL && Covers(k, c) {
      CoversUnique(k, chain[k.level], c);
    }
  }

  lemma RootAxis(n: int, size: nat, c: int)
    requires size > 0 && CoversAxis(n, size, c) && 0 <= c + size < 2 * size
    ensures n == -1 || n == 0
  {
    if c < 0 {
      AxisUnique(n, -1, size, c);
    } else {
      AxisUnique(n, 0, size, c);
    }
  }

  /** From -2^28 up to 2^28. */
  predicate InDomain(c: int) {
    -0x1000_0000 <= c < 0x1000_0000
  }

  lemma TopSize()
    ensures Pow(2, TOP_LEVEL) == 0x1000_0000
  {
    assert Pow(2, 7) == 128;
    PowMul(2, 7, 4);
    assert Pow(128, 2) == 16384;
    PowAdd(128, 2, 2);
  }

  /** Within 2^28 chunks of the origin every chain ends in one of the eight sign-octant roots. */
  lemma ChainEndsInRoot(chain: seq<NodeKey>, c: NodeKey)
    requires |chain| == TOP_LEVEL + 1 && IsChain(chain, c)
    requires InDomain(c.x) && InDomain(c.y) && InDomain(c.z)
    ensures var root := chain[TOP_LEVEL];
            (root.x == -1 || root.x == 0) && (root.y == -1 || root.y == 0) && (root.z == -1 || root.z == 0)
  {
    var root, bound := chain[TOP_LEVEL], Pow(2, TOP_LEVEL);
    TopSize();
    RootAxis(root.x, bound, c.x);
    RootAxis(root.y, bound, c.y);
    RootAxis(root.z, bound, c.z);
  }

  /* ----- the pyramid of hashes ----- */

  /** Hashes of the chunks that exist, by level-0 node. */
  type Leaves = map<NodeKey, u64>

  function Lookup(nodes: map<NodeKey, u64>, k: NodeKey): Option<u64> {
    if k in nodes then Some(nodes[k]) else None
  }

  /** An interior node exists if a child does; its hash is the hash of its children. */
  function FromChildren(level: byte, cs: Children): Option<u64> {
    if forall i :: 0 <= i < 8 ==> cs[i].None? then None else Some(ParentHash(level, cs))
  }

  /** The hash of a node of the pyramid built from scratch. */
  ghost function Rebuilt(leaves: Leaves, k: NodeKey): Option<u64>
    requires k.level <= TOP_LEVEL
    decreases k.level
  {
    if k.level == 0 then Lookup(leaves, k)
    else FromChildren(k.level, seq(8, o requires 0 <= o < 8 => Rebuilt(leaves, Child(k, o).value)))
  }

  /** A stored pyramid holds exactly what a rebuild would. */
  ghost predicate Consistent(nodes: map<NodeKey, u64>, leaves: Leaves) {
    forall k: NodeKey :: k.level <= TOP_LEVEL ==> Lookup(nodes, k) == Rebuilt(leaves, k)
  }

  /** Leaves that differ at most in one chunk. */
  ghost predicate OneEdit(leaves: Leaves, leaves': Leaves, c: NodeKey) {
    forall k: NodeKey :: k != c ==> Lookup(leaves, k) == Lookup(leaves', k)
  }

  lemma ChildCovers(k: NodeKey, o: nat, c: NodeKey)
    requires 0 < k.level <= TOP_LEVEL && o < 8 && Covers(Child(k, o).value, c)
    ensures Covers(k, c)
  {
    ParentOfChild(k, o);
    ParentCovers(Child(k, o).value, c);
  }

  lemma LeafCovers(k: NodeKey)
    requires k.level == 0
    ensures Covers(k, k)
  {
    assert Pow(2, 0) == 1;
  }

  /** Nodes that do not contain the edited chunk keep their hash. */
  lemma {:induction false} OthersKeepTheirHash(leaves: Leaves, leaves': Leaves, c: NodeKey, k: NodeKey)
    requires OneEdit(leaves, leaves', c) && k.level <= TOP_LEVEL && !Covers(k, c)
    ensures Rebuilt(leaves, k) == Rebuilt(leaves', k)
    decreases k.level
  {
    if k.level == 0 {
      LeafCovers(k);
    } else {
      forall o | 0 <= o < 8
        ensures Rebuilt(leaves, Child(k, o).value) == Rebuilt(leaves', Child(k, o).value)
      {
        if Covers(Child(k, o).value, c) {
          ChildCovers(k, o, c);
        }
        OthersKeepTheirHash(leaves, leaves', c, Child(k, o).value);
      }
      SameChildren(leaves, leaves', k);
    }
  }

  lemma SameChildren(leaves: Leaves, leaves': Leaves, k: NodeKey)
    requires 0 < k.level <= TOP_LEVEL
    requires forall o :: 0 <= o < 8 ==> Rebuilt(leaves, Child(k, o).value) == Rebuilt(leaves', Child(k, o).value)
    ensures Rebuilt(leaves, k) == Rebuilt(leaves', k)
  {
    assert seq(8, o requires 0 <= o < 8 => Rebuilt(leaves, Child(k, o).value)) ==
        seq(8, o requires 0 <= o < 8 => Rebuilt(leaves', Child(k, o).value));
  }

  /** The hash of one node from its stored children. */
  function Rehashed(nodes: map<NodeKey, u64>, leaves: Leaves, k: NodeKey): Option<u64>
    requires k.level <= TOP_LEVEL
  {
    if k.level == 0 then Lookup(leaves, k)
    else FromChildren(k.level, seq(8, o requires 0 <= o < 8 => Lookup(nodes, Child(k, o).value)))
  }

  function Store(nodes: map<NodeKey, u64>, k: NodeKey, h: Option<u64>): map<NodeKey, u64> {
    if h.Some? then nodes[k := h.value] else nodes - {k}
  }

  /** Re-hashes the nodes of a chain in order, each from the children stored at that moment. */
  function RehashChain(nodes: map<NodeKey, u64>, leaves: Leaves, chain: seq<NodeKey>): map<NodeKey, u64>
    requires forall k :: k in chain ==> k.level <= TOP_LEVEL
    decreases |chain|
  {
    if chain == [] then nodes
    else
      var n := |chain| - 1;
      var before := RehashChain(nodes, leaves, chain[..n]);
      Store(before, chain[n], Rehashed(before, leaves, chain[n]))
  }

  /** Below level n everything is as rebuilt; above it only nodes that contain the chunk lag behind. */
  ghost predicate UpToLevel(nodes: map<NodeKey, u64>, leaves': Leaves, c: NodeKey, n: nat) {
    forall k: NodeKey :: k.level <= TOP_LEVEL && (k.level < n || !Covers(k, c)) ==>
        Lookup(nodes, k) == Rebuilt(leaves', k)
  }

  lemma RehashedIsRebuilt(nodes: map<NodeKey, u64>, leaves': Leaves, c: NodeKey, k: NodeKey)
    requires k.level <= TOP_LEVEL && UpToLevel(nodes, leaves', c, k.level)
    ensures Rehashed(nodes, leaves', k) == Rebuilt(leaves', k)
  {
    if k.level > 0 {
      forall o | 0 <= o < 8
        ensures Lookup(nodes, Child(k, o).value) == Rebuilt(leaves', Child(k, o).value)
      {
        assert Child(k, o).value.level < k.level;
      }
      assert seq(8, o requires 0 <= o < 8 => Lookup(nodes, Child(k, o).value)) ==
          seq(8, o requires 0 <= o < 8 => Rebuilt(leaves', Child(k, o).value));
    }
  }

  lemma NextLevel(nodes: map<NodeKey, u64>, leaves': Leaves, c: NodeKey, k: NodeKey)
    requires k.level <= TOP_LEVEL && UpToLevel(nodes, leaves', c, k.level) && Covers(k, c)
    ensures UpToLevel(Store(nodes, k, Rehashed(nodes, leaves', k)), leaves', c, k.level + 1)
  {
    RehashedIsRebuilt(nodes, leaves', c, k);
    var nodes' := Store(nodes, k, Rehashed(nodes, leaves', k));
    forall j: NodeKey | j.level <= TOP_LEVEL && (j.level < k.level + 1 || !Covers(j, c))
      ensures Lookup(nodes', j) == Rebuilt(leaves', j)
    {
      if j != k {
        assert Lookup(nodes', j) == Lookup(nodes, j);
        if j.level == k.level && Covers(j, c) {
          CoversUnique(j, k, c);
        }
      }
    }
  }

  lemma EditLags(nodes: map<NodeKey, u64>, leaves: Leaves, leaves': Leaves, c: NodeKey)
    requires Consistent(nodes, leaves) && OneEdit(leaves, leaves', c)
    ensures UpToLevel(nodes, leaves', c, 0)
  {
    forall k: NodeKey | k.level <= TOP_LEVEL && !Covers(k, c)
      ensures Lookup(nodes, k) == Rebuilt(leaves', k)
    {
      OthersKeepTheirHash(leaves, leaves', c, k);
    }
  }

  lemma {:induction false} ChainCatchesUp(nodes: map<NodeKey, u64>, leaves: Leaves, leaves': Leaves,
                                          c: NodeKey, chain: seq<NodeKey>)
    requires Consistent(nodes, leaves) && OneEdit(leaves, leaves', c)
    requires |chain| <= TOP_LEVEL + 1 && IsChain(chain, c)
    ensures UpToLevel(RehashChain(nodes, leaves', chain), leaves', c, |chain|)
    decreases |chain|
  {
    if chain == [] {
      EditLags(nodes, leaves, leaves', c);
    } else {
      var n := |chain| - 1;
      ChainCatchesUp(nodes, leaves, leaves', c, chain[..n]);
      ChainNext(nodes, leaves', c, chain, RehashChain(nodes, leaves', chain[..n]));
    }
  }

  lemma ChainNext(nodes: map<NodeKey, u64>, leaves': Leaves, c: NodeKey, chain: seq<NodeKey>,
                  before: map<NodeKey, u64>)
    requires 0 < |chain| <= TOP_LEVEL + 1 && IsChain(chain, c)
    requires before == RehashChain(nodes, leaves', chain[..|chain| - 1])
    requires UpToLevel(before, leaves', c, |chain| - 1)
    ensures UpToLevel(RehashChain(nodes, leaves', chain), leaves', c, |chain|)
  {
    var k := chain[|chain| - 1];
    LastIsRehashed(nodes, leaves', chain, k, before);
    NextLevel(before, leaves', c, k);
  }

  lemma LastIsRehashed(nodes: map<NodeKey, u64>, leaves': Leaves, chain: seq<NodeKey>, k: NodeKey,
                       before: map<NodeKey, u64>)
    requires (forall j :: j in chain ==> j.level <= TOP_LEVEL) && chain != [] && k == chain[|chain| - 1]
    requires before == RehashChain(nodes, leaves', chain[..|chain| - 1])
    ensures RehashChain(nodes, leaves', chain) == Store(before, k, Rehashed(before, leaves', k))
  {
  }

  /** After an edit of one chunk, re-hashing its dirty chain gives the pyramid that a rebuild would give. */
  lemma RehashEqualsRebuild(nodes: map<NodeKey, u64>, leaves: Leaves, leaves': Leaves, c: NodeKey,
                            chain: seq<NodeKey>)
    requires Consistent(nodes, leaves) && OneEdit(leaves, leaves', c)
    requires |chain| == TOP_LEVEL + 1 && IsChain(chain, c)
    ensures Consistent(RehashChain(nodes, leaves', chain), leaves')
  {
    ChainCatchesUp(nodes, leaves, leaves', c, chain);
  }

  /* ----- storage keys ----- */

  function StorageKey(k: NodeKey): (b: StoreKeys.Key)
    requires k.InWord()
    ensures |b| == 13
  {
    [k.level] + (StoreKeys.CoordBytes(k.x) + StoreKeys.CoordBytes(k.y) + StoreKeys.CoordBytes(k.z))
  }

  method WriteStorageKey(k: NodeKey) returns (out: array<byte>)
    requires k.InWord()
    ensures fresh(out) && out[..] == StorageKey(k)
  {
    out := new byte[13](_ => 0);
    out[0] := k.level;
    StoreKeys.PutCoord(out, 1, k.x);
    StoreKeys.PutCoord(out, 5, k.y);
    StoreKeys.PutCoord(out, 9, k.z);
  }

  /** (level, x, y, z) order. */
  predicate Before(j: NodeKey, k: NodeKey) {
    j.level < k.level || (j.level == k.level &&
                          StoreKeys.ChunkKey(j.x, j.y, j.z).Before(StoreKeys.ChunkKey(k.x, k.y, k.z)))
  }

  /** Byte order of storage keys is numeric (level, x, y, z) order, and keys are distinct. */
  lemma StorageKeyOrder(j: NodeKey, k: NodeKey)
    requires j.InWord() && k.InWord()
    ensures StoreKeys.Less(StorageKey(j), StorageKey(k)) <==> Before(j, k)
    ensures StorageKey(j) == StorageKey(k) ==> j == k
  {
    var a, b := StoreKeys.ChunkKey(j.x, j.y, j.z), StoreKeys.ChunkKey(k.x, k.y, k.z);
    StoreKeys.ChunkKeyOrder(a, b);
    assert StorageKey(j)[0] == j.level && StorageKey(j)[1..] == StoreKeys.ChunkStoreKey(a);
    assert StorageKey(k)[0] == k.level && StorageKey(k)[1..] == StoreKeys.ChunkStoreKey(b);
  }

  /** A one-byte prefix scan selects one level of the pyramid. */
  lemma LevelIsPrefix(k: NodeKey, level: byte)
    requires k.InWord()
    ensures Scans.HasPrefix(StorageKey(k), [level]) <==> k.level == level
  {
    assert StorageKey(k)[..1] == [k.level];
    if k.level != level {
      assert StorageKey(k)[..1][0] != [level][0];
    }
  }

  /** Scans of LOD nodes come out in (level, x, y, z) order. */
  lemma NodeScanIsNumeric(s: set<StoreKeys.Key>, i: nat, j: nat, k: NodeKey, l: NodeKey)
    requires i < j < |Scans.Listing(s)| && k.InWord() && l.InWord()
    requires Scans.Listing(s)[i] == StorageKey(k) && Scans.Listing(s)[j] == StorageKey(l)
    ensures Before(k, l)
  {
    Scans.ListingIsOrdered(s);
    StorageKeyOrder(k, l);
  }
}
