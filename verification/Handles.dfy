/**
 Entity handles: generation-checked slots, kept consistent with the whole history of handles issued
 and released, and the index between persistent UUIDs and live handles.
 */
module Handles {
  import opened Bytes
  import StoreKeys

  const INVALID_HANDLE := 0xFFFF_FFFF_FFFF_FFFF
  const NULL_INDEX := 0xFFFF_FFFF
  const WRAP := 0x1_0000_0000

  /** Generation in the high half, index in the low. */
  function MakeHandle(index: u32, generation: u32): u64 {
    generation * WRAP + index
  }

  function HandleIndex(h: u64): u32 { h % WRAP }

  function HandleGeneration(h: u64): u32 { h / WRAP }

  /** The all-ones index is the null value at every generation. */
  predicate HandleValid(h: u64) {
    HandleIndex(h) != NULL_INDEX
  }

  /** Packing loses nothing, and the halves determine the handle. */
  lemma HandleFields(index: u32, generation: u32)
    ensures HandleIndex(MakeHandle(index, generation)) == index
    ensures HandleGeneration(MakeHandle(index, generation)) == generation
    ensures MakeHandle(index, generation) % 0x1_0000_0000 == index
    ensures MakeHandle(index, generation) / 0x1_0000_0000 == generation
    ensures forall h: u64 :: HandleIndex(h) == index && HandleGeneration(h) == generation ==>
        h == MakeHandle(index, generation)
  {
  }

  /* ----- slots ----- */

  /** What has happened to one slot: how often it was released, and whether it is held now. */
  datatype Slot = Slot(releases: nat, live: bool)
  {
    /** The generation field wraps around. */
    function Generation(): u32 { releases % WRAP }
    predicate Issued(generation: u32) { generation < releases + (if live then 1 else 0) }
    predicate Released(generation: u32) { generation < releases }
  }

  ghost predicate HasSlot(first: nat, slots: seq<Slot>, h: u64) {
    first <= HandleIndex(h) < first + |slots|
  }

  ghost function SlotFor(first: nat, slots: seq<Slot>, h: u64): Slot
    requires HasSlot(first, slots, h)
  {
    slots[HandleIndex(h) - first]
  }

  /** The free list is exactly the dead slots, each once. */
  ghost predicate FreeListIsDeadSlots(first: nat, live: seq<bool>, free: seq<nat>) {
    && (forall i, j :: 0 <= i < j < |free| ==> free[i] != free[j])
    && (forall x :: x in free ==> first <= x < first + |live| && !live[x - first])
    && (forall s :: 0 <= s < |live| && !live[s] ==> first + s in free)
  }

  ghost predicate FieldsAreSlots(generation: seq<u32>, live: seq<bool>, slots: seq<Slot>) {
    && |generation| == |live| == |slots|
    && forall s :: 0 <= s < |slots| ==> generation[s] == slots[s].Generation() && live[s] == slots[s].live
  }

  lemma ReleaseOfFields(generation: seq<u32>, live: seq<bool>, slots: seq<Slot>, s: nat)
    requires FieldsAreSlots(generation, live, slots) && s < |slots|
    ensures FieldsAreSlots(generation[s := (generation[s] + 1) % WRAP], live[s := false],
                           slots[s := Slot(slots[s].releases + 1, false)])
  {
  }

  /** The handles issued and released so far, slot by slot. */
  ghost predicate HistoryIsSlots(first: nat, slots: seq<Slot>, issued: set<u64>, released: set<u64>) {
    && (forall h: u64 :: h in issued <==>
        HasSlot(first, slots, h) && SlotFor(first, slots, h).Issued(HandleGeneration(h)))
    && (forall h: u64 :: h in released <==>
        HasSlot(first, slots, h) && SlotFor(first, slots, h).Released(HandleGeneration(h)))
  }

  lemma LastIsTaken(first: nat, live: seq<bool>, free: seq<nat>)
    requires FreeListIsDeadSlots(first, live, free) && free != []
    ensures var x := free[|free| - 1];
            && first <= x < first + |live| && !live[x - first]
            && FreeListIsDeadSlots(first, live[x - first := true], free[..|free| - 1])
  {
    var n := |free| - 1;
    var x := free[n];
    assert x in free;
    assert free == free[..n] + [x];
    forall y | y in free[..n]
      ensures y in free && y != x
    {
    }
  }

  lemma DeadIsAdded(first: nat, live: seq<bool>, free: seq<nat>, s: nat)
    requires FreeListIsDeadSlots(first, live, free) && s < |live| && live[s]
    ensures FreeListIsDeadSlots(first, live[s := false], free + [first + s])
  {
    var free' := free + [first + s];
    forall i | 0 <= i < |free|
      ensures free[i] != first + s
    {
      assert free[i] in free;
    }
    assert free'[|free|] == first + s;
    var live' := live[s := false];
    forall t | 0 <= t < |live'| && !live'[t]
      ensures first + t in free'
    {
      if t != s {
        assert first + t in free;
      }
    }
  }

  lemma LiveIsAdded(first: nat, live: seq<bool>, free: seq<nat>)
    requires FreeListIsDeadSlots(first, live, free)
    ensures FreeListIsDeadSlots(first, live + [true], free)
  {
  }

  lemma OneHandle(first: nat, slots: seq<Slot>, s: nat, h: u64, x: u64)
    requires s < |slots| && first + s < WRAP && h == MakeHandle(first + s, slots[s].Generation())
    ensures x == h <==> HandleIndex(x) == first + s && HandleGeneration(x) == slots[s].Generation()
  {
    HandleFields(first + s, slots[s].Generation());
  }

  /** Reissuing a dead slot repeats a handle exactly when the slot was released 2^32 times. */
  lemma ReissueHistory(first: nat, slots: seq<Slot>, issued: set<u64>, released: set<u64>, s: nat, h: u64)
    requires HistoryIsSlots(first, slots, issued, released)
    requires s < |slots| && !slots[s].live && first + s < WRAP && h == MakeHandle(first + s, slots[s].Generation())
    ensures HistoryIsSlots(first, slots[s := Slot(slots[s].releases, true)], issued + {h}, released)
    ensures h in issued <==> slots[s].releases >= WRAP
  {
    var slots' := slots[s := Slot(slots[s].releases, true)];
    OneHandle(first, slots, s, h, h);
    forall x: u64
      ensures x in issued + {h} <==> HasSlot(first, slots', x) && SlotFor(first, slots', x).Issued(HandleGeneration(x))
    {
      OneHandle(first, slots, s, h, x);
    }
  }

  lemma ReleaseHistory(first: nat, slots: seq<Slot>, issued: set<u64>, released: set<u64>, s: nat, h: u64)
    requires HistoryIsSlots(first, slots, issued, released)
    requires s < |slots| && slots[s].live && first + s < WRAP && h == MakeHandle(first + s, slots[s].Generation())
    ensures HistoryIsSlots(first, slots[s := Slot(slots[s].releases + 1, false)], issued, released + {h})
  {
    var slots' := slots[s := Slot(slots[s].releases + 1, false)];
    forall x: u64
      ensures x in released + {h} <==>
          HasSlot(first, slots', x) && SlotFor(first, slots', x).Released(HandleGeneration(x))
    {
      OneHandle(first, slots, s, h, x);
    }
  }

  lemma GrowHistory(first: nat, slots: seq<Slot>, issued: set<u64>, released: set<u64>, h: u64)
    requires HistoryIsSlots(first, slots, issued, released)
    requires first + |slots| < WRAP && h == MakeHandle(first + |slots|, 0)
    ensures HistoryIsSlots(first, slots + [Slot(0, true)], issued + {h}, released) && h !in issued
  {
    var slots' := slots + [Slot(0, true)];
    HandleFields(first + |slots|, 0);
    forall x: u64
      ensures x in issued + {h} <==> HasSlot(first, slots', x) && SlotFor(first, slots', x).Issued(HandleGeneration(x))
    {
      OneHandle(first, slots', |slots|, h, x);
    }
  }

  class EntitySlotAllocator {
    const firstIndex: u32
    var nextIndex: nat
    var generation: seq<u32>
    var live: seq<bool>
    var free: seq<nat>
    ghost var slots: seq<Slot>
    ghost var issued: set<u64>
    ghost var released: set<u64>

    /** The fields record every slot, and the slots the whole history. */
    ghost predicate Valid()
      reads this
    {
      && FieldsAreSlots(generation, live, slots)
      && nextIndex == firstIndex + |slots| <= NULL_INDEX
      && FreeListIsDeadSlots(firstIndex, live, free)
      && HistoryIsSlots(firstIndex, slots, issued, released)
    }

    /** No slot has been released 2^32 times. */
    ghost predicate NoWrap()
      reads this
    {
      forall s :: 0 <= s < |slots| ==> slots[s].releases < WRAP
    }

    constructor (firstIndex: u32)
      ensures Valid() && issued == {} && released == {} && this.firstIndex == firstIndex && slots == []
    {
      this.firstIndex := firstIndex;
      nextIndex := firstIndex;
      generation, live, free := [], [], [];
      slots, issued, released := [], {}, {};
    }

    /** The code's liveness test: index in range, slot held, generation current. */
    predicate LiveHandle(h: u64)
      reads this
      requires |live| == |generation|
    {
      && HandleValid(h) && firstIndex <= HandleIndex(h)
      && var s := HandleIndex(h) - firstIndex;
      && s < |generation| && live[s] && generation[s] == HandleGeneration(h)
    }

    lemma LiveIsIssuedNotReleased(h: u64)
      requires Valid() && NoWrap()
      ensures LiveHandle(h) <==> h in issued && h !in released
    {
    }

    /** A handle is live exactly when it was issued and not yet released. */
    method IsLive(h: u64) returns (r: bool)
      requires Valid()
      ensures r <==> LiveHandle(h)
      ensures NoWrap() ==> (r <==> h in issued && h !in released)
    {
      if NoWrap() {
        LiveIsIssuedNotReleased(h);
      }
      r := LiveHandle(h);
    }

    /** The slot freed last, or a new one if none is free. Only a slot released 2^32 times can repeat a handle. */
    method Allocate() returns (h: u64)
      requires Valid()
      modifies this
      ensures Valid()
      ensures h == INVALID_HANDLE <==> old(free) == [] && old(nextIndex) == NULL_INDEX
      ensures h == INVALID_HANDLE ==> slots == old(slots) && issued == old(issued)
      ensures h != INVALID_HANDLE ==> LiveHandle(h) && !old(LiveHandle(h)) && issued == old(issued) + {h}
      ensures old(NoWrap()) ==> NoWrap() && (h != INVALID_HANDLE ==> h !in old(issued))
      ensures h != INVALID_HANDLE && h in old(issued) ==> SlotFor(firstIndex, slots, h).releases >= WRAP
      ensures released == old(released)
      ensures old(free) != [] ==>
          var n := |old(free)| - 1; HandleIndex(h) == old(free)[n] && free == old(free)[..n]
      ensures old(free) == [] && h != INVALID_HANDLE ==>
          HandleIndex(h) == old(nextIndex) && HandleGeneration(h) == 0 && free == []
    {
      if free != [] {
        h := Reuse();
        return;
      }
      if nextIndex == NULL_INDEX {
        return INVALID_HANDLE;
      }
      h := Grow();
    }

    /** Takes the last slot of the free list. */
    method Reuse() returns (h: u64)
      requires Valid() && free != []
      modifies this
      ensures Valid() && LiveHandle(h) && !old(LiveHandle(h))
      ensures issued == old(issued) + {h} && released == old(released)
      ensures h in old(issued) <==> SlotFor(firstIndex, slots, h).releases >= WRAP
      ensures old(NoWrap()) ==> NoWrap()
      ensures var n := |old(free)| - 1; HandleIndex(h) == old(free)[n] && free == old(free)[..n]
    {
      LastIsTaken(firstIndex, live, free);
      var index := free[|free| - 1];
      var s := index - firstIndex;
      h := MakeHandle(index, generation[s]);
      HandleFields(index, generation[s]);
      ReissueHistory(firstIndex, slots, issued, released, s, h);
      free := free[..|free| - 1];
      live := live[s := true];
      slots := slots[s := Slot(slots[s].releases, true)];
      issued := issued + {h};
    }

    /** Opens a slot that has no history. */
    method Grow() returns (h: u64)
      requires Valid() && nextIndex < NULL_INDEX
      modifies this
      ensures Valid() && LiveHandle(h) && !old(LiveHandle(h)) && free == old(free)
      ensures issued == old(issued) + {h} && released == old(released)
      ensures h !in old(issued)
      ensures old(NoWrap()) ==> NoWrap()
      ensures HandleIndex(h) == old(nextIndex) && HandleGeneration(h) == 0
    {
      var index := nextIndex;
      h := MakeHandle(index, 0);
      HandleFields(index, 0);
      GrowHistory(firstIndex, slots, issued, released, h);
      LiveIsAdded(firstIndex, live, free);
      nextIndex := nextIndex + 1;
      generation := generation + [0];
      live := live + [true];
      slots := slots + [Slot(0, true)];
      issued := issued + {h};
    }

    /** Ends a live handle's life; anything else is refused. The generation moves on here. */
    method Release(h: u64) returns (ok: bool)
      requires Valid()
      modifies this
      ensures Valid()
      ensures ok <==> old(LiveHandle(h))
      ensures !ok ==> slots == old(slots) && issued == old(issued) && released == old(released)
      ensures ok ==> issued == old(issued) && released == old(released) + {h} && !LiveHandle(h)
      ensures free == if ok then old(free) + [HandleIndex(h)] else old(free)
    {
      if !LiveHandle(h) {
        return false;
      }
      var s := HandleIndex(h) - firstIndex;
      HandleFields(HandleIndex(h), HandleGeneration(h));
      ReleaseHistory(firstIndex, slots, issued, released, s, h);
      DeadIsAdded(firstIndex, live, free, s);
      ReleaseOfFields(generation, live, slots, s);
      live := live[s := false];
      generation := generation[s := (generation[s] + 1) % WRAP];
      free := free + [HandleIndex(h)];
      slots := slots[s := Slot(slots[s].releases + 1, false)];
      released := released + {h};
      return true;
    }
  }

  /* ----- persistent ids ----- */

  type Uuid = u: seq<byte> | |u| == 16 witness [0, 0, 0, 0, 0, 0, 0, 0, 0, 0, 0, 0, 0, 0, 0, 0]

  /** Byte order of UUIDs, which is creation order for version 7. */
  method UuidLess(a: Uuid, b: Uuid) returns (r: bool)
    ensures r <==> StoreKeys.Less(a, b)
  {
    for i := 0 to 16
      invariant a[..i] == b[..i]
    {
      if a[i] != b[i] {
        FirstDifference(a, b, i);
        return a[i] < b[i];
      }
      assert a[..i + 1] == a[..i] + [a[i]] && b[..i + 1] == b[..i] + [b[i]];
    }
    assert a[..16] == a && b[..16] == b;
    StoreKeys.LessIrreflexive(a);
    return false;
  }

  lemma FirstDifference(a: Uuid, b: Uuid, i: nat)
    requires i < 16 && a[..i] == b[..i] && a[i] != b[i]
    ensures StoreKeys.Less(a, b) <==> a[i] < b[i]
  {
    assert a == a[..i] + a[i..] && b == b[..i] + b[i..];
    StoreKeys.LessConcat(a[..i], a[i..], b[..i], b[i..]);
    StoreKeys.LessIrreflexive(a[..i]);
  }

  class UuidIndex {
    var byUuid: map<Uuid, u64>
    var byHandle: map<u64, Uuid>

    /** The two maps are inverse to each other, and hold valid handles. */
    ghost predicate Valid()
      reads this
    {
      && (forall u :: u in byUuid ==> byUuid[u] in byHandle && byHandle[byUuid[u]] == u)
      && (forall h :: h in byHandle ==> HandleValid(h) && byHandle[h] in byUuid && byUuid[byHandle[h]] == h)
    }

    constructor ()
      ensures Valid() && byUuid == map[] && byHandle == map[]
    {
      byUuid, byHandle := map[], map[];
    }

    /** Refused if either side is already bound. */
    method Bind(uuid: Uuid, h: u64) returns (ok: bool)
      requires Valid()
      modifies this
      ensures Valid()
      ensures ok <==> HandleValid(h) && uuid !in old(byUuid) && h !in old(byHandle)
      ensures byUuid == if ok then old(byUuid)[uuid := h] else old(byUuid)
      ensures byHandle == if ok then old(byHandle)[h := uuid] else old(byHandle)
    {
      if !HandleValid(h) || uuid in byUuid || h in byHandle {
        return false;
      }
      byUuid := byUuid[uuid := h];
      byHandle := byHandle[h := uuid];
      return true;
    }

    method Unbind(h: u64) returns (ok: bool)
      requires Valid()
      modifies this
      ensures Valid()
      ensures ok <==> h in old(byHandle)
      ensures byHandle == old(byHandle) - {h}
      ensures byUuid == if ok then old(byUuid) - {old(byHandle)[h]} else old(byUuid)
    {
      if h !in byHandle {
        return false;
      }
      byUuid := byUuid - {byHandle[h]};
      byHandle := byHandle - {h};
      return true;
    }

    /** The handle bound to a UUID, unless it is dead. */
    function Resolved(uuid: Uuid, alloc: EntitySlotAllocator): u64
      requires |alloc.live| == |alloc.generation|
      reads this, alloc
    {
      if uuid !in byUuid || !alloc.LiveHandle(byUuid[uuid]) then INVALID_HANDLE else byUuid[uuid]
    }

    /** The UUID bound to a handle, unless it is dead. */
    function UuidFor(h: u64, alloc: EntitySlotAllocator): Option<Uuid>
      requires |alloc.live| == |alloc.generation|
      reads this, alloc
    {
      if !alloc.LiveHandle(h) || h !in byHandle then None else Some(byHandle[h])
    }

    /** The two resolve paths never disagree, and neither answers with a dead handle. */
    lemma PathsAgree(uuid: Uuid, h: u64, alloc: EntitySlotAllocator)
      requires Valid() && alloc.Valid()
      ensures Resolved(uuid, alloc) == h && h != INVALID_HANDLE <==> UuidFor(h, alloc) == Some(uuid)
      ensures UuidFor(h, alloc).Some? ==> alloc.LiveHandle(h) && h in alloc.issued
      ensures alloc.NoWrap() && UuidFor(h, alloc).Some? ==> h !in alloc.released
    {
      assert !HandleValid(INVALID_HANDLE);
      if alloc.NoWrap() {
        alloc.LiveIsIssuedNotReleased(h);
      }
    }

    method Resolve(uuid: Uuid, alloc: EntitySlotAllocator) returns (h: u64)
      requires Valid() && alloc.Valid()
      ensures h == Resolved(uuid, alloc)
      ensures h != INVALID_HANDLE ==> UuidFor(h, alloc) == Some(uuid)
    {
      PathsAgree(uuid, Resolved(uuid, alloc), alloc);
      if uuid !in byUuid {
        return INVALID_HANDLE;
      }
      var alive := alloc.IsLive(byUuid[uuid]);
      if !alive {
        return INVALID_HANDLE;
      }
      return byUuid[uuid];
    }

    method UuidOf(h: u64, alloc: EntitySlotAllocator) returns (uuid: Option<Uuid>)
      requires Valid() && alloc.Valid()
      ensures uuid == UuidFor(h, alloc)
      ensures uuid.Some? ==> Resolved(uuid.value, alloc) == h
    {
      if UuidFor(h, alloc).Some? {
        PathsAgree(UuidFor(h, alloc).value, h, alloc);
      }
      var alive := alloc.IsLive(h);
      if !alive || h !in byHandle {
        return None;
      }
      return Some(byHandle[h]);
    }
  }
}
