/**
 The greedy rectangle step on one 16x16 visibility mask: widen along v, then extend along u,
 then claim. `GreedyFrom` is the scan as a function; `GreedyExact` says it partitions the
 visible cells into single-slot rectangles.
 */
module RectMerge {
  import opened Chunk

  const CELLS := 256
  /** Mask sentinel: no visible face here. */
  const NO_FACE: nat := 0xFFFF_FFFF

  datatype Rect = Rect(u0: nat, v0: nat, du: nat, dv: nat, slot: nat)
  {
    predicate Contains(u: int, v: int) {
      u0 <= u < u0 + du && v0 <= v < v0 + dv
    }
    predicate InMask() {
      1 <= du && 1 <= dv && u0 + du <= EDGE && v0 + dv <= EDGE
    }
  }

  type Mask = m: seq<nat> | |m| == CELLS witness seq(CELLS, _ => 0)
  type Claims = c: seq<bool> | |c| == CELLS witness seq(CELLS, _ => false)

  function At(u: nat, v: nat): (i: nat)
    requires u < EDGE && v < EDGE
    ensures i < CELLS && i / EDGE == u && i % EDGE == v
  {
    u * EDGE + v
  }

  predicate Free(mask: Mask, claimed: Claims, u: nat, v: nat, slot: nat)
    requires u < EDGE && v < EDGE
  {
    mask[At(u, v)] == slot && !claimed[At(u, v)]
  }

  /** Width reached along v from a run that is already dv wide. */
  function RunWidth(mask: Mask, claimed: Claims, u: nat, v: nat, dv: nat): (w: nat)
    requires u < EDGE && v + dv <= EDGE && v < EDGE
    ensures dv <= w && v + w <= EDGE
    decreases EDGE - v - dv
  {
    if v + dv < EDGE && Free(mask, claimed, u, v + dv, mask[At(u, v)]) then RunWidth(mask, claimed, u, v, dv + 1)
    else dv
  }

  predicate RowFree(mask: Mask, claimed: Claims, u: nat, v: nat, dv: nat, slot: nat)
    requires u < EDGE && v + dv <= EDGE
  {
    forall k :: v <= k < v + dv ==> Free(mask, claimed, u, k, slot)
  }

  /** Height reached along u from a block that is already du tall. */
  function RunHeight(mask: Mask, claimed: Claims, u: nat, v: nat, dv: nat, du: nat): (h: nat)
    requires u < EDGE && v < EDGE && v + dv <= EDGE && u + du <= EDGE
    ensures du <= h && u + h <= EDGE
    decreases EDGE - u - du
  {
    if u + du < EDGE && RowFree(mask, claimed, u + du, v, dv, mask[At(u, v)]) then
        RunHeight(mask, claimed, u, v, dv, du + 1)
    else du
  }

  function NextRect(mask: Mask, claimed: Claims, i: nat): (r: Rect)
    requires i < CELLS
    ensures r.InMask() && r.u0 == i / EDGE && r.v0 == i % EDGE && r.slot == mask[i]
  {
    var u, v := i / EDGE, i % EDGE;
    var dv := RunWidth(mask, claimed, u, v, 1);
    Rect(u, v, RunHeight(mask, claimed, u, v, dv, 1), dv, mask[i])
  }

  function Claim(claimed: Claims, r: Rect): (c: Claims) {
    seq(CELLS, i requires 0 <= i < CELLS => claimed[i] || r.Contains(i / EDGE, i % EDGE))
  }

  /** Rectangles emitted by the scan from cell i on. */
  function GreedyFrom(mask: Mask, claimed: Claims, i: nat): (rs: seq<Rect>)
    requires i <= CELLS
    decreases CELLS - i
  {
    if i == CELLS then []
    else if mask[i] == NO_FACE || claimed[i] then GreedyFrom(mask, claimed, i + 1)
    else
      var r := NextRect(mask, claimed, i);
      [r] + GreedyFrom(mask, Claim(claimed, r), i + 1)
  }

  /** One unit rectangle per visible cell. */
  function NaiveFrom(mask: Mask, i: nat): (rs: seq<Rect>)
    requires i <= CELLS
    decreases CELLS - i
  {
    if i == CELLS then []
    else if mask[i] == NO_FACE then NaiveFrom(mask, i + 1)
    else [Rect(i / EDGE, i % EDGE, 1, 1, mask[i])] + NaiveFrom(mask, i + 1)
  }

  function NoneClaimed(): Claims { seq(CELLS, i => false) }

  lemma {:induction false} WidthFree(mask: Mask, claimed: Claims, u: nat, v: nat, dv: nat)
    requires u < EDGE && v < EDGE && v + dv <= EDGE
    requires RowFree(mask, claimed, u, v, dv, mask[At(u, v)])
    ensures RowFree(mask, claimed, u, v, RunWidth(mask, claimed, u, v, dv), mask[At(u, v)])
    decreases EDGE - v - dv
  {
    if v + dv < EDGE && Free(mask, claimed, u, v + dv, mask[At(u, v)]) {
      WidthFree(mask, claimed, u, v, dv + 1);
    }
  }

  lemma {:induction false} HeightFree(mask: Mask, claimed: Claims, u: nat, v: nat, dv: nat, du: nat)
    requires u < EDGE && v < EDGE && v + dv <= EDGE && u + du <= EDGE
    requires forall a :: u <= a < u + du ==> RowFree(mask, claimed, a, v, dv, mask[At(u, v)])
    ensures forall a :: u <= a < u + RunHeight(mask, claimed, u, v, dv, du) ==>
        RowFree(mask, claimed, a, v, dv, mask[At(u, v)])
    decreases EDGE - u - du
  {
    if u + du < EDGE && RowFree(mask, claimed, u + du, v, dv, mask[At(u, v)]) {
      HeightFree(mask, claimed, u, v, dv, du + 1);
    }
  }

  /** Every cell of r is unclaimed and shows r's slot. */
  ghost predicate Fits(mask: Mask, claimed: Claims, r: Rect) {
    && r.InMask()
    && r.slot != NO_FACE
    && forall u, v :: r.Contains(u, v) ==> 0 <= u < EDGE && 0 <= v < EDGE && Free(mask, claimed, u, v, r.slot)
  }

  lemma NextRectFits(mask: Mask, claimed: Claims, i: nat)
    requires i < CELLS && mask[i] != NO_FACE && !claimed[i]
    ensures Fits(mask, claimed, NextRect(mask, claimed, i))
    ensures NextRect(mask, claimed, i).Contains(i / EDGE, i % EDGE)
  {
    var u, v := i / EDGE, i % EDGE;
    assert At(u, v) == i;
    WidthFree(mask, claimed, u, v, 1);
    var dv := RunWidth(mask, claimed, u, v, 1);
    HeightFree(mask, claimed, u, v, dv, 1);
    var r := NextRect(mask, claimed, i);
    forall a, b | r.Contains(a, b)
      ensures 0 <= a < EDGE && 0 <= b < EDGE && Free(mask, claimed, a, b, r.slot)
    {
      assert RowFree(mask, claimed, a, v, dv, mask[i]);
    }
  }

  ghost predicate Covered(rs: seq<Rect>, u: int, v: int) {
    exists k :: 0 <= k < |rs| && rs[k].Contains(u, v)
  }

  ghost predicate Disjoint(rs: seq<Rect>) {
    forall j, k, u, v :: 0 <= j < k < |rs| && rs[j].Contains(u, v) ==> !rs[k].Contains(u, v)
  }

  /** The rectangles partition the visible unclaimed cells, each within one slot. */
  ghost predicate Partitions(rs: seq<Rect>, mask: Mask, claimed: Claims) {
    && (forall k :: 0 <= k < |rs| ==> Fits(mask, claimed, rs[k]))
    && Disjoint(rs)
    && (forall u, v :: 0 <= u < EDGE && 0 <= v < EDGE && mask[At(u, v)] != NO_FACE && !claimed[At(u, v)] ==>
        Covered(rs, u, v))
  }

  lemma PrependPartition(r: Rect, rest: seq<Rect>, mask: Mask, claimed: Claims)
    requires Fits(mask, claimed, r) && Partitions(rest, mask, Claim(claimed, r))
    ensures Partitions([r] + rest, mask, claimed)
  {
    var rs := [r] + rest;
    forall k | 0 <= k < |rs|
      ensures Fits(mask, claimed, rs[k])
    {
      if k > 0 { assert Fits(mask, Claim(claimed, r), rest[k - 1]); }
    }
    forall j, k, u, v | 0 <= j < k < |rs| && rs[j].Contains(u, v)
      ensures !rs[k].Contains(u, v)
    {
      assert rs[k] == rest[k - 1] && Fits(mask, Claim(claimed, r), rest[k - 1]);
      if j > 0 { assert rs[j] == rest[j - 1]; }
    }
    forall u, v | 0 <= u < EDGE && 0 <= v < EDGE && mask[At(u, v)] != NO_FACE && !claimed[At(u, v)]
      ensures Covered(rs, u, v)
    {
      if r.Contains(u, v) {
        assert rs[0].Contains(u, v);
      } else {
        assert !Claim(claimed, r)[At(u, v)];
        assert Covered(rest, u, v);
        var k :| 0 <= k < |rest| && rest[k].Contains(u, v);
        assert rs[k + 1].Contains(u, v);
      }
    }
  }

  /** Every visible cell before i has been claimed. */
  ghost predicate ClaimedBelow(mask: Mask, claimed: Claims, i: nat) {
    forall j :: 0 <= j < i && j < CELLS && mask[j] != NO_FACE ==> claimed[j]
  }

  lemma {:induction false} GreedyExact(mask: Mask, claimed: Claims, i: nat)
    requires i <= CELLS && ClaimedBelow(mask, claimed, i)
    ensures Partitions(GreedyFrom(mask, claimed, i), mask, claimed)
    decreases CELLS - i
  {
    if i == CELLS {
    } else if mask[i] == NO_FACE || claimed[i] {
      GreedyExact(mask, claimed, i + 1);
    } else {
      NextRectFits(mask, claimed, i);
      var r := NextRect(mask, claimed, i);
      assert Claim(claimed, r)[i];
      GreedyExact(mask, Claim(claimed, r), i + 1);
      PrependPartition(r, GreedyFrom(mask, Claim(claimed, r), i + 1), mask, claimed);
    }
  }

  lemma {:induction false} NaiveExact(mask: Mask, claimed: Claims, i: nat)
    requires i <= CELLS
    requires forall j :: 0 <= j < CELLS ==> (claimed[j] <==> j < i)
    ensures Partitions(NaiveFrom(mask, i), mask, claimed)
    decreases CELLS - i
  {
    if i == CELLS {
    } else {
      var r := Rect(i / EDGE, i % EDGE, 1, 1, mask[i]);
      var claimed' := Claim(claimed, r);
      forall j | 0 <= j < CELLS
        ensures claimed'[j] <==> j < i + 1
      {
        assert r.Contains(j / EDGE, j % EDGE) <==> j == i;
      }
      NaiveExact(mask, claimed', i + 1);
      if mask[i] != NO_FACE {
        assert At(i / EDGE, i % EDGE) == i;
        PrependPartition(r, NaiveFrom(mask, i + 1), mask, claimed);
      } else {
        SkipHidden(mask, claimed, r, NaiveFrom(mask, i + 1), i);
      }
    }
  }

  lemma SkipHidden(mask: Mask, claimed: Claims, r: Rect, rest: seq<Rect>, i: nat)
    requires i < CELLS && mask[i] == NO_FACE && r == Rect(i / EDGE, i % EDGE, 1, 1, mask[i])
    requires Partitions(rest, mask, Claim(claimed, r))
    ensures Partitions(rest, mask, claimed)
  {
    forall k | 0 <= k < |rest|
      ensures Fits(mask, claimed, rest[k])
    {
      assert Fits(mask, Claim(claimed, r), rest[k]);
    }
    forall u, v | 0 <= u < EDGE && 0 <= v < EDGE && mask[At(u, v)] != NO_FACE && !claimed[At(u, v)]
      ensures Covered(rest, u, v)
    {
      assert At(u, v) != i;
      assert !Claim(claimed, r)[At(u, v)];
    }
  }

  /** Merging never emits more rectangles than cells it covers. */
  lemma {:induction false} GreedyNoMore(mask: Mask, claimed: Claims, i: nat)
    requires i <= CELLS
    ensures |GreedyFrom(mask, claimed, i)| <= |NaiveFrom(mask, i)|
    decreases CELLS - i
  {
    if i < CELLS {
      GreedyNoMore(mask, claimed, i + 1);
      if mask[i] != NO_FACE && !claimed[i] {
        GreedyNoMore(mask, Claim(claimed, NextRect(mask, claimed, i)), i + 1);
      }
    }
  }

  /* ----- the merge is as wide and then as tall as it can be ----- */

  /** The cell right of r's first row cannot join it. */
  predicate WidthIsMaximal(mask: Mask, claimed: Claims, u: nat, v: nat, dv: nat, slot: nat)
    requires u < EDGE && v + dv <= EDGE
  {
    v + dv == EDGE || !Free(mask, claimed, u, v + dv, slot)
  }

  predicate RowBlocked(mask: Mask, claimed: Claims, u: nat, v: nat, dv: nat, slot: nat)
    requires u < EDGE && v + dv <= EDGE
  {
    exists k :: v <= k < v + dv && !Free(mask, claimed, u, k, slot)
  }

  /** The row below r cannot join it. */
  predicate HeightIsMaximal(mask: Mask, claimed: Claims, u: nat, v: nat, dv: nat, du: nat, slot: nat)
    requires u + du <= EDGE && v + dv <= EDGE
  {
    u + du == EDGE || RowBlocked(mask, claimed, u + du, v, dv, slot)
  }

  predicate Maximal(mask: Mask, claimed: Claims, r: Rect) {
    && r.InMask()
    && WidthIsMaximal(mask, claimed, r.u0, r.v0, r.dv, r.slot)
    && HeightIsMaximal(mask, claimed, r.u0, r.v0, r.dv, r.du, r.slot)
  }

  lemma {:induction false} WidthStops(mask: Mask, claimed: Claims, u: nat, v: nat, dv: nat)
    requires u < EDGE && v < EDGE && v + dv <= EDGE
    ensures WidthIsMaximal(mask, claimed, u, v, RunWidth(mask, claimed, u, v, dv), mask[At(u, v)])
    decreases EDGE - v - dv
  {
    if v + dv < EDGE && Free(mask, claimed, u, v + dv, mask[At(u, v)]) {
      WidthStops(mask, claimed, u, v, dv + 1);
    }
  }

  lemma {:induction false} HeightStops(mask: Mask, claimed: Claims, u: nat, v: nat, dv: nat, du: nat)
    requires u < EDGE && v < EDGE && v + dv <= EDGE && u + du <= EDGE
    ensures HeightIsMaximal(mask, claimed, u, v, dv, RunHeight(mask, claimed, u, v, dv, du), mask[At(u, v)])
    decreases EDGE - u - du
  {
    if u + du < EDGE && RowFree(mask, claimed, u + du, v, dv, mask[At(u, v)]) {
      HeightStops(mask, claimed, u, v, dv, du + 1);
    }
  }

  /** The rectangle begun at a cell is widened, then heightened, until something stops it. */
  lemma NextRectIsMaximal(mask: Mask, claimed: Claims, i: nat)
    requires i < CELLS
    ensures Maximal(mask, claimed, NextRect(mask, claimed, i))
  {
    var u, v := i / EDGE, i % EDGE;
    assert At(u, v) == i;
    WidthStops(mask, claimed, u, v, 1);
    HeightStops(mask, claimed, u, v, RunWidth(mask, claimed, u, v, 1), 1);
  }

  lemma FreeInside(mask: Mask, claimed: Claims, r: Rect, u: nat, v: nat)
    requires Fits(mask, claimed, r)
    ensures r.Contains(u, v) ==> u < EDGE && v < EDGE && Free(mask, claimed, u, v, r.slot)
  {
  }

  lemma NotWider(mask: Mask, claimed: Claims, r: Rect, q: Rect)
    requires Fits(mask, claimed, q) && Maximal(mask, claimed, r)
    requires r.u0 == q.u0 && r.v0 == q.v0 && r.slot == q.slot
    ensures q.dv <= r.dv
  {
    FreeInside(mask, claimed, q, r.u0, r.v0 + r.dv);
  }

  lemma NotTaller(mask: Mask, claimed: Claims, r: Rect, q: Rect)
    requires Fits(mask, claimed, q) && Maximal(mask, claimed, r)
    requires r.u0 == q.u0 && r.v0 == q.v0 && r.dv == q.dv && r.slot == q.slot
    ensures q.du <= r.du
  {
    if r.u0 + r.du < EDGE {
      var k :| r.v0 <= k < r.v0 + r.dv && !Free(mask, claimed, r.u0 + r.du, k, r.slot);
      FreeInside(mask, claimed, q, r.u0 + r.du, k);
    }
  }

  /** Only one rectangle of free cells from a given first cell is maximal. */
  lemma MaximalIsUnique(mask: Mask, claimed: Claims, r: Rect, q: Rect)
    requires Fits(mask, claimed, r) && Maximal(mask, claimed, r)
    requires Fits(mask, claimed, q) && Maximal(mask, claimed, q)
    requires r.u0 == q.u0 && r.v0 == q.v0
    ensures r == q
  {
    FreeInside(mask, claimed, r, r.u0, r.v0);
    FreeInside(mask, claimed, q, r.u0, r.v0);
    NotWider(mask, claimed, r, q);
    NotWider(mask, claimed, q, r);
    NotTaller(mask, claimed, r, q);
    NotTaller(mask, claimed, q, r);
  }

  /* ----- what the whole scan emits ----- */

  /** Where a rectangle begins, in scan order. */
  function Start(r: Rect): int {
    EDGE * r.u0 + r.v0
  }

  /** The rectangles begin at i or later, in scan order, and each is maximal once its predecessors are claimed. */
  ghost predicate IsScan(rs: seq<Rect>, mask: Mask, claimed: Claims, i: int) {
    rs == [] ||
    (i <= Start(rs[0]) && Maximal(mask, claimed, rs[0])
     && IsScan(rs[1..], mask, Claim(claimed, rs[0]), Start(rs[0]) + 1))
  }

  lemma {:induction false} ScanFromEarlier(rs: seq<Rect>, mask: Mask, claimed: Claims, i: int, j: int)
    requires IsScan(rs, mask, claimed, i) && j <= i
    ensures IsScan(rs, mask, claimed, j)
  {
  }

  lemma {:induction false} GreedyIsScan(mask: Mask, claimed: Claims, i: nat)
    requires i <= CELLS
    ensures IsScan(GreedyFrom(mask, claimed, i), mask, claimed, i)
    decreases CELLS - i
  {
    if i == CELLS {
    } else if mask[i] == NO_FACE || claimed[i] {
      GreedyIsScan(mask, claimed, i + 1);
      ScanFromEarlier(GreedyFrom(mask, claimed, i + 1), mask, claimed, i + 1, i);
    } else {
      var r := NextRect(mask, claimed, i);
      var rest := GreedyFrom(mask, Claim(claimed, r), i + 1);
      NextRectIsMaximal(mask, claimed, i);
      GreedyIsScan(mask, Claim(claimed, r), i + 1);
      assert ([r] + rest)[1..] == rest && Start(r) == i;
    }
  }

  /** No rectangle of a scan from i begins at an earlier cell. */
  lemma {:induction false} ScanStarts(rs: seq<Rect>, mask: Mask, claimed: Claims, i: int, k: nat)
    requires IsScan(rs, mask, claimed, i) && k < |rs|
    ensures i + k <= Start(rs[k])
  {
    if k > 0 {
      ScanStarts(rs[1..], mask, Claim(claimed, rs[0]), Start(rs[0]) + 1, k - 1);
    }
  }

  /** The first visible cell begins the first rectangle. */
  lemma FirstCellStarts(rs: seq<Rect>, mask: Mask, claimed: Claims, i: nat)
    requires i < CELLS && mask[i] != NO_FACE && !claimed[i]
    requires Partitions(rs, mask, claimed) && IsScan(rs, mask, claimed, i)
    ensures rs != [] && rs[0].u0 == i / EDGE && rs[0].v0 == i % EDGE
  {
    var u, v := i / EDGE, i % EDGE;
    assert At(u, v) == i;
    assert Covered(rs, u, v);
    var k :| 0 <= k < |rs| && rs[k].Contains(u, v);
    ScanStarts(rs, mask, claimed, i, k);
    assert Fits(mask, claimed, rs[k]);
  }

  lemma ApartFromFirst(rs: seq<Rect>, k: nat, u: int, v: int)
    requires Disjoint(rs) && 0 < k < |rs|
    ensures !(rs[0].Contains(u, v) && rs[k].Contains(u, v))
  {
  }

  lemma RestPartitions(rs: seq<Rect>, mask: Mask, claimed: Claims)
    requires rs != [] && Partitions(rs, mask, claimed)
    ensures Partitions(rs[1..], mask, Claim(claimed, rs[0]))
  {
    var r, rest, claimed' := rs[0], rs[1..], Claim(claimed, rs[0]);
    forall k | 0 <= k < |rest|
      ensures Fits(mask, claimed', rest[k])
    {
      assert rest[k] == rs[k + 1] && Fits(mask, claimed, rs[k + 1]);
      forall u, v | rest[k].Contains(u, v)
        ensures 0 <= u < EDGE && 0 <= v < EDGE && Free(mask, claimed', u, v, rest[k].slot)
      {
        assert Free(mask, claimed, u, v, rest[k].slot);
        ApartFromFirst(rs, k + 1, u, v);
      }
    }
    forall u, v | 0 <= u < EDGE && 0 <= v < EDGE && mask[At(u, v)] != NO_FACE && !claimed'[At(u, v)]
      ensures Covered(rest, u, v)
    {
      assert Covered(rs, u, v);
      var k :| 0 <= k < |rs| && rs[k].Contains(u, v);
      assert rest[k - 1].Contains(u, v);
    }
  }

  /**
   The greedy rectangles are the only ones that partition the visible cells, begin in scan order, and
   are each as wide and then as tall as the cells still free allow.
   */
  lemma {:induction false} GreedyIsUnique(rs: seq<Rect>, mask: Mask, claimed: Claims, i: nat)
    requires i <= CELLS && ClaimedBelow(mask, claimed, i)
    requires Partitions(rs, mask, claimed) && IsScan(rs, mask, claimed, i)
    ensures rs == GreedyFrom(mask, claimed, i)
    decreases CELLS - i
  {
    if i == CELLS {
      NothingStartsLate(rs, mask, claimed);
    } else if mask[i] == NO_FACE || claimed[i] {
      StartsLater(rs, mask, claimed, i);
      GreedyIsUnique(rs, mask, claimed, i + 1);
    } else {
      var r := NextRect(mask, claimed, i);
      FirstIsNext(rs, mask, claimed, i, r);
      GreedyIsUnique(rs[1..], mask, Claim(claimed, r), i + 1);
      HeadAndRest(rs, r, rs[1..]);
    }
  }

  lemma HeadAndRest(rs: seq<Rect>, r: Rect, rest: seq<Rect>)
    requires rs != [] && rs[0] == r && rest == rs[1..]
    ensures rs == [r] + rest
  {
  }

  lemma FirstIsNext(rs: seq<Rect>, mask: Mask, claimed: Claims, i: nat, r: Rect)
    requires i < CELLS && mask[i] != NO_FACE && !claimed[i] && ClaimedBelow(mask, claimed, i)
    requires Partitions(rs, mask, claimed) && IsScan(rs, mask, claimed, i) && r == NextRect(mask, claimed, i)
    ensures rs != [] && rs[0] == r && Start(r) == i && ClaimedBelow(mask, Claim(claimed, r), i + 1)
    ensures Partitions(rs[1..], mask, Claim(claimed, r)) && IsScan(rs[1..], mask, Claim(claimed, r), i + 1)
  {
    FirstCellStarts(rs, mask, claimed, i);
    FirstFits(rs, mask, claimed);
    NextStarts(mask, claimed, i, r);
    MaximalIsUnique(mask, claimed, rs[0], r);
    RestPartitions(rs, mask, claimed);
  }

  lemma FirstFits(rs: seq<Rect>, mask: Mask, claimed: Claims)
    requires rs != [] && Partitions(rs, mask, claimed)
    ensures Fits(mask, claimed, rs[0])
  {
  }

  lemma NextStarts(mask: Mask, claimed: Claims, i: nat, r: Rect)
    requires i < CELLS && mask[i] != NO_FACE && !claimed[i] && ClaimedBelow(mask, claimed, i)
    requires r == NextRect(mask, claimed, i)
    ensures Fits(mask, claimed, r) && Maximal(mask, claimed, r) && Start(r) == i
    ensures ClaimedBelow(mask, Claim(claimed, r), i + 1)
  {
    NextRectFits(mask, claimed, i);
    NextRectIsMaximal(mask, claimed, i);
    assert Claim(claimed, r)[i];
  }

  lemma StartsInMask(rs: seq<Rect>, mask: Mask, claimed: Claims)
    requires Partitions(rs, mask, claimed)
    ensures forall k :: 0 <= k < |rs| ==> Start(rs[k]) < CELLS
  {
    forall k | 0 <= k < |rs|
      ensures Start(rs[k]) < CELLS
    {
      assert Fits(mask, claimed, rs[k]);
    }
  }

  lemma NothingStartsLate(rs: seq<Rect>, mask: Mask, claimed: Claims)
    requires Partitions(rs, mask, claimed) && IsScan(rs, mask, claimed, CELLS)
    ensures rs == []
  {
    StartsInMask(rs, mask, claimed);
  }

  /** A scan does not begin at a hidden or claimed cell. */
  lemma StartsLater(rs: seq<Rect>, mask: Mask, claimed: Claims, i: nat)
    requires i < CELLS && (mask[i] == NO_FACE || claimed[i])
    requires Partitions(rs, mask, claimed) && IsScan(rs, mask, claimed, i)
    ensures IsScan(rs, mask, claimed, i + 1)
  {
    if rs != [] {
      var r := rs[0];
      assert Fits(mask, claimed, r) && r.Contains(r.u0, r.v0);
      assert Free(mask, claimed, r.u0, r.v0, r.slot);
      assert Start(r) == At(r.u0, r.v0);
    }
  }

  /** The mask that shows one slot on a rectangle and nothing elsewhere. */
  ghost predicate ShowsOne(mask: Mask, r: Rect) {
    && r.InMask() && r.slot != NO_FACE
    && forall u, v :: 0 <= u < EDGE && 0 <= v < EDGE ==>
         mask[At(u, v)] == if r.Contains(u, v) then r.slot else NO_FACE
  }

  /** A rectangle of one slot is emitted as one rectangle. */
  lemma OneRectangle(mask: Mask, r: Rect)
    requires ShowsOne(mask, r)
    ensures GreedyFrom(mask, NoneClaimed(), 0) == [r]
  {
    var rs := [r];
    forall u, v | r.Contains(u, v)
      ensures 0 <= u < EDGE && 0 <= v < EDGE && Free(mask, NoneClaimed(), u, v, r.slot)
    {
    }
    forall u, v | 0 <= u < EDGE && 0 <= v < EDGE && mask[At(u, v)] != NO_FACE && !NoneClaimed()[At(u, v)]
      ensures Covered(rs, u, v)
    {
      assert rs[0].Contains(u, v);
    }
    assert Fits(mask, NoneClaimed(), rs[0]);
    assert Maximal(mask, NoneClaimed(), r) by {
      if r.u0 + r.du < EDGE {
        assert !Free(mask, NoneClaimed(), r.u0 + r.du, r.v0, r.slot);
      }
    }
    assert IsScan(rs[1..], mask, Claim(NoneClaimed(), r), Start(r) + 1);
    GreedyIsUnique(rs, mask, NoneClaimed(), 0);
  }

  /** A mask that shows nothing emits nothing. */
  lemma NoRectangle(mask: Mask)
    requires forall i :: 0 <= i < CELLS ==> mask[i] == NO_FACE
    ensures GreedyFrom(mask, NoneClaimed(), 0) == []
  {
    GreedyIsUnique([], mask, NoneClaimed(), 0);
  }

  lemma {:induction false} NaiveCount(mask: Mask, i: nat, all: bool)
    requires i <= CELLS && forall j :: i <= j < CELLS ==> (mask[j] != NO_FACE <==> all)
    ensures |NaiveFrom(mask, i)| == if all then CELLS - i else 0
    decreases CELLS - i
  {
    if i < CELLS {
      NaiveCount(mask, i + 1, all);
    }
  }
}
