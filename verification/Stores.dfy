/**
 The two key-value stores. The memory store walks an ordered map; the SQLite store selects a key
 range from an ordered table and runs batches in a transaction. Any statement may fail.
 */
module Stores {
  import opened Bytes
  import opened StoreKeys
  import opened Scans

  datatype Space = Chunks | LodNodes | Registry | Meta
  {
    function Index(): (i: nat)
      ensures i < 4
    {
      match this
      case Chunks => 0
      case LodNodes => 1
      case Registry => 2
      case Meta => 3
    }
  }

  type Spaces = s: seq<map<Key, Value>> | |s| == 4 witness [map[], map[], map[], map[]]

  /** One write: a value present puts, an absent one erases. */
  datatype BatchOp = BatchOp(space: Space, key: Key, value: Option<Value>)
  {
    predicate Targets(s: Space, k: Key) { space == s && key == k }
  }

  function Apply(s: Spaces, op: BatchOp): Spaces {
    var m := s[op.space.Index()];
    s[op.space.Index() := if op.value.Some? then m[op.key := op.value.value] else m - {op.key}]
  }

  function ApplyAll(s: Spaces, ops: seq<BatchOp>): Spaces
    decreases |ops|
  {
    if ops == [] then s else Apply(ApplyAll(s, ops[..|ops| - 1]), ops[|ops| - 1])
  }

  lemma ApplyNext(s: Spaces, ops: seq<BatchOp>, i: nat)
    requires i < |ops|
    ensures ApplyAll(s, ops[..i + 1]) == Apply(ApplyAll(s, ops[..i]), ops[i])
  {
    assert ops[..i + 1][..i] == ops[..i];
  }

  /** What a space holds under a key. */
  function Lookup(s: Spaces, space: Space, key: Key): Option<Value> {
    var m := s[space.Index()];
    if key in m then Some(m[key]) else None
  }

  /** A key holds what the last write to it left there. */
  lemma {:induction false} LastWriteWins(s: Spaces, ops: seq<BatchOp>, space: Space, key: Key, i: nat)
    requires i < |ops| && ops[i].Targets(space, key)
    requires forall j :: i < j < |ops| ==> !ops[j].Targets(space, key)
    ensures Lookup(ApplyAll(s, ops), space, key) == ops[i].value
    decreases |ops|
  {
    var n := |ops| - 1;
    OneWrite(ApplyAll(s, ops[..n]), ops[n], space, key);
    if i < n {
      LastWriteWins(s, ops[..n], space, key, i);
    }
  }

  /** A key that no operation targets keeps its value. */
  lemma {:induction false} UntargetedKeeps(s: Spaces, ops: seq<BatchOp>, space: Space, key: Key)
    requires forall i :: 0 <= i < |ops| ==> !ops[i].Targets(space, key)
    ensures Lookup(ApplyAll(s, ops), space, key) == Lookup(s, space, key)
    decreases |ops|
  {
    if ops != [] {
      var n := |ops| - 1;
      UntargetedKeeps(s, ops[..n], space, key);
      OneWrite(ApplyAll(s, ops[..n]), ops[n], space, key);
    }
  }

  lemma OneWrite(s: Spaces, op: BatchOp, space: Space, key: Key)
    ensures Lookup(Apply(s, op), space, key) == if op.Targets(space, key) then op.value else Lookup(s, space, key)
  {
    SpacesApart(space, op.space);
  }

  lemma SpacesApart(a: Space, b: Space)
    ensures a.Index() == b.Index() <==> a == b
  {
  }

  predicate KeysGiven(ops: seq<BatchOp>) {
    forall i :: 0 <= i < |ops| ==> ops[i].key != []
  }

  method AnyKeyEmpty(ops: seq<BatchOp>) returns (r: bool)
    ensures r <==> !KeysGiven(ops)
  {
    for i := 0 to |ops|
      invariant forall j :: 0 <= j < i ==> ops[j].key != []
    {
      if ops[i].key == [] {
        return true;
      }
    }
    return false;
  }

  /* ----- ordered iteration ----- */

  method LeastOf(s: set<Key>) returns (k: Option<Key>)
    ensures k.None? <==> s == {}
    ensures k.Some? ==> Least(k.value, s)
  {
    k := None;
    var todo := s;
    ghost var seen := {};
    while todo != {}
      invariant s == seen + todo
      invariant k.None? <==> seen == {}
      invariant k.Some? ==> Least(k.value, seen)
      decreases |todo|
    {
      var j :| j in todo;
      if k.None? {
        k := Some(j);
      } else {
        LeastWith(seen, k.value, j);
        if Less(j, k.value) {
          k := Some(j);
        }
      }
      seen := seen + {j};
      todo := todo - {j};
    }
    assert s == seen;
  }

  lemma LeastWith(s: set<Key>, k: Key, j: Key)
    requires Least(k, s)
    ensures Least(if Less(j, k) then j else k, s + {j})
  {
    LessTotal(j, k);
    if Less(j, k) {
      forall x | x in s
        ensures LessEq(j, x)
      {
        if x != k {
          LessTransitive(j, k, x);
        }
      }
    }
  }

  function AtOrAfter(keys: set<Key>, bound: Key): set<Key> {
    set j | j in keys && LessEq(bound, j)
  }

  function After(keys: set<Key>, k: Key): set<Key> {
    set j | j in keys && Less(k, j)
  }

  /* ----- a scan in progress ----- */

  /** Rows shown so far, keys not reached yet, and a visitor that has not stopped. */
  ghost predicate Scanning(m: map<Key, Value>, prefix: Key, visit: Visitor, log: seq<Row>, pending: set<Key>) {
    var rest := PrefixKeys(m, prefix) * pending;
    && pending <= m.Keys
    && ScanOf(m, prefix, visit) == VisitFrom(log + RowsIn(m, rest), visit, |log|)
  }

  lemma ScanStarts(m: map<Key, Value>, prefix: Key, visit: Visitor)
    ensures Scanning(m, prefix, visit, [], AtOrAfter(m.Keys, prefix))
  {
    var all := PrefixKeys(m, prefix);
    forall k | k in all
      ensures k in AtOrAfter(m.Keys, prefix)
    {
      PrefixIsLowest(k, prefix);
    }
    assert all * AtOrAfter(m.Keys, prefix) == all;
    assert [] + RowsIn(m, all) == RowsIn(m, all);
  }

  lemma ScanTakes(m: map<Key, Value>, prefix: Key, visit: Visitor, log: seq<Row>, pending: set<Key>, k: Key)
    requires Scanning(m, prefix, visit, log, pending) && Least(k, pending) && HasPrefix(k, prefix)
    ensures var log' := log + [Row(k, m[k])];
            && (visit(log') ==> Scanning(m, prefix, visit, log', pending - {k}))
            && (!visit(log') ==> log' == ScanOf(m, prefix, visit))
  {
    var rest := PrefixKeys(m, prefix) * pending;
    var log' := log + [Row(k, m[k])];
    RowsStep(m, rest, k);
    assert rest - {k} == PrefixKeys(m, prefix) * (pending - {k});
    TakeRow(log, Row(k, m[k]), RowsIn(m, rest - {k}), visit);
  }

  lemma VisitStep(rows: seq<Row>, visit: Visitor, n: nat, shown: seq<Row>)
    requires n < |rows| && shown == rows[..n + 1]
    ensures VisitFrom(rows, visit, n) == if visit(shown) then VisitFrom(rows, visit, n + 1) else shown
  {
  }

  lemma TakeRow(log: seq<Row>, row: Row, rest: seq<Row>, visit: Visitor)
    ensures var all := log + ([row] + rest);
            && all == (log + [row]) + rest
            && VisitFrom(all, visit, |log|)
               == if visit(log + [row]) then VisitFrom(all, visit, |log + [row]|) else log + [row]
  {
    var all := log + ([row] + rest);
    assert all == (log + [row]) + rest;
    VisitStep(all, visit, |log|, log + [row]);
  }

  lemma ScanLeavesRange(m: map<Key, Value>, prefix: Key, visit: Visitor, log: seq<Row>, pending: set<Key>,
                        k: Key)
    requires Scanning(m, prefix, visit, log, pending) && Least(k, pending) && !HasPrefix(k, prefix) && LessEq(prefix, k)
    ensures log == ScanOf(m, prefix, visit)
  {
    forall j | j in pending
      ensures !HasPrefix(j, prefix)
    {
      if HasPrefix(j, prefix) {
        PrefixRangeIsConvex(prefix, k, j);
      }
    }
    ScanEnds(m, prefix, visit, log, pending);
  }

  lemma ScanEnds(m: map<Key, Value>, prefix: Key, visit: Visitor, log: seq<Row>, pending: set<Key>)
    requires Scanning(m, prefix, visit, log, pending) && forall j :: j in pending ==> !HasPrefix(j, prefix)
    ensures log == ScanOf(m, prefix, visit)
  {
    assert PrefixKeys(m, prefix) * pending == {};
    NoRows(m);
    assert log + RowsIn(m, {}) == log;
  }

  lemma PendingAfter(keys: set<Key>, prefix: Key, pending: set<Key>, k: Key)
    requires pending == AtOrAfter(keys, k) && LessEq(prefix, k)
    ensures After(keys, k) == pending - {k}
  {
    LessIrreflexive(k);
  }

  lemma PendingFrom(keys: set<Key>, k: Key, j: Key)
    requires Least(j, After(keys, k))
    ensures After(keys, k) == AtOrAfter(keys, j)
  {
    forall x | x in keys
      ensures Less(k, x) <==> LessEq(j, x)
    {
      if Less(j, x) {
        LessTransitive(k, j, x);
      }
      if Less(k, x) {
        assert x in After(keys, k);
      }
    }
  }

  lemma FirstFrom(keys: set<Key>, bound: Key, k: Key)
    requires Least(k, AtOrAfter(keys, bound))
    ensures AtOrAfter(keys, bound) == AtOrAfter(keys, k)
  {
    forall x | x in keys
      ensures LessEq(bound, x) <==> LessEq(k, x)
    {
      if LessEq(bound, x) {
        assert x in AtOrAfter(keys, bound);
      }
      if Less(bound, k) && Less(k, x) {
        LessTransitive(bound, k, x);
      }
    }
  }

  /* ----- the memory store ----- */

  class MemoryStore {
    var spaces: Spaces

    constructor ()
      ensures spaces == [map[], map[], map[], map[]]
    {
      spaces := [map[], map[], map[], map[]];
    }

    method Put(space: Space, key: Key, value: Value) returns (ok: bool)
      modifies this
      ensures ok <==> key != []
      ensures spaces == if ok then Apply(old(spaces), BatchOp(space, key, Some(value))) else old(spaces)
    {
      if key == [] {
        return false;
      }
      spaces := spaces[space.Index() := spaces[space.Index()][key := value]];
      return true;
    }

    method Get(space: Space, key: Key) returns (r: Option<Value>)
      ensures r == if key in spaces[space.Index()] then Some(spaces[space.Index()][key]) else None
    {
      var m := spaces[space.Index()];
      if key !in m {
        return None;
      }
      return Some(m[key]);
    }

    method Erase(space: Space, key: Key) returns (existed: bool)
      modifies this
      ensures existed <==> key in old(spaces)[space.Index()]
      ensures spaces == Apply(old(spaces), BatchOp(space, key, None))
    {
      existed := key in spaces[space.Index()];
      spaces := spaces[space.Index() := spaces[space.Index()] - {key}];
    }

    /** All of the batch, or on an empty key none of it. */
    method ApplyBatch(ops: seq<BatchOp>) returns (ok: bool)
      modifies this
      ensures ok <==> KeysGiven(ops)
      ensures spaces == if ok then ApplyAll(old(spaces), ops) else old(spaces)
    {
      var bad := AnyKeyEmpty(ops);
      if bad {
        return false;
      }
      for i := 0 to |ops|
        invariant spaces == ApplyAll(old(spaces), ops[..i])
      {
        ApplyNext(old(spaces), ops, i);
        var op := ops[i];
        if op.value.Some? {
          spaces := spaces[op.space.Index() := spaces[op.space.Index()][op.key := op.value.value]];
        } else {
          spaces := spaces[op.space.Index() := spaces[op.space.Index()] - {op.key}];
        }
      }
      assert ops[..|ops|] == ops;
      return true;
    }

    /** From the first key not before the prefix, until a key without it or a visitor that stops. */
    method ScanPrefix(space: Space, prefix: Key, visit: Visitor) returns (log: seq<Row>)
      ensures log == ScanOf(spaces[space.Index()], prefix, visit)
    {
      var m := spaces[space.Index()];
      log := [];
      var it := LeastOf(AtOrAfter(m.Keys, prefix));
      ghost var pending := AtOrAfter(m.Keys, prefix);
      ScanStarts(m, prefix, visit);
      if it.Some? {
        FirstFrom(m.Keys, prefix, it.value);
      }
      while it.Some?
        invariant Scanning(m, prefix, visit, log, pending)
        invariant it.None? ==> pending == {}
        invariant it.Some? ==> Least(it.value, pending) && pending == AtOrAfter(m.Keys, it.value)
        invariant it.Some? ==> LessEq(prefix, it.value)
        decreases |pending|
      {
        var k := it.value;
        if !HasPrefix(k, prefix) {
          ScanLeavesRange(m, prefix, visit, log, pending, k);
          return;
        }
        ScanTakes(m, prefix, visit, log, pending, k);
        log := log + [Row(k, m[k])];
        if !visit(log) {
          return;
        }
        PendingAfter(m.Keys, prefix, pending, k);
        it := LeastOf(After(m.Keys, k));
        pending := pending - {k};
        if it.Some? {
          PendingFrom(m.Keys, k, it.value);
          if Less(prefix, k) {
            LessTransitive(prefix, k, it.value);
          }
        }
      }
      ScanEnds(m, prefix, visit, log, pending);
    }
  }

  /* ----- the SQLite store ----- */

  /** Increment the last byte that is not 0xFF and truncate there; empty means unbounded. */
  method PrefixUpperBound(prefix: Key) returns (upper: Key)
    ensures upper == UpperBound(prefix)
  {
    upper := prefix;
    while upper != []
      invariant UpperBound(upper) == UpperBound(prefix)
      decreases |upper|
    {
      var n := |upper| - 1;
      if upper[n] != 0xFF {
        upper := upper[n := upper[n] + 1];
        assert upper == upper[..n] + [upper[n]];
        return;
      }
      upper := upper[..n];
    }
  }

  function RangeKeys(m: map<Key, Value>, lo: Key, upper: Key): set<Key> {
    set k | k in m && InRange(k, lo, upper)
  }

  /** The rows of an ordered table between two keys, in key order. */
  method Select(m: map<Key, Value>, lo: Key, upper: Key) returns (rows: seq<Row>)
    ensures rows == RowsIn(m, RangeKeys(m, lo, upper))
  {
    rows := TakeAll(m, RangeKeys(m, lo, upper));
  }

  method TakeAll(m: map<Key, Value>, keys: set<Key>) returns (rows: seq<Row>)
    requires keys <= m.Keys
    ensures rows == RowsIn(m, keys)
  {
    rows := [];
    var todo := keys;
    while todo != {}
      invariant todo <= keys
      invariant RowsIn(m, keys) == rows + RowsIn(m, todo)
      decreases |todo|
    {
      var k := LeastOf(todo);
      RowsStep(m, todo, k.value);
      rows := rows + [Row(k.value, m[k.value])];
      todo := todo - {k.value};
    }
    NoRows(m);
  }

  lemma RangeKeysArePrefixKeys(m: map<Key, Value>, prefix: Key)
    ensures RangeKeys(m, prefix, UpperBound(prefix)) == PrefixKeys(m, prefix)
  {
    forall k | k in m
      ensures InRange(k, prefix, UpperBound(prefix)) <==> HasPrefix(k, prefix)
    {
      RangeIsPrefix(k, prefix);
    }
  }

  /** One call into the database, and whether it succeeded. */
  datatype Call = BeginCall(ok: bool) | WriteCall(op: BatchOp, ok: bool) | CommitCall(ok: bool)

  /** Begin, every write in order, commit, all successful. */
  ghost function WholeBatch(ops: seq<BatchOp>): seq<Call> {
    [BeginCall(true)] + Writes(ops) + [CommitCall(true)]
  }

  ghost function Writes(ops: seq<BatchOp>): seq<Call> {
    seq(|ops|, i requires 0 <= i < |ops| => WriteCall(ops[i], true))
  }

  ghost predicate SomeFailed(calls: seq<Call>) {
    exists i :: 0 <= i < |calls| && !calls[i].ok
  }

  lemma LastFailed(calls: seq<Call>, c: Call)
    requires !c.ok
    ensures SomeFailed(calls + [c])
  {
    assert (calls + [c])[|calls|] == c;
  }

  lemma WritesNext(ops: seq<BatchOp>, i: nat)
    requires i < |ops|
    ensures Writes(ops[..i + 1]) == Writes(ops[..i]) + [WriteCall(ops[i], true)]
  {
  }

  class SqliteStore {
    var tables: Spaces
    var saved: Option<Spaces>
    var failed: bool
    /** Every call so far. */
    ghost var calls: seq<Call>

    ghost predicate Valid()
      reads this
    {
      saved.None?
    }

    constructor ()
      ensures Valid() && tables == [map[], map[], map[], map[]] && !failed && calls == []
    {
      tables, saved, failed, calls := [map[], map[], map[], map[]], None, false, [];
    }

    /** A statement that writes one row, or fails and leaves the error standing. */
    method Exec(op: BatchOp) returns (ok: bool, existed: bool)
      modifies this`tables, this`failed, this`calls
      ensures tables == if ok then Apply(old(tables), op) else old(tables)
      ensures failed <==> old(failed) || !ok
      ensures existed <==> ok && op.key in old(tables)[op.space.Index()]
      ensures calls == old(calls) + [WriteCall(op, ok)]
    {
      ok := *;
      calls := calls + [WriteCall(op, ok)];
      if !ok {
        failed := true;
        return false, false;
      }
      existed := op.key in tables[op.space.Index()];
      tables := Apply(tables, op);
    }

    method Begin() returns (ok: bool)
      requires saved.None?
      modifies this`saved, this`calls
      ensures saved == if ok then Some(tables) else None
      ensures calls == old(calls) + [BeginCall(ok)]
    {
      ok := *;
      calls := calls + [BeginCall(ok)];
      if ok {
        saved := Some(tables);
      }
    }

    method Commit() returns (ok: bool)
      modifies this`saved, this`calls
      ensures saved == if ok then None else old(saved)
      ensures calls == old(calls) + [CommitCall(ok)]
    {
      ok := *;
      calls := calls + [CommitCall(ok)];
      if ok {
        saved := None;
      }
    }

    method Rollback()
      requires saved.Some?
      modifies this`tables, this`saved
      ensures tables == old(saved).value && saved.None?
    {
      tables := saved.value;
      saved := None;
    }

    method Put(space: Space, key: Key, value: Value) returns (ok: bool)
      requires Valid()
      modifies this
      ensures Valid() && (ok ==> key != [] && !old(failed))
      ensures tables == if ok then Apply(old(tables), BatchOp(space, key, Some(value))) else old(tables)
      ensures var op := BatchOp(space, key, Some(value));
              calls == old(calls) + if key == [] || old(failed) then [] else [WriteCall(op, ok)]
      ensures failed <==> old(failed) || (key != [] && !ok)
    {
      if key == [] || failed {
        return false;
      }
      var existed;
      ok, existed := Exec(BatchOp(space, key, Some(value)));
    }

    method Get(space: Space, key: Key) returns (r: Option<Value>)
      ensures var t := tables[space.Index()]; r == if key != [] && !failed && key in t then Some(t[key]) else None
    {
      if key == [] || failed || key !in tables[space.Index()] {
        return None;
      }
      return Some(tables[space.Index()][key]);
    }

    method Erase(space: Space, key: Key) returns (existed: bool)
      requires Valid()
      modifies this
      ensures Valid() && (existed ==> key in old(tables)[space.Index()])
      ensures existed ==> tables == Apply(old(tables), BatchOp(space, key, None))
      ensures !existed ==> tables == old(tables)
      ensures key == [] || old(failed) ==> calls == old(calls) && failed == old(failed)
      ensures key != [] && !old(failed) ==>
                && calls == old(calls) + [WriteCall(BatchOp(space, key, None), !failed)]
                && (existed <==> !failed && key in old(tables)[space.Index()])
    {
      if key == [] || failed {
        return false;
      }
      var ok;
      ok, existed := Exec(BatchOp(space, key, None));
      if ok && !existed {
        assert tables[space.Index()] == old(tables)[space.Index()];
      }
    }

    /** All of the batch in one transaction, or after any failure none of it. */
    method ApplyBatch(ops: seq<BatchOp>) returns (ok: bool)
      requires Valid()
      modifies this
      ensures Valid() && (ok ==> KeysGiven(ops) && !old(failed) && !failed)
      ensures tables == if ok then ApplyAll(old(tables), ops) else old(tables)
      ensures old(calls) <= calls
      ensures var made := calls[|old(calls)|..];
              if old(failed) || !KeysGiven(ops) then made == [] && failed == old(failed)
              else if ok then made == WholeBatch(ops) else SomeFailed(made) && failed
    {
      ghost var before := calls;
      if failed {
        return false;
      }
      var bad := AnyKeyEmpty(ops);
      if bad {
        return false;
      }
      var begun := Begin();
      if !begun {
        failed := true;
        LastFailed([], BeginCall(false));
        assert calls[|before|..] == [] + [BeginCall(false)];
        return false;
      }
      for i := 0 to |ops|
        invariant !failed && saved == Some(old(tables))
        invariant tables == ApplyAll(old(tables), ops[..i])
        invariant calls == before + ([BeginCall(true)] + Writes(ops[..i]))
      {
        ApplyNext(old(tables), ops, i);
        WritesNext(ops, i);
        var stepOk, existed := Exec(ops[i]);
        if !stepOk {
          Rollback();
          LastFailed([BeginCall(true)] + Writes(ops[..i]), WriteCall(ops[i], false));
          assert calls[|before|..] == [BeginCall(true)] + Writes(ops[..i]) + [WriteCall(ops[i], false)];
          return false;
        }
      }
      assert ops[..|ops|] == ops;
      var committed := Commit();
      if !committed {
        Rollback();
        failed := true;
        LastFailed([BeginCall(true)] + Writes(ops), CommitCall(false));
        assert calls[|before|..] == [BeginCall(true)] + Writes(ops) + [CommitCall(false)];
        return false;
      }
      assert calls[|before|..] == WholeBatch(ops);
      return true;
    }

    /** Selects the key range of the prefix and shows its rows until the visitor stops. */
    method ScanPrefix(space: Space, prefix: Key, visit: Visitor) returns (log: seq<Row>)
      ensures log == if failed then [] else ScanOf(tables[space.Index()], prefix, visit)
    {
      log := [];
      if failed {
        return;
      }
      var m := tables[space.Index()];
      var upper := PrefixUpperBound(prefix);
      RangeKeysArePrefixKeys(m, prefix);
      var rows := Select(m, prefix, upper);
      for i := 0 to |rows|
        invariant log == rows[..i] && VisitFrom(rows, visit, i) == Visited(rows, visit)
      {
        log := log + [rows[i]];
        assert log == rows[..i + 1];
        if !visit(log) {
          return;
        }
      }
      assert rows[..|rows|] == rows;
    }
  }
}
