/**
 Ordered prefix scans: which rows of an ordered key space start with a prefix, in which order they
 come, and why a half-open key range visits exactly those.
 */
module Scans {
  import opened Bytes
  import opened StoreKeys

  type Value = seq<byte>

  datatype Row = Row(key: Key, value: Value)

  /** Shown all rows visited so far, says whether to go on. */
  type Visitor = seq<Row> -> bool

  /* ----- prefixes and ranges ----- */

  predicate HasPrefix(k: Key, prefix: Key) {
    |prefix| <= |k| && k[..|prefix|] == prefix
  }

  lemma PrefixStep(k: Key, prefix: Key)
    requires prefix != []
    ensures HasPrefix(k, prefix) <==> k != [] && k[0] == prefix[0] && HasPrefix(k[1..], prefix[1..])
  {
    if k != [] {
      if HasPrefix(k, prefix) {
        assert k[0] == k[..|prefix|][0];
        assert k[1..][..|prefix| - 1] == k[..|prefix|][1..];
      }
      if k[0] == prefix[0] && HasPrefix(k[1..], prefix[1..]) {
        assert k[..|prefix|] == [k[0]] + k[1..][..|prefix| - 1];
        assert prefix == [prefix[0]] + prefix[1..];
      }
    }
  }

  /** A key with the prefix is not before it. */
  lemma {:induction false} PrefixIsLowest(k: Key, prefix: Key)
    requires HasPrefix(k, prefix)
    ensures LessEq(prefix, k)
  {
    if prefix != [] {
      PrefixStep(k, prefix);
      PrefixIsLowest(k[1..], prefix[1..]);
      assert k == [k[0]] + k[1..] && prefix == [prefix[0]] + prefix[1..];
    }
  }

  /** Between the prefix and a key that has it, every key has it. */
  lemma {:induction false} PrefixRangeIsConvex(prefix: Key, a: Key, b: Key)
    requires LessEq(prefix, a) && Less(a, b) && HasPrefix(b, prefix)
    ensures HasPrefix(a, prefix)
  {
    if prefix != [] {
      PrefixStep(a, prefix);
      PrefixStep(b, prefix);
      assert a != [];
      PrefixRangeIsConvex(prefix[1..], a[1..], b[1..]);
    }
  }

  /** The bound that the code computes: drop trailing 0xFF bytes, then step the last byte up. */
  function UpperBound(prefix: Key): (upper: Key)
    decreases |prefix|
  {
    if prefix == [] then []
    else
      var n := |prefix| - 1;
      if prefix[n] != 0xFF then prefix[..n] + [prefix[n] + 1] else UpperBound(prefix[..n])
  }

  /** Bound of a key behind its first byte. */
  lemma {:induction false} UpperBoundStep(b: byte, rest: Key)
    ensures UpperBound([b] + rest) == if UpperBound(rest) != [] then [b] + UpperBound(rest) else UpperBound([b])
    decreases |rest|
  {
    if rest == [] {
      assert [b] + rest == [b];
    } else {
      var p, n := [b] + rest, |rest|;
      assert p[n] == rest[n - 1] && p[..n] == [b] + rest[..n - 1];
      if rest[n - 1] == 0xFF {
        UpperBoundStep(b, rest[..n - 1]);
      } else {
        assert p[..n] + [p[n] + 1] == [b] + (rest[..n - 1] + [rest[n - 1] + 1]);
      }
    }
  }

  lemma OneByteBound(b: byte)
    ensures UpperBound([b]) == if b != 0xFF then [b + 1] else []
  {
    assert [b][..0] == [];
  }

  predicate InRange(k: Key, lo: Key, upper: Key) {
    LessEq(lo, k) && (upper == [] || Less(k, upper))
  }

  /** The range from the prefix to its bound holds exactly the keys with the prefix. */
  lemma {:induction false} RangeIsPrefix(k: Key, prefix: Key)
    ensures InRange(k, prefix, UpperBound(prefix)) <==> HasPrefix(k, prefix)
    decreases |prefix|
  {
    if prefix == [] {
      assert LessEq([], k);
    } else {
      var b, rest := prefix[0], prefix[1..];
      assert prefix == [b] + rest;
      UpperBoundStep(b, rest);
      OneByteBound(b);
      PrefixStep(k, prefix);
      if k != [] {
        assert k == [k[0]] + k[1..];
        RangeIsPrefix(k[1..], rest);
        LowerStep(k, prefix);
        UpperStep(k, b, rest);
      }
    }
  }

  lemma LowerStep(k: Key, prefix: Key)
    requires k != [] && prefix != []
    ensures LessEq(prefix, k) <==> prefix[0] < k[0] || (prefix[0] == k[0] && LessEq(prefix[1..], k[1..]))
  {
    assert k == [k[0]] + k[1..] && prefix == [prefix[0]] + prefix[1..];
  }

  lemma UpperStep(k: Key, b: byte, rest: Key)
    requires k != []
    ensures var upper := UpperBound([b] + rest);
            upper == [] || Less(k, upper) <==>
            k[0] < b || (k[0] == b && (UpperBound(rest) == [] || Less(k[1..], UpperBound(rest)))) ||
                (k[0] > b && upper == [])
  {
    UpperBoundStep(b, rest);
    OneByteBound(b);
    if UpperBound(rest) != [] {
      assert ([b] + UpperBound(rest))[1..] == UpperBound(rest);
    } else if b != 0xFF {
      assert Less(k, [b + 1]) <==> k[0] < b + 1 || (k[0] == b + 1 && Less(k[1..], []));
    }
  }

  /* ----- keys in order ----- */

  ghost predicate Ascending(ks: seq<Key>) {
    forall i, j :: 0 <= i < j < |ks| ==> Less(ks[i], ks[j])
  }

  ghost predicate Least(k: Key, s: set<Key>) {
    k in s && forall j :: j in s ==> LessEq(k, j)
  }

  lemma {:induction false} LeastExists(s: set<Key>)
    requires s != {}
    ensures exists k :: Least(k, s)
    decreases |s|
  {
    var a :| a in s;
    if s == {a} {
      assert Least(a, s);
    } else {
      LeastExists(s - {a});
      var b :| Least(b, s - {a});
      LessTotal(a, b);
      if Less(a, b) {
        forall j | j in s
          ensures LessEq(a, j)
        {
          if j != a && j != b {
            assert j in s - {a} && LessEq(b, j);
            LessTransitive(a, b, j);
          }
        }
        assert Least(a, s);
      } else {
        assert Least(b, s);
      }
    }
  }

  /** The keys of a set from least to greatest. */
  ghost function Listing(s: set<Key>): (ks: seq<Key>)
    decreases |s|
  {
    if s == {} then []
    else
      LeastExists(s);
      var k :| Least(k, s);
      [k] + Listing(s - {k})
  }

  lemma {:induction false} ListingIsOrdered(s: set<Key>)
    ensures Ascending(Listing(s)) && |Listing(s)| == |s|
    ensures forall k :: k in Listing(s) <==> k in s
    decreases |s|
  {
    if s != {} {
      LeastExists(s);
      var k :| Least(k, s) && Listing(s) == [k] + Listing(s - {k});
      ListingIsOrdered(s - {k});
      LeastInFront(k, s, Listing(s - {k}));
    }
  }

  lemma LeastInFront(k: Key, s: set<Key>, rest: seq<Key>)
    requires Least(k, s) && Ascending(rest) && forall j :: j in rest <==> j in s - {k}
    ensures Ascending([k] + rest)
  {
    forall j | 0 <= j < |rest|
      ensures Less(k, rest[j])
    {
      assert rest[j] in rest;
    }
  }

  lemma LeastIsUnique(s: set<Key>, a: Key, b: Key)
    requires Least(a, s) && Least(b, s)
    ensures a == b
  {
    if a != b {
      LessAsymmetric(a, b);
    }
  }

  /** Taking the least key off a set takes the first key off its listing. */
  lemma ListingStep(s: set<Key>, k: Key)
    requires Least(k, s)
    ensures Listing(s) == [k] + Listing(s - {k})
  {
    var j :| Least(j, s) && Listing(s) == [j] + Listing(s - {j});
    LeastIsUnique(s, j, k);
  }

  /* ----- visiting ----- */

  ghost function RowsOf(m: map<Key, Value>, ks: seq<Key>): (rows: seq<Row>)
    requires forall k :: k in ks ==> k in m
    ensures |rows| == |ks|
  {
    seq(|ks|, i requires 0 <= i < |ks| => Row(ks[i], m[ks[i]]))
  }

  /** The rows of these keys, in key order. */
  ghost function RowsIn(m: map<Key, Value>, s: set<Key>): (rows: seq<Row>)
    requires s <= m.Keys
  {
    ListingIsOrdered(s);
    RowsOf(m, Listing(s))
  }

  lemma RowsStep(m: map<Key, Value>, s: set<Key>, k: Key)
    requires s <= m.Keys && Least(k, s)
    ensures RowsIn(m, s) == [Row(k, m[k])] + RowsIn(m, s - {k})
  {
    ListingStep(s, k);
  }

  lemma NoRows(m: map<Key, Value>)
    ensures RowsIn(m, {}) == []
  {
  }

  /** All rows, or those up to the first one after which the visitor stops. */
  function VisitFrom(rows: seq<Row>, visit: Visitor, n: nat): (log: seq<Row>)
    requires n <= |rows|
    decreases |rows| - n
  {
    if n == |rows| then rows
    else if !visit(rows[..n + 1]) then rows[..n + 1]
    else VisitFrom(rows, visit, n + 1)
  }

  function Visited(rows: seq<Row>, visit: Visitor): seq<Row> {
    VisitFrom(rows, visit, 0)
  }

  ghost function PrefixKeys(m: map<Key, Value>, prefix: Key): set<Key> {
    set k | k in m && HasPrefix(k, prefix)
  }

  /** What a prefix scan shows its visitor: the rows with the prefix in key order, until it stops. */
  ghost function ScanOf(m: map<Key, Value>, prefix: Key, visit: Visitor): seq<Row> {
    Visited(RowsIn(m, PrefixKeys(m, prefix)), visit)
  }

  /** Scans of chunk keys come out in numeric (x, y, z) order. */
  lemma ChunkScanIsNumeric(s: set<Key>, i: nat, j: nat, k: ChunkKey, l: ChunkKey)
    requires i < j < |Listing(s)| && k.InWord() && l.InWord()
    requires Listing(s)[i] == ChunkStoreKey(k) && Listing(s)[j] == ChunkStoreKey(l)
    ensures k.Before(l)
  {
    ListingIsOrdered(s);
    ChunkKeyOrder(k, l);
  }
}
