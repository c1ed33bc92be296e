/**
 The content registry: permanent, dense name-to-id bindings with tombstones, and the manifest they
 are saved in.
 */
module Registry {
  import Arithmetic
  import opened Bytes
  import Labels

  type Name = seq<byte>

  const CONTENT_UNKNOWN := 0
  const REGISTRY_MAGIC := 0x47525856
  const REGISTRY_VERSION := 1
  const MAX_ENTRIES := 0xFFFF_FFFE
  const HEADER_BYTES := 12
  const COLON := 58
  const PART_MAX := 64

  /* ----- content names ----- */

  predicate NameChar(c: byte) {
    97 <= c <= 122 || 48 <= c <= 57 || c == 95
  }

  predicate OkPart(part: Name) {
    part != [] && |part| <= PART_MAX && forall i :: 0 <= i < |part| ==> NameChar(part[i])
  }

  /** namespace:name, each part 1 to 64 of [a-z0-9_]. */
  ghost predicate ValidContentName(name: Name) {
    exists ns: Name, id: Name :: OkPart(ns) && OkPart(id) && name == ns + [COLON] + id
  }

  method FindColon(name: Name, from: nat) returns (at: nat)
    requires from <= |name|
    ensures from <= at <= |name| && COLON !in name[from..at]
    ensures at < |name| ==> name[at] == COLON
  {
    at := from;
    while at < |name| && name[at] != COLON
      invariant from <= at <= |name| && COLON !in name[from..at]
    {
      assert name[from..at + 1] == name[from..at] + [name[at]];
      at := at + 1;
    }
  }

  method PartIsOk(part: Name) returns (ok: bool)
    ensures ok <==> OkPart(part)
  {
    if part == [] || |part| > PART_MAX {
      return false;
    }
    for i := 0 to |part|
      invariant forall j :: 0 <= j < i ==> NameChar(part[j])
    {
      if !NameChar(part[i]) {
        return false;
      }
    }
    return true;
  }

  lemma NameParts(name: Name, ns: Name, id: Name, colon: nat)
    requires OkPart(ns) && OkPart(id) && name == ns + [COLON] + id
    requires colon <= |name| && COLON !in name[..colon] && (colon < |name| ==> name[colon] == COLON)
    ensures colon == |ns| && name[colon + 1..] == id && COLON !in id
  {
    assert name[|ns|] == COLON;
    assert forall i :: 0 <= i < |ns| ==> name[i] == ns[i] != COLON;
    assert forall i :: 0 <= i < colon ==> name[..colon][i] == name[i];
  }

  method IsValidContentName(name: Name) returns (ok: bool)
    ensures ok <==> ValidContentName(name)
  {
    var colon := FindColon(name, 0);
    assert name[0..colon] == name[..colon];
    if colon == |name| {
      forall ns: Name, id: Name | OkPart(ns) && OkPart(id)
        ensures name != ns + [COLON] + id
      {
        if name == ns + [COLON] + id {
          NameParts(name, ns, id, colon);
        }
      }
      return false;
    }
    var second := FindColon(name, colon + 1);
    var ns, id := name[..colon], name[colon + 1..];
    assert name == ns + [COLON] + id;
    if second < |name| {
      assert id[second - colon - 1] == COLON;
      forall ns': Name, id': Name | OkPart(ns') && OkPart(id')
        ensures name != ns' + [COLON] + id'
      {
        if name == ns' + [COLON] + id' {
          NameParts(name, ns', id', colon);
        }
      }
      return false;
    }
    var okNs := PartIsOk(ns);
    var okId := PartIsOk(id);
    ok := okNs && okId;
    if ns': Name, id': Name :| OkPart(ns') && OkPart(id') && name == ns' + [COLON] + id' {
      NameParts(name, ns', id', colon);
      assert ns == ns';
    }
  }

  lemma NameLength(name: Name)
    requires ValidContentName(name)
    ensures 3 <= |name| <= 129
  {
    var ns: Name, id: Name :| OkPart(ns) && OkPart(id) && name == ns + [COLON] + id;
  }

  /* ----- entries ----- */

  datatype Entry = Entry(name: Name, active: bool)

  ghost predicate DistinctNames(es: seq<Entry>) {
    forall i, j :: 0 <= i < j < |es| ==> es[i].name != es[j].name
  }

  ghost predicate WellFormed(es: seq<Entry>) {
    && |es| <= MAX_ENTRIES
    && DistinctNames(es)
    && forall i :: 0 <= i < |es| ==> ValidContentName(es[i].name)
  }

  /** Ids are positions counted from one; zero when the name is not bound. */
  function IdIn(es: seq<Entry>, name: Name): (id: nat)
    ensures id <= |es|
    ensures id > 0 ==> es[id - 1].name == name
    ensures forall i :: 0 <= i < |es| && (id == 0 || i < id - 1) ==> es[i].name != name
    decreases |es|
  {
    if es == [] then 0
    else if es[0].name == name then 1
    else
      var id := IdIn(es[1..], name);
      if id == 0 then 0 else id + 1
  }

  datatype Op = Register(name: Name) | Tombstone(id: nat)

  /** Registering revives or appends; tombstoning only clears the flag. */
  ghost function Step(es: seq<Entry>, op: Op): seq<Entry> {
    match op
    case Register(name) =>
      var id := IdIn(es, name);
      if !ValidContentName(name) then es
      else if id > 0 then es[id - 1 := Entry(name, true)]
      else if |es| >= MAX_ENTRIES then es
      else es + [Entry(name, true)]
    case Tombstone(id) =>
      if 0 < id <= |es| then es[id - 1 := es[id - 1].(active := false)] else es
  }

  ghost function Run(es: seq<Entry>, ops: seq<Op>): seq<Entry>
    decreases |ops|
  {
    if ops == [] then es else Run(Step(es, ops[0]), ops[1..])
  }

  lemma FlagKeeps(es: seq<Entry>, id: nat, active: bool)
    requires 0 < id <= |es| && WellFormed(es)
    ensures var es' := es[id - 1 := es[id - 1].(active := active)];
            WellFormed(es') && forall i :: 0 <= i < |es| ==> es'[i].name == es[i].name
  {
  }

  lemma AppendKeeps(es: seq<Entry>, e: Entry)
    requires WellFormed(es) && ValidContentName(e.name) && IdIn(es, e.name) == 0 && |es| < MAX_ENTRIES
    ensures WellFormed(es + [e])
  {
  }

  lemma StepKeeps(es: seq<Entry>, op: Op)
    requires WellFormed(es)
    ensures WellFormed(Step(es, op)) && |es| <= |Step(es, op)|
    ensures forall i :: 0 <= i < |es| ==> Step(es, op)[i].name == es[i].name
  {
    match op
    case Register(name) =>
      var id := IdIn(es, name);
      if id > 0 {
        FlagKeeps(es, id, true);
        assert es[id - 1].(active := true) == Entry(name, true);
      } else if ValidContentName(name) && |es| < MAX_ENTRIES {
        AppendKeeps(es, Entry(name, true));
      }
    case Tombstone(id) =>
      if 0 < id <= |es| {
        FlagKeeps(es, id, false);
      }
  }

  /** Over every run, names and ids stay a bijection onto 1..count and no binding changes. */
  lemma {:induction false} RunKeepsBindings(es: seq<Entry>, ops: seq<Op>)
    requires WellFormed(es)
    ensures WellFormed(Run(es, ops)) && |es| <= |Run(es, ops)|
    ensures forall i :: 0 <= i < |es| ==> Run(es, ops)[i].name == es[i].name
    decreases |ops|
  {
    if ops != [] {
      StepKeeps(es, ops[0]);
      RunKeepsBindings(Step(es, ops[0]), ops[1..]);
    }
  }

  lemma IdOfPosition(es: seq<Entry>, i: nat)
    requires DistinctNames(es) && i < |es|
    ensures IdIn(es, es[i].name) == i + 1
  {
    var id := IdIn(es, es[i].name);
    assert id > 0 && es[id - 1].name == es[i].name;
  }

  /** Removing content and registering it again later gives back the same id. */
  lemma RevivalKeepsId(es: seq<Entry>, ops: seq<Op>, name: Name)
    requires WellFormed(es) && IdIn(es, name) > 0
    ensures IdIn(Run(es, ops), name) == IdIn(es, name)
    ensures var id := IdIn(es, name); Step(Run(es, ops), Register(name))[id - 1] == Entry(name, true)
  {
    RunKeepsBindings(es, ops);
    IdOfPosition(Run(es, ops), IdIn(es, name) - 1);
  }

  /* ----- the manifest ----- */

  function EntryBytes(e: Entry): seq<byte> {
    [if e.active then 1 else 0] + LE(|e.name|, 2) + e.name
  }

  function EntriesBytes(es: seq<Entry>): seq<byte> {
    if es == [] then [] else EntryBytes(es[0]) + EntriesBytes(es[1..])
  }

  function HeaderOf(count: nat): (bs: seq<byte>)
    ensures |bs| == HEADER_BYTES
  {
    LE(REGISTRY_MAGIC, 4) + [REGISTRY_VERSION, 0, 0, 0] + LE(count, 4)
  }

  function Manifest(es: seq<Entry>): seq<byte> {
    HeaderOf(|es|) + EntriesBytes(es)
  }

  /** Where the first entry of these bytes ends, by its own length field. */
  function FirstEnd(bs: seq<byte>): nat
    requires |bs| >= 3
  {
    3 + GetLE(bs, 1, 2)
  }

  /** The bytes start with an entry: a flag of 0 or 1, a length within bounds, a legal name. */
  ghost predicate Readable(bs: seq<byte>) {
    |bs| >= 3 && bs[0] <= 1 && FirstEnd(bs) <= |bs| && ValidContentName(bs[3..FirstEnd(bs)])
  }

  function FirstEntry(bs: seq<byte>): Entry
    requires |bs| >= 3 && FirstEnd(bs) <= |bs|
  {
    Entry(bs[3..FirstEnd(bs)], bs[0] == 1)
  }

  /** Parses n more entries from the rest of a manifest; every violation rejects all of it. */
  ghost function ParseEntries(bs: seq<byte>, n: nat, seen: seq<Entry>): Option<seq<Entry>>
    decreases n
  {
    if n == 0 then if bs == [] then Some(seen) else None
    else if !Readable(bs) || IdIn(seen, FirstEntry(bs).name) > 0 then None
    else ParseEntries(bs[FirstEnd(bs)..], n - 1, seen + [FirstEntry(bs)])
  }

  predicate HeaderOk(blob: seq<byte>) {
    |blob| >= HEADER_BYTES && GetLE(blob, 0, 4) == REGISTRY_MAGIC && blob[4] == REGISTRY_VERSION &&
        GetLE(blob, 8, 4) <= MAX_ENTRIES
  }

  ghost function Parsed(blob: seq<byte>): Option<seq<Entry>> {
    if HeaderOk(blob) then ParseEntries(blob[HEADER_BYTES..], GetLE(blob, 8, 4), []) else None
  }

  /* ----- where everything lies in a manifest ----- */

  /** The ASCII codes of lower-case letters, digits and underscore, and nothing else. */
  lemma NameAlphabet(c: byte)
    ensures NameChar(c) <==>
            var ch := c as char;
            ch in "abcdefghijklm" || ch in "nopqrstuvwxyz" || ch in "0123456789" || ch == '_'
  {
    Labels.LettersToM(c as char);
    Labels.LettersFromN(c as char);
    Labels.Digits(c as char);
  }

  /** Bytes before entry i: the header, then three bytes and the name for each entry in front of it. */
  function EntryStart(es: seq<Entry>, i: nat): (at: nat)
    requires i <= |es|
  {
    if i == 0 then 12 else EntryStart(es, i - 1) + 3 + |es[i - 1].name|
  }

  /** "VXRG", version one, three zero bytes and the count. */
  lemma ManifestHeader(es: seq<Entry>)
    requires |es| <= MAX_ENTRIES
    ensures var bs := Manifest(es);
            |bs| >= 12 && bs[..8] == [0x56, 0x58, 0x52, 0x47, 1, 0, 0, 0] && GetLE(bs, 8, 4) == |es|
  {
    MagicBytes(|es|);
    HeaderInFront(|es|, EntriesBytes(es));
  }

  /** Behind the header come flag, length and name of each entry, in id order. */
  lemma ManifestEntry(es: seq<Entry>, i: nat, bs: seq<byte>, at: nat, n: nat)
    requires WellFormed(es) && i < |es| && bs == Manifest(es) && at == EntryStart(es, i) && n == |es[i].name|
    ensures at + 3 + n <= |bs| && bs[at] == if es[i].active then 1 else 0
    ensures bs[at + 1] == n % 256 && bs[at + 2] == n / 256 && bs[at + 3..at + 3 + n] == es[i].name
  {
    EntryAt(es, i, bs);
    NameFits(es, i);
    EntryInside(es[i], bs, at, n);
  }

  lemma NameFits(es: seq<Entry>, i: nat)
    requires WellFormed(es) && i < |es|
    ensures |es[i].name| < 0x1_0000
  {
    NameLength(es[i].name);
  }

  lemma EntryInside(e: Entry, bs: seq<byte>, at: nat, n: nat)
    requires at <= |bs| && EntryBytes(e) <= bs[at..] && n == |e.name| < 0x1_0000
    ensures at + 3 + n <= |bs| && bs[at] == if e.active then 1 else 0
    ensures bs[at + 1] == n % 256 && bs[at + 2] == n / 256 && bs[at + 3..at + 3 + n] == e.name
  {
    LengthBytes(e);
    PrefixInside(EntryBytes(e), bs, at);
  }

  lemma PrefixInside(e: seq<byte>, bs: seq<byte>, at: nat)
    requires at <= |bs| && e <= bs[at..] && |e| >= 3
    ensures at + |e| <= |bs| && bs[at] == e[0] && bs[at + 1] == e[1] && bs[at + 2] == e[2]
    ensures bs[at + 3..at + |e|] == e[3..]
  {
    assert bs[at..][..|e|] == e;
    assert bs[at..at + |e|] == e;
  }

  lemma MagicBytes(count: nat)
    ensures HeaderOf(count)[..8] == [0x56, 0x58, 0x52, 0x47, 1, 0, 0, 0]
  {
    FourBytesOf(REGISTRY_MAGIC);
  }

  lemma {:induction false} EntryAt(es: seq<Entry>, i: nat, bs: seq<byte>)
    requires i < |es| && bs == Manifest(es)
    ensures EntryStart(es, i) <= |bs| && EntryBytes(es[i]) <= bs[EntryStart(es, i)..]
    ensures bs[EntryStart(es, i)..] == EntriesBytes(es[i..])
  {
    if i == 0 {
      assert es[0..] == es && bs[12..] == EntriesBytes(es);
    } else {
      EntryAt(es, i - 1, bs);
      var at, e := EntryStart(es, i - 1), es[i - 1];
      assert es[i - 1..][1..] == es[i..];
      assert bs[at..] == EntryBytes(e) + EntriesBytes(es[i..]);
      assert bs[at + |EntryBytes(e)|..] == bs[at..][|EntryBytes(e)|..];
    }
  }

  lemma LengthBytes(e: Entry)
    requires |e.name| < 0x1_0000
    ensures |EntryBytes(e)| == 3 + |e.name|
    ensures var bs := EntryBytes(e); var n := |e.name|; bs[1] == n % 256 && bs[2] == n / 256 && bs[3..] == e.name
  {
    var n := |e.name|;
    assert LE(n, 2) == [n % 256] + LE(n / 256, 1) == [n % 256, n / 256 % 256];
  }

  /* ----- round trips ----- */

  lemma TwoBytes(n: nat)
    requires n < 0x1_0000
    ensures FromLE(LE(n, 2)) == n
  {
    assert Arithmetic.Pow(256, 2) == 0x1_0000;
    FromLEOfLE(n, 2);
  }

  lemma FourBytes(n: nat)
    requires n < 0x1_0000_0000
    ensures FromLE(LE(n, 4)) == n
  {
    assert Arithmetic.Pow(256, 2) == 0x1_0000;
    assert Arithmetic.Pow(256, 4) == 0x1_0000_0000;
    FromLEOfLE(n, 4);
  }

  /** The fields of an entry, read back from in front of anything. */
  lemma EntryFields(e: Entry, rest: seq<byte>)
    requires |e.name| <= 129
    ensures var bs := EntryBytes(e) + rest; var end := 3 + |e.name|;
            && |bs| >= end && bs[0] == (if e.active then 1 else 0)
            && GetLE(bs, 1, 2) == |e.name| && bs[3..end] == e.name && bs[end..] == rest
  {
    var bs := EntryBytes(e) + rest;
    TwoBytes(|e.name|);
    assert bs[1..3] == LE(|e.name|, 2);
  }

  lemma {:induction false} ParseOfEntries(es: seq<Entry>, seen: seq<Entry>)
    requires WellFormed(seen + es)
    ensures ParseEntries(EntriesBytes(es), |es|, seen) == Some(seen + es)
    decreases |es|
  {
    if es == [] {
      assert seen + es == seen;
    } else {
      var e := es[0];
      assert (seen + es)[|seen|] == e;
      NotBoundYet(seen, es);
      assert seen + [e] + es[1..] == seen + es;
      ParseOfEntries(es[1..], seen + [e]);
      FirstIsParsed(e, EntriesBytes(es[1..]), |es| - 1, seen);
    }
  }

  lemma FirstIsParsed(e: Entry, rest: seq<byte>, n: nat, seen: seq<Entry>)
    requires ValidContentName(e.name) && IdIn(seen, e.name) == 0
    ensures ParseEntries(EntryBytes(e) + rest, n + 1, seen) == ParseEntries(rest, n, seen + [e])
  {
    NameLength(e.name);
    EntryFields(e, rest);
    assert FirstEntry(EntryBytes(e) + rest) == e;
  }

  lemma NotBoundYet(seen: seq<Entry>, es: seq<Entry>)
    requires DistinctNames(seen + es) && es != []
    ensures IdIn(seen, es[0].name) == 0
  {
    forall i | 0 <= i < |seen|
      ensures seen[i].name != es[0].name
    {
      assert (seen + es)[i] == seen[i] && (seen + es)[|seen|] == es[0];
    }
  }

  lemma HeaderParts(count: nat)
    requires count <= MAX_ENTRIES
    ensures var h := HeaderOf(count);
            h[0..4] == LE(REGISTRY_MAGIC, 4) && h[4] == REGISTRY_VERSION && h[5..8] == [0, 0, 0] &&
                h[8..12] == LE(count, 4)
  {
  }

  lemma HeaderInFront(count: nat, rest: seq<byte>)
    requires count <= MAX_ENTRIES
    ensures var blob := HeaderOf(count) + rest;
            && HeaderOk(blob) && GetLE(blob, 8, 4) == count && blob[HEADER_BYTES..] == rest && blob[5..8] == [0, 0, 0]
  {
    var h := HeaderOf(count);
    HeaderParts(count);
    FourBytes(REGISTRY_MAGIC);
    FourBytes(count);
    SliceOfFront(h, rest, 0, 4);
    SliceOfFront(h, rest, 5, 8);
    SliceOfFront(h, rest, 8, 12);
    assert (h + rest)[4] == h[4];
  }

  /** Loading what a registry saved gives the registry back. */
  lemma ParsedOfManifest(es: seq<Entry>)
    requires WellFormed(es)
    ensures Parsed(Manifest(es)) == Some(es)
  {
    HeaderInFront(|es|, EntriesBytes(es));
    assert [] + es == es;
    ParseOfEntries(es, []);
  }

  lemma OneEntryBack(bs: seq<byte>, end: nat)
    requires |bs| >= 3 && bs[0] <= 1 && end == 3 + GetLE(bs, 1, 2) <= |bs|
    ensures bs == EntryBytes(Entry(bs[3..end], bs[0] == 1)) + bs[end..]
  {
    BytesOfField(bs, 1, 2);
    assert bs == [bs[0]] + bs[1..3] + bs[3..end] + bs[end..];
  }

  lemma ParsedTail(es: seq<Entry>, seen: seq<Entry>, e: Entry)
    requires |es| > |seen| && es[..|seen| + 1] == seen + [e]
    ensures es[..|seen|] == seen
    ensures EntriesBytes(es[|seen|..]) == EntryBytes(e) + EntriesBytes(es[|seen| + 1..])
  {
    assert es[..|seen|] == es[..|seen| + 1][..|seen|];
    assert es[|seen|] == es[..|seen| + 1][|seen|] == e;
    assert es[|seen|..][1..] == es[|seen| + 1..];
  }

  /** Accepted entries are well formed, and saving them gives the parsed bytes back. */
  lemma {:induction false} EntriesOfParse(bs: seq<byte>, n: nat, seen: seq<Entry>)
    requires WellFormed(seen) && |seen| + n <= MAX_ENTRIES
    requires ParseEntries(bs, n, seen).Some?
    ensures var es := ParseEntries(bs, n, seen).value;
            && WellFormed(es) && |es| == |seen| + n && es[..|seen|] == seen
            && EntriesBytes(es[|seen|..]) == bs
    decreases n
  {
    if n > 0 {
      var e, end := FirstEntry(bs), FirstEnd(bs);
      AppendKeeps(seen, e);
      EntriesOfParse(bs[end..], n - 1, seen + [e]);
      OneEntryBack(bs, end);
      ParsedTail(ParseEntries(bs, n, seen).value, seen, e);
    }
  }

  lemma HeaderBack(blob: seq<byte>)
    requires HeaderOk(blob)
    ensures blob[..HEADER_BYTES] == HeaderOf(GetLE(blob, 8, 4)) <==> blob[5..8] == [0, 0, 0]
  {
    BytesOfField(blob, 0, 4);
    BytesOfField(blob, 8, 4);
    var header := HeaderOf(GetLE(blob, 8, 4));
    assert header[5..8] == [0, 0, 0];
    assert blob[..12] == blob[0..4] + [blob[4]] + blob[5..8] + blob[8..12];
    if blob[..12] == header {
      assert blob[5..8] == blob[..12][5..8];
    }
  }

  lemma ParsedEntriesBack(blob: seq<byte>)
    requires Parsed(blob).Some?
    ensures var es := Parsed(blob).value;
            WellFormed(es) && |es| == GetLE(blob, 8, 4) && EntriesBytes(es) == blob[HEADER_BYTES..]
  {
    EntriesOfParse(blob[HEADER_BYTES..], GetLE(blob, 8, 4), []);
    var es := Parsed(blob).value;
    assert es[0..] == es;
  }

  lemma SameFront(a: seq<byte>, a': seq<byte>, b: seq<byte>)
    ensures a + b == a' + b <==> a == a'
  {
    if a + b == a' + b {
      assert (a + b)[..|a|] == a && (a' + b)[..|a'|] == a';
    }
  }

  /** An accepted manifest saves back to the same bytes exactly when its reserved bytes are zero. */
  lemma ManifestOfParsed(blob: seq<byte>)
    requires Parsed(blob).Some?
    ensures WellFormed(Parsed(blob).value)
    ensures Manifest(Parsed(blob).value) == blob <==> blob[5..8] == [0, 0, 0]
  {
    ParsedEntriesBack(blob);
    HeaderBack(blob);
    var es, front, back := Parsed(blob).value, blob[..HEADER_BYTES], blob[HEADER_BYTES..];
    assert blob == front + back;
    SameFront(HeaderOf(|es|), front, back);
  }

  /* ----- the class ----- */

  lemma {:induction false} EntriesBytesNext(es: seq<Entry>, i: nat)
    requires i < |es|
    ensures EntriesBytes(es[..i + 1]) == EntriesBytes(es[..i]) + EntryBytes(es[i])
    decreases |es|
  {
    if i == 0 {
      assert es[..1] == [es[0]] && es[..0] == [];
      assert es[..1][1..] == [];
    } else {
      EntriesBytesNext(es[1..], i - 1);
      assert es[..i + 1][1..] == es[1..][..i] && es[..i][1..] == es[1..][..i - 1];
    }
  }

  method WriteHeader(count: nat) returns (out: seq<byte>)
    ensures out == HeaderOf(count)
  {
    out := PutLE([], REGISTRY_MAGIC, 4);
    out := out + [REGISTRY_VERSION, 0, 0, 0];
    out := PutLE(out, count, 4);
  }

  method WriteEntry(out: seq<byte>, e: Entry) returns (r: seq<byte>)
    ensures r == out + EntryBytes(e)
  {
    r := out + [if e.active then 1 else 0];
    r := PutLE(r, |e.name|, 2);
    r := r + e.name;
  }

  class ContentRegistry {
    var entries: seq<Entry>
    var byName: map<Name, nat>

    /** The two directions of the binding are inverse to each other. */
    ghost predicate Valid()
      reads this
    {
      && WellFormed(entries)
      && forall name :: (name in byName <==> IdIn(entries, name) > 0) &&
           (name in byName ==> byName[name] == IdIn(entries, name))
    }

    constructor ()
      ensures Valid() && entries == []
    {
      entries, byName := [], map[];
    }

    /** Binds a name that is known to be new. */
    method Append(name: Name, active: bool)
      requires Valid() && ValidContentName(name) && IdIn(entries, name) == 0 && |entries| < MAX_ENTRIES
      modifies this
      ensures Valid() && entries == old(entries) + [Entry(name, active)]
    {
      AppendIds(entries, Entry(name, active));
      entries := entries + [Entry(name, active)];
      byName := byName[name := |entries|];
    }

    method RegisterContent(name: Name) returns (id: nat)
      requires Valid()
      modifies this
      ensures Valid() && entries == Step(old(entries), Register(name))
      ensures id == if ValidContentName(name) then IdIn(entries, name) else CONTENT_UNKNOWN
    {
      var ok := IsValidContentName(name);
      if !ok {
        return CONTENT_UNKNOWN;
      }
      if name in byName {
        id := byName[name];
        ReviveIds(entries, id);
        entries := entries[id - 1 := entries[id - 1].(active := true)];
        return;
      }
      if |entries| >= MAX_ENTRIES {
        return CONTENT_UNKNOWN;
      }
      Append(name, true);
      IdOfPosition(entries, |entries| - 1);
      return |entries|;
    }

    method TombstoneId(id: nat) returns (ok: bool)
      requires Valid()
      modifies this`entries
      ensures Valid() && entries == Step(old(entries), Tombstone(id))
      ensures ok <==> 0 < id <= |old(entries)|
    {
      if id == CONTENT_UNKNOWN || id > |entries| {
        return false;
      }
      FlagIds(entries, id, false);
      entries := entries[id - 1 := entries[id - 1].(active := false)];
      return true;
    }

    method IdOf(name: Name) returns (id: nat)
      requires Valid()
      ensures id == IdIn(entries, name)
    {
      return if name in byName then byName[name] else CONTENT_UNKNOWN;
    }

    method NameOf(id: nat) returns (name: Name)
      requires Valid()
      ensures if 0 < id <= |entries| then ValidContentName(name) && IdIn(entries, name) == id else name == []
    {
      if id == CONTENT_UNKNOWN || id > |entries| {
        return [];
      }
      IdOfPosition(entries, id - 1);
      return entries[id - 1].name;
    }

    method Serialize() returns (out: seq<byte>)
      ensures out == Manifest(entries)
    {
      out := WriteHeader(|entries|);
      ghost var header := out;
      for i := 0 to |entries|
        invariant out == header + EntriesBytes(entries[..i])
      {
        EntriesBytesNext(entries, i);
        out := WriteEntry(out, entries[i]);
      }
      assert entries[..|entries|] == entries;
    }

    /** Reads one more entry of a manifest into the registry, if it is there and its name is new. */
    method TakeEntry(blob: seq<byte>, at: nat, ghost n: nat) returns (ok: bool, end: nat)
      requires Valid() && at <= |blob| && n > 0 && |entries| + n <= MAX_ENTRIES
      modifies this
      ensures Valid()
      ensures !ok ==> ParseEntries(blob[at..], n, old(entries)).None?
      ensures ok ==> end <= |blob| && |entries| == |old(entries)| + 1
      ensures ok ==> ParseEntries(blob[at..], n, old(entries)) == ParseEntries(blob[end..], n - 1, entries)
    {
      var e;
      ok, e, end := ReadEntry(blob, at);
      if !ok || e.name in byName {
        return false, end;
      }
      assert blob[at..][FirstEnd(blob[at..])..] == blob[end..];
      Append(e.name, e.active);
    }

    static method Deserialize(blob: seq<byte>) returns (ok: bool, reg: ContentRegistry)
      ensures ok <==> Parsed(blob).Some?
      ensures fresh(reg) && (ok ==> reg.Valid() && reg.entries == Parsed(blob).value)
    {
      ok := false;
      reg := new ContentRegistry();
      if |blob| < HEADER_BYTES {
        return;
      }
      var magic := ReadLE(blob, 0, 4);
      if magic != REGISTRY_MAGIC || blob[4] != REGISTRY_VERSION {
        return;
      }
      var count := ReadLE(blob, 8, 4);
      if count > MAX_ENTRIES {
        return;
      }
      var at: nat := HEADER_BYTES;
      for i := 0 to count
        invariant fresh(reg) && reg.Valid() && |reg.entries| == i && at <= |blob|
        invariant ParseEntries(blob[at..], count - i, reg.entries) == Parsed(blob)
      {
        var taken, end := reg.TakeEntry(blob, at, count - i);
        if !taken {
          return;
        }
        at := end;
      }
      ok := at == |blob|;
    }
  }

  /** Reads one entry at an offset. */
  method ReadEntry(blob: seq<byte>, at: nat) returns (ok: bool, e: Entry, end: nat)
    requires at <= |blob|
    ensures ok <==> Readable(blob[at..])
    ensures ok ==> e == FirstEntry(blob[at..]) && end == at + FirstEnd(blob[at..])
  {
    ok, e, end := false, Entry([], false), at;
    if |blob| < at + 3 || blob[at] > 1 {
      return;
    }
    var len := ReadLE(blob, at + 1, 2);
    assert blob[at..][1..3] == blob[at + 1..at + 3];
    end := at + 3 + len;
    if |blob| < end {
      return;
    }
    e := Entry(blob[at + 3..end], blob[at] == 1);
    assert blob[at..][3..3 + len] == e.name;
    ok := IsValidContentName(e.name);
  }

  lemma AppendId(es: seq<Entry>, e: Entry, name: Name)
    requires DistinctNames(es + [e])
    ensures IdIn(es + [e], name) == if name == e.name then |es| + 1 else IdIn(es, name)
  {
    var id := IdIn(es, name);
    if name == e.name {
      IdOfPosition(es + [e], |es|);
    } else if id > 0 {
      assert (es + [e])[id - 1].name == name;
      IdOfPosition(es + [e], id - 1);
    } else {
      assert forall i :: 0 <= i < |es + [e]| ==> (es + [e])[i].name != name;
    }
  }

  lemma AppendIds(es: seq<Entry>, e: Entry)
    requires IdIn(es, e.name) == 0 && DistinctNames(es)
    ensures forall name :: IdIn(es + [e], name) == if name == e.name then |es| + 1 else IdIn(es, name)
  {
    assert DistinctNames(es + [e]);
    forall name {
      AppendId(es, e, name);
    }
  }

  lemma FlagIds(es: seq<Entry>, id: nat, active: bool)
    requires 0 < id <= |es| && WellFormed(es)
    ensures var es' := es[id - 1 := es[id - 1].(active := active)];
            WellFormed(es') && forall name :: IdIn(es', name) == IdIn(es, name)
  {
    var es' := es[id - 1 := es[id - 1].(active := active)];
    assert DistinctNames(es');
    forall name
      ensures IdIn(es', name) == IdIn(es, name)
    {
      var a, b := IdIn(es, name), IdIn(es', name);
      if a > 0 {
        assert es'[a - 1].name == name;
        IdOfPosition(es', a - 1);
      }
    }
  }

  lemma ReviveIds(es: seq<Entry>, id: nat)
    requires 0 < id <= |es| && WellFormed(es)
    ensures var es' := es[id - 1 := Entry(es[id - 1].name, true)];
            es' == es[id - 1 := es[id - 1].(active := true)] && WellFormed(es') &&
                forall name :: IdIn(es', name) == IdIn(es, name)
  {
    FlagIds(es, id, true);
  }
}
