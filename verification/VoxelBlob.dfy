/**
 The packed voxel blob: a 16-byte header, a palette of 16-byte entries, and a stream of
 64-bit words holding one fixed-width palette index per cell, little-endian throughout.
 */
module VoxelBlob {
  import opened Arithmetic
  import opened Bytes
  import D = Digits
  import Morton

  datatype CellValue = CellValue(content: u32, state: u64)

  datatype UnpackedChunk = UnpackedChunk(log2Extent: nat, palette: seq<CellValue>, cells: seq<CellValue>)

  const MAGIC: u32 := 0x3142_5856
  const VERSION: byte := 1
  const HEADER_BYTES := 16
  const ENTRY_BYTES := 16
  const MAX_LOG2_EXTENT := 5

  predicate LegalIndexBits(bits: nat) {
    bits == 0 || bits == 1 || bits == 2 || bits == 4 || bits == 8 || bits == 16
  }

  function MinimalIndexBits(count: nat): (bits: nat)
    ensures LegalIndexBits(bits)
  {
    if count <= 1 then 0
    else if count <= 2 then 1
    else if count <= 4 then 2
    else if count <= 16 then 4
    else if count <= 256 then 8
    else 16
  }

  /** The cells of a cube of edge 2^l. */
  function CellCount(l: nat): (n: nat) {
    var extent := Pow(2, l);
    extent * extent * extent
  }

  function IndexWords(cellCount: nat, bits: nat): (n: nat) {
    if bits == 0 then 0 else (cellCount * bits + 63) / 64
  }

  datatype HeaderInfo = HeaderInfo(log2Extent: nat, indexBits: nat, paletteCount: nat)
  {
    function Cells(): nat { CellCount(log2Extent) }

    function Words(): nat { IndexWords(Cells(), indexBits) }

    function TotalBytes(): nat {
      HEADER_BYTES + paletteCount * ENTRY_BYTES + Words() * 8
    }

    predicate Valid() {
      && 1 <= log2Extent <= MAX_LOG2_EXTENT
      && LegalIndexBits(indexBits)
      && 1 <= paletteCount <= Cells()
      && (if indexBits == 0 then paletteCount == 1 else paletteCount <= Pow(2, indexBits))
    }
  }

  /** Header and exact-size validation; reserved bytes are ignored. */
  function ReadHeader(blob: seq<byte>): (h: Option<HeaderInfo>)
    ensures h.Some? ==> h.value.Valid() && |blob| == h.value.TotalBytes()
  {
    if |blob| < HEADER_BYTES then None
    else if GetLE(blob, 0, 4) != MAGIC then None
    else if blob[4] != VERSION then None
    else
      var h := HeaderInfo(blob[5], blob[6], GetLE(blob, 8, 4));
      if h.log2Extent < 1 || h.log2Extent > MAX_LOG2_EXTENT then None
      else if !LegalIndexBits(h.indexBits) then None
      else if h.paletteCount < 1 || h.paletteCount > h.Cells() then None
      else if h.indexBits == 0 && h.paletteCount != 1 then None
      else if h.indexBits != 0 && Pow(2, h.indexBits) < h.paletteCount then None
      else if |blob| != h.TotalBytes() then None
      else Some(h)
  }

  /** The palette entry in a slot; the flags word is ignored. */
  function ReadPaletteEntry(blob: seq<byte>, slot: nat): (e: CellValue)
    requires HEADER_BYTES + (slot + 1) * ENTRY_BYTES <= |blob|
  {
    var at := HEADER_BYTES + slot * ENTRY_BYTES;
    ReadRange(blob, at, 4);
    ReadRange(blob, at + 8, 8);
    CellValue(GetLE(blob, at, 4), GetLE(blob, at + 8, 8))
  }

  lemma ReadRange(blob: seq<byte>, at: nat, n: nat)
    requires at + n <= |blob|
    ensures GetLE(blob, at, n) < Pow(256, n)
    ensures Pow(256, 4) == 0x1_0000_0000 && Pow(256, 8) == 0x1_0000_0000_0000_0000
  {
    FromLERange(blob[at..at + n]);
    assert Pow(256, 4) == 256 * (256 * (256 * 256)) by { assert Pow(256, 2) == 65536; }
    assert Pow(256, 8) == Pow(256, 4) * Pow(256, 4) by { PowAdd(256, 4, 4); }
  }

  /** The stream word that holds a cell's index, and the bit at which the index starts there. */
  function WordIndex(bits: nat, cell: nat): (w: nat) {
    cell * bits / 64
  }

  function BitIndex(bits: nat, cell: nat): (b: nat)
    ensures b < 64
  {
    (cell * bits) % 64
  }

  /** Byte offset of the stream word that holds a cell's index. */
  function WordAt(h: HeaderInfo, cell: nat): nat {
    HEADER_BYTES + h.paletteCount * ENTRY_BYTES + WordIndex(h.indexBits, cell) * 8
  }

  /** The index stored for a cell: shift the word down to the cell's bits and mask. */
  function ReadIndex(blob: seq<byte>, h: HeaderInfo, cell: nat): (slot: nat)
    requires WordAt(h, cell) + 8 <= |blob|
  {
    var word := GetLE(blob, WordAt(h, cell), 8);
    (word / Pow(2, BitIndex(h.indexBits, cell))) % Pow(2, h.indexBits)
  }

  /** Cells whose indices share a stream word. */
  function CellsPerWord(bits: nat): (n: nat)
    requires LegalIndexBits(bits) && bits != 0
    ensures n * bits == 64 && 4 <= n
  {
    64 / bits
  }

  /** Where a cell's bits lie: whole words never split an index. */
  lemma BitPosition(bits: nat, cell: nat)
    requires LegalIndexBits(bits) && bits != 0
    ensures var n := CellsPerWord(bits);
            WordIndex(bits, cell) == cell / n && BitIndex(bits, cell) == (cell % n) * bits
  {
    var n := CellsPerWord(bits);
    BitsOfCell(bits, n, cell, cell / n, cell % n);
  }

  lemma BitsOfCell(bits: nat, n: nat, cell: nat, q: nat, r: nat)
    requires n * bits == 64 && cell == n * q + r && r < n && bits > 0
    ensures cell * bits / 64 == q && cell * bits % 64 == r * bits
  {
    Spread(n, q, r, bits);
    MulMono(bits, r + 1, n);
    DivUnique(cell * bits, 64, q, r * bits);
  }

  lemma Spread(n: nat, q: nat, r: nat, bits: nat)
    requires n * bits == 64
    ensures (n * q + r) * bits == 64 * q + r * bits
  {
    assert (n * q) * bits == (n * bits) * q;
  }

  lemma WordCount(bits: nat, cells: nat)
    requires LegalIndexBits(bits) && bits != 0
    ensures var n := CellsPerWord(bits); IndexWords(cells, bits) == (cells + n - 1) / n
  {
  }

  lemma WordInBlob(blob: seq<byte>, h: HeaderInfo, cell: nat)
    requires h.Valid() && |blob| == h.TotalBytes() && cell < h.Cells() && h.indexBits != 0
    ensures WordAt(h, cell) + 8 <= |blob|
  {
    BitPosition(h.indexBits, cell);
    WordCount(h.indexBits, h.Cells());
    var n := CellsPerWord(h.indexBits);
    CeilAbove(cell, h.Cells(), n);
  }

  lemma CeilAbove(i: nat, m: nat, n: nat)
    requires n > 0 && i < m
    ensures i / n < (m + n - 1) / n
  {
    var q := (m + n - 1) / n;
    assert m + n - 1 == n * q + (m + n - 1) % n;
    if q <= i / n {
      MulMono(n, q, i / n);
    }
  }

  lemma CellCountIsPow8(l: nat)
    requires l <= MAX_LOG2_EXTENT
    ensures CellCount(l) == Pow(8, l) <= 32768
  {
    assert Pow(2, 1) == 2 && Pow(2, 2) == 4 && Pow(2, 3) == 8 && Pow(2, 4) == 16 && Pow(2, 5) == 32;
    assert Pow(8, 1) == 8 && Pow(8, 2) == 64 && Pow(8, 3) == 512 && Pow(8, 4) == 4096 && Pow(8, 5) == 32768;
  }

  /* ----- packing ----- */

  /** Distinct cell values in order of first appearance. */
  function FirstAppearance(cells: seq<CellValue>): (palette: seq<CellValue>)
    decreases |cells|
  {
    if cells == [] then []
    else
      var front := FirstAppearance(cells[..|cells| - 1]);
      var last := cells[|cells| - 1];
      if last in front then front else front + [last]
  }

  /** First slot of the palette that holds v. */
  function SlotOf(palette: seq<CellValue>, v: CellValue): (s: nat)
    ensures s <= |palette|
    ensures s < |palette| ==> palette[s] == v
    ensures forall j :: 0 <= j < s ==> palette[j] != v
  {
    if palette == [] then 0
    else if palette[0] == v then 0
    else 1 + SlotOf(palette[1..], v)
  }

  lemma SlotOfMember(palette: seq<CellValue>, v: CellValue)
    ensures v in palette <==> SlotOf(palette, v) < |palette|
  {
  }

  ghost predicate Distinct(palette: seq<CellValue>) {
    forall i, j :: 0 <= i < j < |palette| ==> palette[i] != palette[j]
  }

  lemma {:induction false} FirstAppearanceFacts(cells: seq<CellValue>)
    ensures Distinct(FirstAppearance(cells))
    ensures forall v :: v in FirstAppearance(cells) <==> v in cells
    ensures |FirstAppearance(cells)| <= |cells|
    ensures cells != [] ==> FirstAppearance(cells) != []
    decreases |cells|
  {
    if cells != [] {
      var front := cells[..|cells| - 1];
      FirstAppearanceFacts(front);
      assert cells == front + [cells[|cells| - 1]];
    }
  }

  /** The palette only grows, so slots handed out early stay right. */
  lemma {:induction false} FirstAppearancePrefix(cells: seq<CellValue>, n: nat)
    requires n <= |cells|
    ensures FirstAppearance(cells[..n]) <= FirstAppearance(cells)
    decreases |cells|
  {
    if n == |cells| {
      assert cells[..n] == cells;
    } else {
      FirstAppearancePrefix(cells[..|cells| - 1], n);
      assert cells[..|cells| - 1][..n] == cells[..n];
    }
  }

  function SlotsOf(palette: seq<CellValue>, cells: seq<CellValue>): (slots: seq<nat>)
    ensures |slots| == |cells|
  {
    seq(|cells|, i requires 0 <= i < |cells| => SlotOf(palette, cells[i]))
  }

  /** The slots that share stream word w. */
  function Segment(slots: seq<nat>, n: nat, w: nat): (part: seq<nat>)
  {
    slots[Min(n * w, |slots|)..Min(n * w + n, |slots|)]
  }

  /** Stream word w: its slots as digits, lowest bits first. */
  function StreamWord(slots: seq<nat>, bits: nat, w: nat): nat
    requires LegalIndexBits(bits) && bits != 0
  {
    D.Pack(Segment(slots, CellsPerWord(bits), w), Pow(2, bits))
  }

  function Stream(slots: seq<nat>, bits: nat): (words: seq<nat>)
    requires LegalIndexBits(bits)
  {
    if bits == 0 then []
    else seq(IndexWords(|slots|, bits), (w: nat) => StreamWord(slots, bits, w))
  }

  function HeaderBytes(log2Extent: byte, bits: byte, paletteCount: nat): (bs: seq<byte>)
    ensures |bs| == HEADER_BYTES
  {
    LE(MAGIC, 4) + [VERSION, log2Extent, bits, 0] + LE(paletteCount, 4) + LE(0, 4)
  }

  function EntryBytes(e: CellValue): (bs: seq<byte>)
    ensures |bs| == ENTRY_BYTES
  {
    LE(e.content, 4) + LE(0, 4) + LE(e.state, 8)
  }

  function PaletteRecords(palette: seq<CellValue>): seq<seq<byte>> {
    seq(|palette|, s requires 0 <= s < |palette| => EntryBytes(palette[s]))
  }

  function StreamRecords(words: seq<nat>): seq<seq<byte>> {
    seq(|words|, w requires 0 <= w < |words| => LE(words[w], 8))
  }

  /** The layout for a given palette and slot per cell, at the least index width. */
  function Layout(log2Extent: byte, palette: seq<CellValue>, slots: seq<nat>): seq<byte> {
    var bits := MinimalIndexBits(|palette|);
    HeaderBytes(log2Extent, bits, |palette|) + Flat(PaletteRecords(palette)) + Flat(StreamRecords(Stream(slots, bits)))
  }

  /** What the canonical packer emits: empty on a size mismatch. */
  function Packed(cells: seq<CellValue>, log2Extent: nat): seq<byte> {
    if log2Extent < 1 || log2Extent > MAX_LOG2_EXTENT || |cells| != CellCount(log2Extent) then []
    else
      var palette := FirstAppearance(cells);
      Layout(log2Extent, palette, SlotsOf(palette, cells))
  }

  /** The palette and slots after the first n cells. */
  ghost predicate PaletteUpTo(cells: seq<CellValue>, n: nat, palette: seq<CellValue>, slots: seq<nat>) {
    && n <= |cells|
    && palette == FirstAppearance(cells[..n])
    && |slots| == n
    && forall j :: 0 <= j < n ==> IsSlot(palette, cells[j], slots[j])
  }

  ghost predicate IsSlot(palette: seq<CellValue>, v: CellValue, s: nat) {
    && s < |palette|
    && palette[s] == v
    && forall j :: 0 <= j < s ==> palette[j] != v
  }

  lemma SlotOfUnique(palette: seq<CellValue>, v: CellValue, s: nat)
    requires IsSlot(palette, v, s)
    ensures SlotOf(palette, v) == s
  {
  }

  lemma PaletteStep(cells: seq<CellValue>, n: nat, palette: seq<CellValue>, slots: seq<nat>, slot: nat)
    requires n < |cells| && PaletteUpTo(cells, n, palette, slots)
    requires slot <= |palette| && (slot < |palette| ==> palette[slot] == cells[n])
    requires forall j :: 0 <= j < slot ==> palette[j] != cells[n]
    ensures PaletteUpTo(cells, n + 1, if slot == |palette| then palette + [cells[n]] else palette, slots + [slot])
  {
    assert cells[..n + 1][..n] == cells[..n];
    var palette' := if slot == |palette| then palette + [cells[n]] else palette;
    assert slot < |palette| <==> cells[n] in palette;
    assert IsSlot(palette', cells[n], slot);
    forall j | 0 <= j < n
      ensures IsSlot(palette', cells[j], (slots + [slot])[j])
    {
      assert IsSlot(palette, cells[j], slots[j]);
    }
  }

  lemma PaletteDone(cells: seq<CellValue>, palette: seq<CellValue>, slots: seq<nat>)
    requires PaletteUpTo(cells, |cells|, palette, slots)
    ensures palette == FirstAppearance(cells) && slots == SlotsOf(palette, cells)
  {
    assert cells[..|cells|] == cells;
    forall j | 0 <= j < |cells|
      ensures slots[j] == SlotOf(palette, cells[j])
    {
      SlotOfUnique(palette, cells[j], slots[j]);
    }
  }

  /** First-appearance palette and the slot of every cell. */
  method BuildPalette(cells: seq<CellValue>) returns (palette: seq<CellValue>, slots: seq<nat>)
    ensures palette == FirstAppearance(cells)
    ensures slots == SlotsOf(palette, cells)
  {
    palette, slots := [], [];
    for i := 0 to |cells|
      invariant PaletteUpTo(cells, i, palette, slots)
    {
      var slot := 0;
      while slot < |palette| && palette[slot] != cells[i]
        invariant 0 <= slot <= |palette|
        invariant forall j :: 0 <= j < slot ==> palette[j] != cells[i]
      {
        slot := slot + 1;
      }
      PaletteStep(cells, i, palette, slots, slot);
      if slot == |palette| {
        palette := palette + [cells[i]];
      }
      slots := slots + [slot];
    }
    PaletteDone(cells, palette, slots);
  }

  /** Or-ing an index into the zero bits above the ones already set adds it there. */
  function OrInto(word: nat, v: nat, shift: nat): (r: nat)
    requires word < Pow(2, shift)
  {
    word + v * Pow(2, shift)
  }

  lemma SegmentNext(slots: seq<nat>, i: nat, n: nat)
    requires n > 0 && i < |slots|
    ensures Segment(slots[..i + 1], n, i / n) == Segment(slots[..i], n, i / n) + [slots[i]]
    ensures |Segment(slots[..i], n, i / n)| == i % n
  {
    var q, r := i / n, i % n;
    assert i == n * q + r;
    NextSlice(slots, n * q, i, n);
  }

  lemma NextSlice(slots: seq<nat>, at: nat, i: nat, n: nat)
    requires at <= i < at + n && i < |slots|
    ensures slots[..i + 1][Min(at, i + 1)..Min(at + n, i + 1)] == slots[..i][Min(at, i)..Min(at + n, i)] + [slots[i]]
  {
  }

  lemma SegmentSame(slots: seq<nat>, i: nat, n: nat, w: nat)
    requires n > 0 && i < |slots| && w != i / n
    ensures Segment(slots[..i + 1], n, w) == Segment(slots[..i], n, w)
  {
    OutsideWord(n, i, w);
    SameSlice(slots, n * w, i, n);
  }

  lemma OutsideWord(n: nat, i: nat, w: nat)
    requires n > 0 && w != i / n
    ensures n * w + n <= i || i < n * w
  {
    assert i == n * (i / n) + i % n;
    if w < i / n {
      MulMono(n, w + 1, i / n);
    } else {
      MulMono(n, i / n + 1, w);
    }
  }

  lemma SameSlice(slots: seq<nat>, at: nat, i: nat, n: nat)
    requires i < |slots| && (at + n <= i || i < at)
    ensures slots[..i + 1][Min(at, i + 1)..Min(at + n, i + 1)] == slots[..i][Min(at, i)..Min(at + n, i)]
  {
  }

  lemma SegmentBelow(slots: seq<nat>, i: nat, n: nat, w: nat, base: nat)
    requires i <= |slots| && D.AllBelow(slots, base)
    ensures D.AllBelow(Segment(slots[..i], n, w), base)
  {
    var lo := Min(n * w, i);
    forall j | 0 <= j < |Segment(slots[..i], n, w)|
      ensures Segment(slots[..i], n, w)[j] < base
    {
      assert Segment(slots[..i], n, w)[j] == slots[lo + j];
    }
  }

  lemma DigitAppended(slots: seq<nat>, i: nat, n: nat, base: nat)
    requires n > 0 && base > 0 && i < |slots| && D.AllBelow(slots, base)
    ensures D.Pack(Segment(slots[..i], n, i / n), base) < Pow(base, i % n)
    ensures D.Pack(Segment(slots[..i + 1], n, i / n), base) ==
            D.Pack(Segment(slots[..i], n, i / n), base) + slots[i] * Pow(base, i % n)
  {
    var part := Segment(slots[..i], n, i / n);
    SegmentNext(slots, i, n);
    SegmentBelow(slots, i, n, i / n, base);
    D.PackAppend(part, slots[i], base);
    D.PackRange(part, base);
  }

  /** Or-ing the next slot in place extends its word by one digit. */
  lemma WordGrows(slots: seq<nat>, i: nat, bits: nat)
    requires LegalIndexBits(bits) && bits != 0
    requires D.AllBelow(slots, Pow(2, bits)) && i < |slots|
    ensures var at, shift := WordIndex(bits, i), BitIndex(bits, i);
            && at == i / CellsPerWord(bits) < IndexWords(|slots|, bits)
            && StreamWord(slots[..i], bits, at) < Pow(2, shift)
            && StreamWord(slots[..i + 1], bits, at) == StreamWord(slots[..i], bits, at) + slots[i] * Pow(2, shift)
  {
    var n := CellsPerWord(bits);
    BitPosition(bits, i);
    WordCount(bits, |slots|);
    CeilAbove(i, |slots|, n);
    PowMul(2, bits, i % n);
    Commute(bits, i % n);
    DigitAppended(slots, i, n, Pow(2, bits));
  }

  lemma Commute(a: nat, b: nat)
    ensures a * b == b * a
  {
  }

  ghost predicate StreamUpTo(slots: seq<nat>, n: nat, bits: nat, stream: seq<nat>) {
    && LegalIndexBits(bits) && bits != 0
    && n <= |slots|
    && |stream| == IndexWords(|slots|, bits)
    && forall w :: 0 <= w < |stream| ==> stream[w] == StreamWord(slots[..n], bits, w)
  }

  /** One turn of the packing loop. */
  function StreamSet(slots: seq<nat>, i: nat, bits: nat, stream: seq<nat>): (r: seq<nat>)
    requires i < |slots| && WordIndex(bits, i) < |stream|
    requires stream[WordIndex(bits, i)] < Pow(2, BitIndex(bits, i))
  {
    var at := WordIndex(bits, i);
    stream[at := OrInto(stream[at], slots[i], BitIndex(bits, i))]
  }

  lemma StreamStep(slots: seq<nat>, i: nat, bits: nat, stream: seq<nat>)
    requires i < |slots| && StreamUpTo(slots, i, bits, stream)
    requires D.AllBelow(slots, Pow(2, bits))
    ensures var at, shift := WordIndex(bits, i), BitIndex(bits, i);
            && at < |stream| && stream[at] < Pow(2, shift)
            && StreamUpTo(slots, i + 1, bits, StreamSet(slots, i, bits, stream))
  {
    var at := WordIndex(bits, i);
    WordGrows(slots, i, bits);
    forall w | 0 <= w < |stream| && w != at
      ensures stream[w] == StreamWord(slots[..i + 1], bits, w)
    {
      SegmentSame(slots, i, CellsPerWord(bits), w);
    }
  }

  method BuildStream(slots: seq<nat>, bits: nat) returns (stream: seq<nat>)
    requires LegalIndexBits(bits) && bits != 0
    requires D.AllBelow(slots, Pow(2, bits))
    ensures stream == Stream(slots, bits)
  {
    var words := (|slots| * bits + 63) / 64;
    stream := seq(words, _ => 0);
    EmptyStream(slots, bits, stream);
    for i := 0 to |slots|
      invariant StreamUpTo(slots, i, bits, stream)
    {
      StreamStep(slots, i, bits, stream);
      stream := StreamSet(slots, i, bits, stream);
    }
    assert slots[..|slots|] == slots;
  }

  lemma EmptyStream(slots: seq<nat>, bits: nat, stream: seq<nat>)
    requires LegalIndexBits(bits) && bits != 0
    requires |stream| == IndexWords(|slots|, bits) && forall w :: 0 <= w < |stream| ==> stream[w] == 0
    ensures StreamUpTo(slots, 0, bits, stream)
  {
    forall w | 0 <= w < |stream|
      ensures StreamWord(slots[..0], bits, w) == 0
    {
      assert Segment(slots[..0], CellsPerWord(bits), w) == [];
    }
  }

  lemma MinimalCovers(count: nat)
    requires count <= 65536
    ensures count <= Pow(2, MinimalIndexBits(count))
  {
    assert Pow(2, 4) == 16 && Pow(2, 2) == 4;
    assert Pow(2, 8) == 256 by { PowAdd(2, 4, 4); }
    assert Pow(2, 16) == 65536 by { PowAdd(2, 8, 8); }
  }

  /** No wider legal width covers fewer entries, and no narrower one covers as many. */
  lemma MinimalIsLeast(count: nat, bits: nat)
    requires LegalIndexBits(bits) && 1 <= count <= Pow(2, bits)
    ensures MinimalIndexBits(count) <= bits
  {
    assert Pow(2, 4) == 16 && Pow(2, 2) == 4 && Pow(2, 1) == 2;
    assert Pow(2, 8) == 256 by { PowAdd(2, 4, 4); }
  }

  lemma SlotsBelow(palette: seq<CellValue>, cells: seq<CellValue>)
    requires |palette| <= 65536 && forall v :: v in cells ==> v in palette
    ensures forall i :: 0 <= i < |cells| ==> SlotsOf(palette, cells)[i] < |palette|
    ensures D.AllBelow(SlotsOf(palette, cells), Pow(2, MinimalIndexBits(|palette|)))
  {
    MinimalCovers(|palette|);
    forall i | 0 <= i < |cells|
      ensures SlotsOf(palette, cells)[i] < |palette|
    {
      SlotOfMember(palette, cells[i]);
    }
  }

  method PutHeader(log2Extent: byte, bits: byte, paletteCount: nat) returns (out: seq<byte>)
    ensures out == HeaderBytes(log2Extent, bits, paletteCount)
  {
    out := PutLE([], MAGIC, 4);
    out := out + [VERSION, log2Extent, bits, 0];
    out := PutLE(out, paletteCount, 4);
    out := PutLE(out, 0, 4);
  }

  method PutEntry(before: seq<byte>, e: CellValue) returns (out: seq<byte>)
    ensures out == before + EntryBytes(e)
  {
    out := PutLE(before, e.content, 4);
    out := PutLE(out, 0, 4);
    out := PutLE(out, e.state, 8);
    Regroup(before, LE(e.content, 4), LE(0, 4), LE(e.state, 8));
  }

  lemma Regroup(a: seq<byte>, b: seq<byte>, c: seq<byte>, d: seq<byte>)
    ensures a + b + c + d == a + (b + c + d)
  {
  }

  method PutPalette(before: seq<byte>, palette: seq<CellValue>) returns (out: seq<byte>)
    ensures out == before + Flat(PaletteRecords(palette))
  {
    out := before;
    ghost var records := PaletteRecords(palette);
    for i := 0 to |palette|
      invariant out == before + Flat(records[..i])
    {
      ghost var soFar := Flat(records[..i]);
      FlatNext(records, i);
      out := PutEntry(out, palette[i]);
      Append(before, soFar, records[i]);
    }
    assert records[..|records|] == records;
  }

  method PutStream(before: seq<byte>, stream: seq<nat>) returns (out: seq<byte>)
    ensures out == before + Flat(StreamRecords(stream))
  {
    out := before;
    ghost var records := StreamRecords(stream);
    for i := 0 to |stream|
      invariant out == before + Flat(records[..i])
    {
      ghost var soFar := Flat(records[..i]);
      FlatNext(records, i);
      out := PutLE(out, stream[i], 8);
      Append(before, soFar, records[i]);
    }
    assert records[..|records|] == records;
  }

  /** Canonical packer. */
  method PackVoxelBlob(cells: seq<CellValue>, log2Extent: nat) returns (out: seq<byte>)
    ensures out == Packed(cells, log2Extent)
  {
    if log2Extent < 1 || log2Extent > MAX_LOG2_EXTENT {
      return [];
    }
    var extent := Pow(2, log2Extent);
    var cellCount := extent * extent * extent;
    if |cells| != cellCount {
      return [];
    }
    CellCountIsPow8(log2Extent);
    FirstAppearanceFacts(cells);
    var palette, slots := BuildPalette(cells);
    SlotsBelow(palette, cells);
    out := PutLayout(log2Extent, palette, slots);
  }

  method PutLayout(log2Extent: byte, palette: seq<CellValue>, slots: seq<nat>) returns (out: seq<byte>)
    requires D.AllBelow(slots, Pow(2, MinimalIndexBits(|palette|)))
    ensures out == Layout(log2Extent, palette, slots)
  {
    var bits := MinimalIndexBits(|palette|);
    out := PutHeader(log2Extent, bits, |palette|);
    out := PutPalette(out, palette);
    var stream := [];
    if bits != 0 {
      stream := BuildStream(slots, bits);
    }
    out := PutStream(out, stream);
  }

  /* ----- reading ----- */

  ghost predicate IsBlob(blob: seq<byte>, h: HeaderInfo) {
    h.Valid() && |blob| == h.TotalBytes()
  }

  lemma EntryInBlob(blob: seq<byte>, h: HeaderInfo, slot: nat)
    requires IsBlob(blob, h) && slot < h.paletteCount
    ensures HEADER_BYTES + (slot + 1) * ENTRY_BYTES <= |blob|
  {
  }

  function EntryOf(blob: seq<byte>, h: HeaderInfo, slot: nat): CellValue
    requires IsBlob(blob, h) && slot < h.paletteCount
  {
    EntryInBlob(blob, h, slot);
    ReadPaletteEntry(blob, slot)
  }

  function PaletteOf(blob: seq<byte>, h: HeaderInfo): seq<CellValue>
    requires IsBlob(blob, h)
  {
    seq(h.paletteCount, s requires 0 <= s < h.paletteCount => EntryOf(blob, h, s))
  }

  /** The slot a cell refers to; a uniform chunk has no stream. */
  function CellSlot(blob: seq<byte>, h: HeaderInfo, cell: nat): nat
    requires IsBlob(blob, h) && cell < h.Cells()
  {
    if h.indexBits == 0 then 0
    else
      WordInBlob(blob, h, cell);
      ReadIndex(blob, h, cell)
  }

  ghost predicate SlotsInRange(blob: seq<byte>, h: HeaderInfo)
    requires IsBlob(blob, h)
  {
    forall i :: 0 <= i < h.Cells() ==> CellSlot(blob, h, i) < h.paletteCount
  }

  ghost function CellsOf(blob: seq<byte>, h: HeaderInfo): seq<CellValue>
    requires IsBlob(blob, h) && SlotsInRange(blob, h)
  {
    seq(h.Cells(), i requires 0 <= i < h.Cells() => EntryOf(blob, h, CellSlot(blob, h, i)))
  }

  /** What a full unpack yields: nothing on any structural or index-range violation. */
  ghost function Unpacked(blob: seq<byte>): Option<UnpackedChunk> {
    var h := ReadHeader(blob);
    if h.Some? && SlotsInRange(blob, h.value) then
      Some(UnpackedChunk(h.value.log2Extent, PaletteOf(blob, h.value), CellsOf(blob, h.value)))
    else None
  }

  method ReadPalette(blob: seq<byte>, h: HeaderInfo) returns (palette: seq<CellValue>)
    requires IsBlob(blob, h)
    ensures palette == PaletteOf(blob, h)
  {
    palette := [];
    for s := 0 to h.paletteCount
      invariant |palette| == s
      invariant forall j :: 0 <= j < s ==> palette[j] == EntryOf(blob, h, j)
    {
      EntryInBlob(blob, h, s);
      palette := palette + [ReadPaletteEntry(blob, s)];
    }
  }

  /** Reads every cell, stopping at the first index outside the palette. */
  method ReadCells(blob: seq<byte>, h: HeaderInfo, palette: seq<CellValue>) returns (ok: bool,
                   cells: seq<CellValue>)
    requires IsBlob(blob, h) && palette == PaletteOf(blob, h)
    ensures ok <==> SlotsInRange(blob, h)
    ensures ok ==> cells == CellsOf(blob, h)
  {
    cells := [];
    for i := 0 to h.Cells()
      invariant |cells| == i
      invariant forall j :: 0 <= j < i ==>
          CellSlot(blob, h, j) < h.paletteCount && cells[j] == EntryOf(blob, h, CellSlot(blob, h, j))
    {
      var slot := CellSlot(blob, h, i);
      if slot >= h.paletteCount {
        return false, cells;
      }
      cells := cells + [palette[slot]];
    }
    return true, cells;
  }

  /** Full unpack with full validation. */
  method UnpackVoxelBlob(blob: seq<byte>) returns (r: Option<UnpackedChunk>)
    ensures r == Unpacked(blob)
  {
    var header := ReadHeader(blob);
    if header.None? {
      return None;
    }
    var h := header.value;
    var palette := ReadPalette(blob, h);
    var ok, cells := ReadCells(blob, h, palette);
    if !ok {
      return None;
    }
    return Some(UnpackedChunk(h.log2Extent, palette, cells));
  }

  /** Random access: header checks, then the one cell touched. */
  function BlobCellAt(blob: seq<byte>, x: nat, y: nat, z: nat): (r: Option<CellValue>) {
    var header := ReadHeader(blob);
    if header.None? then None
    else
      var h := header.value;
      var extent := Pow(2, h.log2Extent);
      if x >= extent || y >= extent || z >= extent then None
      else
        Morton.CubeIsPrefix(x, y, z, h.log2Extent);
        CellCountIsPow8(h.log2Extent);
        var slot := CellSlot(blob, h, Morton.Index(x, y, z));
        if slot >= h.paletteCount then None else Some(EntryOf(blob, h, slot))
  }

  ghost predicate InExtent(x: nat, y: nat, z: nat, log2Extent: nat) {
    x < Pow(2, log2Extent) && y < Pow(2, log2Extent) && z < Pow(2, log2Extent)
  }

  lemma IndexInExtent(x: nat, y: nat, z: nat, log2Extent: nat)
    requires log2Extent <= MAX_LOG2_EXTENT
    ensures InExtent(x, y, z, log2Extent) <==> Morton.Index(x, y, z) < CellCount(log2Extent)
  {
    Morton.CubeIsPrefix(x, y, z, log2Extent);
    CellCountIsPow8(log2Extent);
  }

  /** Random access answers at every position of the extent. */
  ghost predicate EveryCellReads(blob: seq<byte>) {
    var h := ReadHeader(blob);
    && h.Some?
    && (forall x: nat, y: nat, z: nat :: InExtent(x, y, z, h.value.log2Extent) ==> BlobCellAt(blob, x, y, z).Some?)
  }

  lemma CellAtMeans(blob: seq<byte>, x: nat, y: nat, z: nat)
    requires ReadHeader(blob).Some? && InExtent(x, y, z, ReadHeader(blob).value.log2Extent)
    ensures var h := ReadHeader(blob).value;
            var i := Morton.Index(x, y, z);
            && i < h.Cells()
            && (BlobCellAt(blob, x, y, z).Some? <==> CellSlot(blob, h, i) < h.paletteCount)
            && (BlobCellAt(blob, x, y, z).Some? ==>
                BlobCellAt(blob, x, y, z).value == EntryOf(blob, h, CellSlot(blob, h, i)))
  {
    IndexInExtent(x, y, z, ReadHeader(blob).value.log2Extent);
  }

  /** Full unpack succeeds exactly when random access succeeds at every position of the extent. */
  lemma UnpackIffEveryCell(blob: seq<byte>)
    ensures Unpacked(blob).Some? <==> EveryCellReads(blob)
  {
    var header := ReadHeader(blob);
    if header.Some? {
      var h := header.value;
      if SlotsInRange(blob, h) {
        forall x: nat, y: nat, z: nat | InExtent(x, y, z, h.log2Extent)
          ensures BlobCellAt(blob, x, y, z).Some?
        {
          CellAtMeans(blob, x, y, z);
        }
      }
      if EveryCellReads(blob) {
        forall i | 0 <= i < h.Cells()
          ensures CellSlot(blob, h, i) < h.paletteCount
        {
          Morton.IndexOfPos(i);
          var c := Morton.Pos(i);
          IndexInExtent(c.x, c.y, c.z, h.log2Extent);
          CellAtMeans(blob, c.x, c.y, c.z);
        }
      }
    }
  }

  /** ... and then the two agree cell for cell. */
  lemma UnpackAgreesWithCellAt(blob: seq<byte>, x: nat, y: nat, z: nat)
    requires Unpacked(blob).Some? && InExtent(x, y, z, Unpacked(blob).value.log2Extent)
    ensures Morton.Index(x, y, z) < |Unpacked(blob).value.cells|
    ensures BlobCellAt(blob, x, y, z) == Some(Unpacked(blob).value.cells[Morton.Index(x, y, z)])
  {
    CellAtMeans(blob, x, y, z);
  }
}
