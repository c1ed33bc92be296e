/** Round trips, canonical form and minimality of the packed voxel blob. */
module VoxelBlobProofs {
  import opened Arithmetic
  import opened Bytes
  import opened VoxelBlob
  import D = Digits

  /** A palette and slots that a chunk of the given extent can have. */
  ghost predicate Coherent(log2Extent: byte, palette: seq<CellValue>, slots: seq<nat>) {
    && 1 <= log2Extent <= MAX_LOG2_EXTENT
    && |slots| == CellCount(log2Extent)
    && 1 <= |palette| <= |slots|
    && forall i :: 0 <= i < |slots| ==> slots[i] < |palette|
  }

  function LayoutInfo(log2Extent: byte, palette: seq<CellValue>): HeaderInfo {
    HeaderInfo(log2Extent, MinimalIndexBits(|palette|), |palette|)
  }

  lemma CoherentBounds(log2Extent: byte, palette: seq<CellValue>, slots: seq<nat>)
    requires Coherent(log2Extent, palette, slots)
    ensures |palette| <= 32768
    ensures D.AllBelow(slots, Pow(2, MinimalIndexBits(|palette|)))
  {
    CellCountIsPow8(log2Extent);
    MinimalCovers(|palette|);
  }

  lemma MiddleSlice(a: seq<byte>, b: seq<byte>, c: seq<byte>, lo: nat, hi: nat)
    requires lo <= hi <= |b|
    ensures (a + b + c)[|a| + lo..|a| + hi] == b[lo..hi]
  {
  }

  lemma LayoutParts(log2Extent: byte, palette: seq<CellValue>, slots: seq<nat>)
    requires LegalIndexBits(MinimalIndexBits(|palette|))
    ensures var bits := MinimalIndexBits(|palette|);
            var p, s := Flat(PaletteRecords(palette)), Flat(StreamRecords(Stream(slots, bits)));
            |p| == 16 * |palette| && |s| == 8 * IndexWords(|slots|, bits)
  {
    var bits := MinimalIndexBits(|palette|);
    FlatLength(PaletteRecords(palette), 16);
    FlatLength(StreamRecords(Stream(slots, bits)), 8);
  }

  lemma HeaderFields(log2Extent: byte, bits: byte, count: u32)
    ensures var bs := HeaderBytes(log2Extent, bits, count);
            && GetLE(bs, 0, 4) == MAGIC
            && bs[4] == VERSION && bs[5] == log2Extent && bs[6] == bits && bs[7] == 0
            && GetLE(bs, 8, 4) == count
            && GetLE(bs, 12, 4) == 0
  {
    var bs := HeaderBytes(log2Extent, bits, count);
    ReadRange(bs, 0, 4);
    FromLEOfLE(MAGIC, 4);
    FromLEOfLE(count, 4);
    FromLEOfLE(0, 4);
    assert bs[0..4] == LE(MAGIC, 4);
    assert bs[8..12] == LE(count, 4);
    assert bs[12..16] == LE(0, 4);
  }

  lemma LayoutFields(log2Extent: byte, palette: seq<CellValue>, slots: seq<nat>, blob: seq<byte>, h: HeaderInfo)
    requires Coherent(log2Extent, palette, slots) && |palette| <= 32768
    requires blob == Layout(log2Extent, palette, slots) && h == LayoutInfo(log2Extent, palette)
    ensures |blob| >= 16 && GetLE(blob, 0, 4) == MAGIC && GetLE(blob, 8, 4) == h.paletteCount
    ensures blob[4] == VERSION && blob[5] == h.log2Extent && blob[6] == h.indexBits
  {
    var bits := MinimalIndexBits(|palette|);
    var mid, back := Flat(PaletteRecords(palette)), Flat(StreamRecords(Stream(slots, bits)));
    var front := HeaderBytes(log2Extent, bits, |palette|);
    Append(front, mid, back);
    HeaderOfWhole(front, mid + back, blob, log2Extent, bits, |palette|);
  }

  lemma LayoutHeader(log2Extent: byte, palette: seq<CellValue>, slots: seq<nat>)
    requires Coherent(log2Extent, palette, slots)
    ensures ReadHeader(Layout(log2Extent, palette, slots)) == Some(LayoutInfo(log2Extent, palette))
  {
    var blob, h := Layout(log2Extent, palette, slots), LayoutInfo(log2Extent, palette);
    CoherentBounds(log2Extent, palette, slots);
    LayoutParts(log2Extent, palette, slots);
    LayoutFields(log2Extent, palette, slots, blob, h);
    MinimalCovers(|palette|);
    HeaderIsRead(blob, h);
  }

  lemma HeaderIsRead(blob: seq<byte>, h: HeaderInfo)
    requires |blob| >= 16 && GetLE(blob, 0, 4) == MAGIC && GetLE(blob, 8, 4) == h.paletteCount
    requires blob[4] == VERSION && blob[5] == h.log2Extent && blob[6] == h.indexBits
    requires h.Valid() && |blob| == h.TotalBytes()
    ensures ReadHeader(blob) == Some(h)
  {
  }

  lemma HeaderOfWhole(front: seq<byte>, rest: seq<byte>, blob: seq<byte>, log2Extent: byte, bits: byte, count: u32)
    requires front == HeaderBytes(log2Extent, bits, count) && blob == front + rest
    ensures |blob| >= 16 && GetLE(blob, 0, 4) == MAGIC && GetLE(blob, 8, 4) == count
    ensures blob[4] == VERSION && blob[5] == log2Extent && blob[6] == bits
  {
    HeaderFields(log2Extent, bits, count);
    SliceOfFront(front, rest, 0, 4);
    SliceOfFront(front, rest, 8, 12);
    assert forall k :: 0 <= k < 16 ==> blob[k] == front[k];
  }

  lemma EntryFields(e: CellValue)
    ensures var bs := EntryBytes(e);
            GetLE(bs, 0, 4) == e.content && GetLE(bs, 4, 4) == 0 && GetLE(bs, 8, 8) == e.state
  {
    var bs := EntryBytes(e);
    ReadRange(bs, 0, 4);
    FromLEOfLE(e.content, 4);
    FromLEOfLE(0, 4);
    FromLEOfLE(e.state, 8);
    ThreeSlices(LE(e.content, 4), LE(0, 4), LE(e.state, 8), bs);
  }

  lemma ThreeSlices(a: seq<byte>, b: seq<byte>, c: seq<byte>, bs: seq<byte>)
    requires |a| == 4 && |b| == 4 && |c| == 8 && bs == a + b + c
    ensures bs[0..4] == a && bs[4..8] == b && bs[8..16] == c
  {
  }

  lemma LayoutRecord(log2Extent: byte, palette: seq<CellValue>, slots: seq<nat>, s: nat)
    requires s < |palette|
    ensures var at := HEADER_BYTES + s * ENTRY_BYTES;
            var blob := Layout(log2Extent, palette, slots);
            at + 16 <= |blob| && blob[at..at + 16] == EntryBytes(palette[s])
  {
    var bits := MinimalIndexBits(|palette|);
    var front, back := HeaderBytes(log2Extent, bits, |palette|), Flat(StreamRecords(Stream(slots, bits)));
    RecordOf(front, PaletteRecords(palette), back, s, Layout(log2Extent, palette, slots),
             HEADER_BYTES + s * ENTRY_BYTES);
  }

  lemma RecordOf(front: seq<byte>, records: seq<seq<byte>>, back: seq<byte>, s: nat, blob: seq<byte>, at: nat)
    requires s < |records| && forall j :: 0 <= j < |records| ==> |records[j]| == 16
    requires blob == front + Flat(records) + back && at == |front| + 16 * s
    ensures at + 16 <= |blob| && blob[at..at + 16] == records[s]
  {
    FlatSlice(records, 16, s);
    MiddleSlice(front, Flat(records), back, 16 * s, 16 * s + 16);
  }

  lemma LayoutEntry(log2Extent: byte, palette: seq<CellValue>, slots: seq<nat>, s: nat)
    requires s < |palette|
    ensures var blob := Layout(log2Extent, palette, slots);
            HEADER_BYTES + (s + 1) * ENTRY_BYTES <= |blob| && ReadPaletteEntry(blob, s) == palette[s]
  {
    var blob := Layout(log2Extent, palette, slots);
    var at := HEADER_BYTES + s * ENTRY_BYTES;
    LayoutRecord(log2Extent, palette, slots, s);
    EntryOfRecord(blob, at, palette[s]);
  }

  lemma EntryOfRecord(blob: seq<byte>, at: nat, e: CellValue)
    requires at + 16 <= |blob| && blob[at..at + 16] == EntryBytes(e)
    ensures GetLE(blob, at, 4) == e.content && GetLE(blob, at + 8, 8) == e.state
  {
    EntryFields(e);
    SubSlice(blob, at, at + 16, 0, 4);
    SubSlice(blob, at, at + 16, 8, 16);
  }

  lemma SubSlice(bs: seq<byte>, lo: nat, hi: nat, i: nat, j: nat)
    requires lo <= hi <= |bs| && i <= j <= hi - lo
    ensures bs[lo..hi][i..j] == bs[lo + i..lo + j]
  {
    var a, b := bs[lo..hi][i..j], bs[lo + i..lo + j];
    assert |a| == |b|;
    forall k | 0 <= k < |a|
      ensures a[k] == b[k]
    {
      assert a[k] == bs[lo..hi][i + k];
    }
  }

  lemma LayoutWord(log2Extent: byte, palette: seq<CellValue>, slots: seq<nat>, w: nat)
    requires Coherent(log2Extent, palette, slots)
    requires MinimalIndexBits(|palette|) != 0 && w < IndexWords(|slots|, MinimalIndexBits(|palette|))
    ensures var at := HEADER_BYTES + |palette| * ENTRY_BYTES + w * 8;
            var blob := Layout(log2Extent, palette, slots);
            at + 8 <= |blob| && GetLE(blob, at, 8) == StreamWord(slots, MinimalIndexBits(|palette|), w)
  {
    LayoutWordAt(log2Extent, palette, slots, w, MinimalIndexBits(|palette|), Layout(log2Extent, palette, slots),
                 HEADER_BYTES + |palette| * ENTRY_BYTES + w * 8);
  }

  lemma LayoutWordAt(log2Extent: byte, palette: seq<CellValue>, slots: seq<nat>, w: nat, bits: byte, blob: seq<byte>,
                     at: nat)
    requires Coherent(log2Extent, palette, slots) && blob == Layout(log2Extent, palette, slots)
    requires bits == MinimalIndexBits(|palette|) != 0 && w < IndexWords(|slots|, bits)
    requires at == HEADER_BYTES + |palette| * ENTRY_BYTES + w * 8
    ensures at + 8 <= |blob| && GetLE(blob, at, 8) == StreamWord(slots, bits, w)
  {
    var front := HeaderBytes(log2Extent, bits, |palette|) + Flat(PaletteRecords(palette));
    CoherentBounds(log2Extent, palette, slots);
    StreamWordRange(slots, bits, w);
    FlatLength(PaletteRecords(palette), 16);
    LayoutSplits(log2Extent, palette, slots, bits, front);
    WordOfStream(front, Stream(slots, bits), w, blob, at);
  }

  lemma LayoutSplits(log2Extent: byte, palette: seq<CellValue>, slots: seq<nat>, bits: byte, front: seq<byte>)
    requires bits == MinimalIndexBits(|palette|)
    requires front == HeaderBytes(log2Extent, bits, |palette|) + Flat(PaletteRecords(palette))
    ensures Layout(log2Extent, palette, slots) == front + Flat(StreamRecords(Stream(slots, bits)))
  {
  }

  lemma WordOfStream(front: seq<byte>, words: seq<nat>, w: nat, blob: seq<byte>, at: nat)
    requires w < |words| && words[w] < Pow(256, 8)
    requires blob == front + Flat(StreamRecords(words)) && at == |front| + 8 * w
    ensures at + 8 <= |blob| && GetLE(blob, at, 8) == words[w]
  {
    var records := StreamRecords(words);
    FlatSlice(records, 8, w);
    BackSlice(front, Flat(records), 8 * w, 8 * w + 8);
    FromLEOfLE(words[w], 8);
  }

  lemma BackSlice(a: seq<byte>, b: seq<byte>, lo: nat, hi: nat)
    requires lo <= hi <= |b|
    ensures (a + b)[|a| + lo..|a| + hi] == b[lo..hi]
  {
  }

  lemma SegmentOfAll(slots: seq<nat>, n: nat, w: nat, base: nat)
    requires D.AllBelow(slots, base)
    ensures D.AllBelow(Segment(slots, n, w), base) && |Segment(slots, n, w)| <= n
  {
    assert slots[..|slots|] == slots;
    SegmentBelow(slots, |slots|, n, w, base);
  }

  lemma StreamWordRange(slots: seq<nat>, bits: nat, w: nat)
    requires LegalIndexBits(bits) && bits != 0 && D.AllBelow(slots, Pow(2, bits))
    ensures StreamWord(slots, bits, w) < Pow(256, 8)
  {
    var n, base := CellsPerWord(bits), Pow(2, bits);
    var part := Segment(slots, n, w);
    SegmentOfAll(slots, n, w, base);
    D.PackRange(part, base);
    PowMono(base, |part|, n);
    WordPower(bits);
  }

  lemma WordPower(bits: nat)
    requires LegalIndexBits(bits) && bits != 0
    ensures Pow(Pow(2, bits), CellsPerWord(bits)) == Pow(256, 8) == Pow(2, 64)
  {
    var n := CellsPerWord(bits);
    PowMul(2, bits, n);
    Commute(bits, n);
    PowMul(2, 8, 8);
    assert Pow(2, 8) == 256 by { PowAdd(2, 4, 4); assert Pow(2, 4) == 16; }
  }

  /** The words after the palette hold the given slots. */
  ghost predicate HoldsStream(blob: seq<byte>, paletteCount: nat, slots: seq<nat>, bits: nat)
    requires LegalIndexBits(bits) && bits != 0
  {
    forall w :: 0 <= w < IndexWords(|slots|, bits) ==>
      && HEADER_BYTES + paletteCount * ENTRY_BYTES + w * 8 + 8 <= |blob|
      && GetLE(blob, HEADER_BYTES + paletteCount * ENTRY_BYTES + w * 8, 8) == StreamWord(slots, bits, w)
  }

  lemma LayoutStream(log2Extent: byte, palette: seq<CellValue>, slots: seq<nat>)
    requires Coherent(log2Extent, palette, slots) && MinimalIndexBits(|palette|) != 0
    ensures HoldsStream(Layout(log2Extent, palette, slots), |palette|, slots, MinimalIndexBits(|palette|))
  {
    forall w | 0 <= w < IndexWords(|slots|, MinimalIndexBits(|palette|)) {
      LayoutWord(log2Extent, palette, slots, w);
    }
  }

  lemma IndexOfStream(blob: seq<byte>, h: HeaderInfo, slots: seq<nat>, cell: nat)
    requires LegalIndexBits(h.indexBits) && h.indexBits != 0
    requires D.AllBelow(slots, Pow(2, h.indexBits)) && cell < |slots|
    requires HoldsStream(blob, h.paletteCount, slots, h.indexBits)
    ensures WordAt(h, cell) + 8 <= |blob| && ReadIndex(blob, h, cell) == slots[cell]
  {
    CellPosition(h.indexBits, cell, |slots|);
    DigitOfStream(slots, h.indexBits, cell);
  }

  lemma CellPosition(bits: nat, cell: nat, cells: nat)
    requires LegalIndexBits(bits) && bits != 0 && cell < cells
    ensures WordIndex(bits, cell) == cell / CellsPerWord(bits) < IndexWords(cells, bits)
  {
    BitPosition(bits, cell);
    WordCount(bits, cells);
    CeilAbove(cell, cells, CellsPerWord(bits));
  }

  lemma DigitOfSegment(slots: seq<nat>, n: nat, base: nat, cell: nat)
    requires n > 0 && base > 0 && D.AllBelow(slots, base) && cell < |slots|
    ensures D.Digit(D.Pack(Segment(slots, n, cell / n), base), base, cell % n) == slots[cell]
  {
    var w, j := cell / n, cell % n;
    assert cell == n * w + j;
    SegmentOfAll(slots, n, w, base);
    SegmentAt(slots, n, w, j);
    D.DigitOfPack(Segment(slots, n, w), base, j);
  }

  lemma SegmentAt(slots: seq<nat>, n: nat, w: nat, j: nat)
    requires j < n && n * w + j < |slots|
    ensures j < |Segment(slots, n, w)| && Segment(slots, n, w)[j] == slots[n * w + j]
  {
  }

  lemma DigitOfStream(slots: seq<nat>, bits: nat, cell: nat)
    requires LegalIndexBits(bits) && bits != 0 && D.AllBelow(slots, Pow(2, bits)) && cell < |slots|
    ensures var word := StreamWord(slots, bits, WordIndex(bits, cell));
            (word / Pow(2, BitIndex(bits, cell))) % Pow(2, bits) == slots[cell]
  {
    var n, base := CellsPerWord(bits), Pow(2, bits);
    BitPosition(bits, cell);
    DigitOfSegment(slots, n, base, cell);
    PowMul(2, bits, cell % n);
    Commute(bits, cell % n);
  }

  /** Everything stored by the layout reads back. */
  lemma LayoutDecodes(log2Extent: byte, palette: seq<CellValue>, slots: seq<nat>)
    requires Coherent(log2Extent, palette, slots)
    ensures var blob, h := Layout(log2Extent, palette, slots), LayoutInfo(log2Extent, palette);
            && ReadHeader(blob) == Some(h)
            && PaletteOf(blob, h) == palette
            && (forall i :: 0 <= i < |slots| ==> CellSlot(blob, h, i) == slots[i])
  {
    var blob, h := Layout(log2Extent, palette, slots), LayoutInfo(log2Extent, palette);
    LayoutHeader(log2Extent, palette, slots);
    CoherentBounds(log2Extent, palette, slots);
    forall s | 0 <= s < |palette|
      ensures EntryOf(blob, h, s) == palette[s]
    {
      LayoutEntry(log2Extent, palette, slots, s);
    }
    forall i | 0 <= i < |slots|
      ensures CellSlot(blob, h, i) == slots[i]
    {
      if h.indexBits == 0 {
        assert slots[i] < |palette| <= 1;
      } else {
        LayoutStream(log2Extent, palette, slots);
        IndexOfStream(blob, h, slots, i);
      }
    }
  }

  lemma UnpackOfLayout(log2Extent: byte, palette: seq<CellValue>, slots: seq<nat>, cells: seq<CellValue>)
    requires Coherent(log2Extent, palette, slots)
    requires |cells| == |slots| && forall i :: 0 <= i < |cells| ==> cells[i] == palette[slots[i]]
    ensures Unpacked(Layout(log2Extent, palette, slots)) == Some(UnpackedChunk(log2Extent, palette, cells))
  {
    var blob, h := Layout(log2Extent, palette, slots), LayoutInfo(log2Extent, palette);
    LayoutDecodes(log2Extent, palette, slots);
    assert SlotsInRange(blob, h);
    forall i | 0 <= i < |cells|
      ensures CellsOf(blob, h)[i] == cells[i]
    {
      assert PaletteOf(blob, h)[slots[i]] == EntryOf(blob, h, slots[i]);
    }
    assert CellsOf(blob, h) == cells;
  }

  lemma CanonicalIsCoherent(cells: seq<CellValue>, log2Extent: nat)
    requires 1 <= log2Extent <= MAX_LOG2_EXTENT && |cells| == CellCount(log2Extent)
    ensures var palette := FirstAppearance(cells);
            var slots := SlotsOf(palette, cells);
            Coherent(log2Extent, palette, slots) && forall i :: 0 <= i < |cells| ==> cells[i] == palette[slots[i]]
  {
    CellCountIsPow8(log2Extent);
    FirstAppearanceFacts(cells);
    SlotsBelow(FirstAppearance(cells), cells);
  }

  /** Unpacking a packed chunk gives back its cells, with the palette in first-appearance order. */
  lemma UnpackOfPack(cells: seq<CellValue>, log2Extent: nat)
    requires 1 <= log2Extent <= MAX_LOG2_EXTENT && |cells| == CellCount(log2Extent)
    ensures Unpacked(Packed(cells, log2Extent)) ==
            Some(UnpackedChunk(log2Extent, FirstAppearance(cells), cells))
  {
    var palette := FirstAppearance(cells);
    CanonicalIsCoherent(cells, log2Extent);
    UnpackOfLayout(log2Extent, palette, SlotsOf(palette, cells), cells);
  }

  /* ----- minimality ----- */

  lemma {:induction false} DistinctFits(a: seq<CellValue>, b: seq<CellValue>)
    requires Distinct(a) && forall v :: v in a ==> v in b
    ensures |a| <= |b|
    decreases |a|
  {
    if a != [] {
      var n := |a| - 1;
      assert a[n] in b;
      var k :| 0 <= k < |b| && b[k] == a[n];
      var rest := b[..k] + b[k + 1..];
      forall v | v in a[..n]
        ensures v in rest
      {
        assert v in a && v in b;
        var i :| 0 <= i < |b| && b[i] == v;
        assert i != k;
        assert rest[if i < k then i else i - 1] == v;
      }
      DistinctFits(a[..n], rest);
    }
  }

  lemma PackedLength(cells: seq<CellValue>, log2Extent: nat)
    requires 1 <= log2Extent <= MAX_LOG2_EXTENT && |cells| == CellCount(log2Extent)
    ensures var count := |FirstAppearance(cells)|;
            |Packed(cells, log2Extent)| ==
                HEADER_BYTES + ENTRY_BYTES * count + 8 * IndexWords(|cells|, MinimalIndexBits(count))
  {
    var palette := FirstAppearance(cells);
    LayoutParts(log2Extent, palette, SlotsOf(palette, cells));
  }

  lemma CellsUsePalette(blob: seq<byte>)
    requires Unpacked(blob).Some?
    ensures var c := Unpacked(blob).value; forall v :: v in c.cells ==> v in c.palette
  {
    var c, h := Unpacked(blob).value, ReadHeader(blob).value;
    forall i | 0 <= i < |c.cells|
      ensures c.cells[i] in c.palette
    {
      assert c.cells[i] == c.palette[CellSlot(blob, h, i)];
    }
  }

  lemma FewerWords(cells: nat, a: nat, b: nat)
    requires LegalIndexBits(a) && LegalIndexBits(b) && a <= b
    ensures IndexWords(cells, a) <= IndexWords(cells, b)
  {
    MulMono(cells, a, b);
  }

  /** Repacking never grows a chunk: the canonical blob is a shortest valid blob for its cells. */
  lemma RepackIsShortest(blob: seq<byte>)
    requires Unpacked(blob).Some?
    ensures var c := Unpacked(blob).value;
            && Unpacked(Packed(c.cells, c.log2Extent)) ==
                 Some(UnpackedChunk(c.log2Extent, FirstAppearance(c.cells), c.cells))
            && |Packed(c.cells, c.log2Extent)| <= |blob|
  {
    var c, h := Unpacked(blob).value, ReadHeader(blob).value;
    UnpackOfPack(c.cells, c.log2Extent);
    PackedLength(c.cells, c.log2Extent);
    FirstAppearanceFacts(c.cells);
    CellsUsePalette(blob);
    DistinctFits(FirstAppearance(c.cells), c.palette);
    var count := |FirstAppearance(c.cells)|;
    if h.indexBits != 0 {
      CellCountIsPow8(h.log2Extent);
      MinimalIsLeast(count, h.indexBits);
    }
    FewerWords(|c.cells|, MinimalIndexBits(count), h.indexBits);
  }

  /* ----- canonical form ----- */

  /** Header, entry flags: every byte that readers ignore is zero. */
  ghost predicate ReservedZero(blob: seq<byte>, h: HeaderInfo)
    requires IsBlob(blob, h)
  {
    && blob[7] == 0
    && GetLE(blob, 12, 4) == 0
    && forall s :: 0 <= s < h.paletteCount ==> GetLE(blob, HEADER_BYTES + s * ENTRY_BYTES + 4, 4) == 0
  }

  /** Cells stored in stream word w. */
  function CellsInWord(h: HeaderInfo, w: nat): (n: int)
    requires LegalIndexBits(h.indexBits) && h.indexBits != 0
  {
    Min(CellsPerWord(h.indexBits), h.Cells() - CellsPerWord(h.indexBits) * w)
  }

  function WordBytesAt(h: HeaderInfo, w: nat): nat {
    HEADER_BYTES + h.paletteCount * ENTRY_BYTES + w * 8
  }

  /** Stream bits past the last cell are zero. */
  ghost predicate PaddingZero(blob: seq<byte>, h: HeaderInfo)
    requires IsBlob(blob, h)
  {
    h.indexBits != 0 ==>
      forall w :: 0 <= w < h.Words() ==>
          CellsInWord(h, w) >= 0 && GetLE(blob, WordBytesAt(h, w), 8) < Pow(Pow(2, h.indexBits), CellsInWord(h, w))
  }

  /** Minimal width, first-appearance palette without unused entries, and zero in every ignored bit. */
  ghost predicate Canonical(blob: seq<byte>)
    requires Unpacked(blob).Some?
  {
    var c, h := Unpacked(blob).value, ReadHeader(blob).value;
    && c.palette == FirstAppearance(c.cells)
    && h.indexBits == MinimalIndexBits(h.paletteCount)
    && ReservedZero(blob, h)
    && PaddingZero(blob, h)
  }

  lemma SegmentLength(slots: seq<nat>, h: HeaderInfo, w: nat)
    requires LegalIndexBits(h.indexBits) && h.indexBits != 0
    requires |slots| == h.Cells() && w < h.Words()
    ensures CellsInWord(h, w) > 0
    ensures |Segment(slots, CellsPerWord(h.indexBits), w)| == CellsInWord(h, w)
  {
    var n := CellsPerWord(h.indexBits);
    WordCount(h.indexBits, |slots|);
    CeilBelow(w, |slots|, n);
  }

  lemma CeilBelow(w: nat, m: nat, n: nat)
    requires n > 0 && w < (m + n - 1) / n
    ensures n * w < m
  {
    var q := (m + n - 1) / n;
    assert m + n - 1 == n * q + (m + n - 1) % n;
    MulMono(n, w + 1, q);
  }

  lemma LayoutFlags(log2Extent: byte, palette: seq<CellValue>, slots: seq<nat>, s: nat)
    requires s < |palette|
    ensures var blob := Layout(log2Extent, palette, slots);
            var at := HEADER_BYTES + s * ENTRY_BYTES + 4;
            at + 4 <= |blob| && GetLE(blob, at, 4) == 0
  {
    var blob := Layout(log2Extent, palette, slots);
    LayoutRecord(log2Extent, palette, slots, s);
    FlagsOfRecord(blob, HEADER_BYTES + s * ENTRY_BYTES, palette[s]);
  }

  lemma FlagsOfRecord(blob: seq<byte>, at: nat, e: CellValue)
    requires at + 16 <= |blob| && blob[at..at + 16] == EntryBytes(e)
    ensures GetLE(blob, at + 4, 4) == 0
  {
    EntryFields(e);
    SubSlice(blob, at, at + 16, 4, 8);
  }

  lemma HeaderTail(front: seq<byte>, rest: seq<byte>, log2Extent: byte, bits: byte, count: u32)
    requires front == HeaderBytes(log2Extent, bits, count)
    ensures (front + rest)[7] == 0 && GetLE(front + rest, 12, 4) == 0
  {
    HeaderFields(log2Extent, bits, count);
    SliceOfFront(front, rest, 12, 16);
  }

  lemma LayoutTail(log2Extent: byte, palette: seq<CellValue>, slots: seq<nat>)
    requires |palette| < 0x1_0000_0000
    ensures var blob := Layout(log2Extent, palette, slots);
            |blob| >= 16 && blob[7] == 0 && GetLE(blob, 12, 4) == 0
  {
    var bits := MinimalIndexBits(|palette|);
    var front := HeaderBytes(log2Extent, bits, |palette|);
    var mid, back := Flat(PaletteRecords(palette)), Flat(StreamRecords(Stream(slots, bits)));
    Append(front, mid, back);
    HeaderTail(front, mid + back, log2Extent, bits, |palette|);
  }

  lemma LayoutReserved(log2Extent: byte, palette: seq<CellValue>, slots: seq<nat>)
    requires Coherent(log2Extent, palette, slots)
    ensures var blob, h := Layout(log2Extent, palette, slots), LayoutInfo(log2Extent, palette);
            IsBlob(blob, h) && ReservedZero(blob, h)
  {
    LayoutHeader(log2Extent, palette, slots);
    CoherentBounds(log2Extent, palette, slots);
    LayoutTail(log2Extent, palette, slots);
    forall s | 0 <= s < |palette| {
      LayoutFlags(log2Extent, palette, slots, s);
    }
  }

  lemma LayoutWordPadding(log2Extent: byte, palette: seq<CellValue>, slots: seq<nat>, w: nat)
    requires Coherent(log2Extent, palette, slots)
    requires MinimalIndexBits(|palette|) != 0 && w < LayoutInfo(log2Extent, palette).Words()
    ensures var h := LayoutInfo(log2Extent, palette);
            var blob := Layout(log2Extent, palette, slots);
            && CellsInWord(h, w) > 0
            && WordBytesAt(h, w) + 8 <= |blob|
            && GetLE(blob, WordBytesAt(h, w), 8) < Pow(Pow(2, h.indexBits), CellsInWord(h, w))
  {
    var h := LayoutInfo(log2Extent, palette);
    CoherentBounds(log2Extent, palette, slots);
    LayoutWord(log2Extent, palette, slots, w);
    SegmentLength(slots, h, w);
    SegmentOfAll(slots, CellsPerWord(h.indexBits), w, Pow(2, h.indexBits));
    D.PackRange(Segment(slots, CellsPerWord(h.indexBits), w), Pow(2, h.indexBits));
  }

  lemma LayoutPadding(log2Extent: byte, palette: seq<CellValue>, slots: seq<nat>)
    requires Coherent(log2Extent, palette, slots)
    ensures var blob, h := Layout(log2Extent, palette, slots), LayoutInfo(log2Extent, palette);
            IsBlob(blob, h) && PaddingZero(blob, h)
  {
    var h := LayoutInfo(log2Extent, palette);
    LayoutHeader(log2Extent, palette, slots);
    if h.indexBits != 0 {
      forall w | 0 <= w < h.Words() {
        LayoutWordPadding(log2Extent, palette, slots, w);
      }
    }
  }

  /** The packer's output is canonical. */
  lemma PackIsCanonical(cells: seq<CellValue>, log2Extent: nat)
    requires 1 <= log2Extent <= MAX_LOG2_EXTENT && |cells| == CellCount(log2Extent)
    ensures Unpacked(Packed(cells, log2Extent)).Some? && Canonical(Packed(cells, log2Extent))
  {
    var palette := FirstAppearance(cells);
    var slots := SlotsOf(palette, cells);
    UnpackOfPack(cells, log2Extent);
    CanonicalIsCoherent(cells, log2Extent);
    LayoutHeader(log2Extent, palette, slots);
    LayoutReserved(log2Extent, palette, slots);
    LayoutPadding(log2Extent, palette, slots);
  }

  lemma HeaderIsCanonical(blob: seq<byte>, h: HeaderInfo)
    requires ReadHeader(blob) == Some(h) && ReservedZero(blob, h)
    ensures blob[..16] == HeaderBytes(h.log2Extent, h.indexBits, h.paletteCount)
  {
    BytesOfField(blob, 0, 4);
    BytesOfField(blob, 8, 4);
    BytesOfField(blob, 12, 4);
    FourParts(blob);
  }

  lemma FourParts(blob: seq<byte>)
    requires |blob| >= 16
    ensures blob[..16] == blob[0..4] + [blob[4], blob[5], blob[6], blob[7]] + blob[8..12] + blob[12..16]
  {
  }

  lemma EntryIsCanonical(blob: seq<byte>, h: HeaderInfo, s: nat)
    requires IsBlob(blob, h) && ReservedZero(blob, h) && s < h.paletteCount
    ensures var at := HEADER_BYTES + s * ENTRY_BYTES;
            at + 16 <= |blob| && blob[at..at + 16] == EntryBytes(EntryOf(blob, h, s))
  {
    EntryInBlob(blob, h, s);
    EntryFromFields(blob, HEADER_BYTES + s * ENTRY_BYTES, EntryOf(blob, h, s));
  }

  lemma EntryFromFields(blob: seq<byte>, at: nat, e: CellValue)
    requires at + 16 <= |blob| && GetLE(blob, at, 4) == e.content
    requires GetLE(blob, at + 4, 4) == 0 && GetLE(blob, at + 8, 8) == e.state
    ensures blob[at..at + 16] == EntryBytes(e)
  {
    BytesOfField(blob, at, 4);
    BytesOfField(blob, at + 4, 4);
    BytesOfField(blob, at + 8, 8);
    ThreeParts(blob, at);
  }

  lemma ThreeParts(blob: seq<byte>, at: nat)
    requires at + 16 <= |blob|
    ensures blob[at..at + 16] == blob[at..at + 4] + blob[at + 4..at + 8] + blob[at + 8..at + 16]
  {
  }

  lemma RecordIsCanonical(blob: seq<byte>, h: HeaderInfo, end: nat, s: nat)
    requires IsBlob(blob, h) && ReservedZero(blob, h) && s < h.paletteCount
    requires end == 16 + 16 * h.paletteCount <= |blob|
    ensures 16 * s + 16 <= |blob[16..end]|
    ensures blob[16..end][16 * s..16 * s + 16] == EntryBytes(EntryOf(blob, h, s))
  {
    EntryIsCanonical(blob, h, s);
    EntryRecord(blob, end, s, EntryBytes(EntryOf(blob, h, s)));
  }

  lemma EntryRecord(blob: seq<byte>, end: nat, s: nat, e: seq<byte>)
    requires 16 + 16 * s + 16 <= end <= |blob| && blob[16 + 16 * s..16 + 16 * s + 16] == e
    ensures 16 * s + 16 <= |blob[16..end]| && blob[16..end][16 * s..16 * s + 16] == e
  {
    SubSlice(blob, 16, end, 16 * s, 16 * s + 16);
  }

  lemma PaletteIsCanonical(blob: seq<byte>, h: HeaderInfo)
    requires IsBlob(blob, h) && ReservedZero(blob, h)
    ensures 16 + 16 * h.paletteCount <= |blob|
    ensures blob[16..16 + 16 * h.paletteCount] == Flat(PaletteRecords(PaletteOf(blob, h)))
  {
    var end := 16 + 16 * h.paletteCount;
    forall s | 0 <= s < h.paletteCount {
      RecordIsCanonical(blob, h, end, s);
    }
    FlatUnique(blob[16..end], PaletteRecords(PaletteOf(blob, h)), 16);
  }

  /** The slot of every cell, read off the blob. */
  function SlotsIn(blob: seq<byte>, h: HeaderInfo): (slots: seq<nat>)
    requires IsBlob(blob, h)
    ensures |slots| == h.Cells()
  {
    seq(h.Cells(), i requires 0 <= i < h.Cells() => CellSlot(blob, h, i))
  }

  lemma DigitOfWord(blob: seq<byte>, h: HeaderInfo, w: nat, j: nat)
    requires IsBlob(blob, h) && h.indexBits != 0 && w < h.Words()
    requires j < CellsPerWord(h.indexBits) && CellsPerWord(h.indexBits) * w + j < h.Cells()
    requires WordBytesAt(h, w) + 8 <= |blob|
    ensures D.Digit(GetLE(blob, WordBytesAt(h, w), 8), Pow(2, h.indexBits), j)
            == CellSlot(blob, h, CellsPerWord(h.indexBits) * w + j)
  {
    var n := CellsPerWord(h.indexBits);
    var cell := n * w + j;
    DivUnique(cell, n, w, j);
    BitPosition(h.indexBits, cell);
    PowMul(2, h.indexBits, j);
    Commute(h.indexBits, j);
    WordInBlob(blob, h, cell);
  }

  lemma WordFromDigits(word: nat, base: nat, part: seq<nat>)
    requires base > 0 && word < Pow(base, |part|)
    requires forall j :: 0 <= j < |part| ==> D.Digit(word, base, j) == part[j]
    ensures word == D.Pack(part, base)
  {
    assert D.Digits(word, base, |part|) == part;
    D.PackOfDigits(word, base, |part|);
  }

  lemma WordInStream(blob: seq<byte>, h: HeaderInfo, w: nat)
    requires IsBlob(blob, h) && w < h.Words()
    ensures WordBytesAt(h, w) + 8 <= |blob|
  {
  }

  lemma DigitOfSlot(blob: seq<byte>, h: HeaderInfo, w: nat, j: nat)
    requires IsBlob(blob, h) && h.indexBits != 0 && w < h.Words() && WordBytesAt(h, w) + 8 <= |blob|
    requires j < |Segment(SlotsIn(blob, h), CellsPerWord(h.indexBits), w)|
    ensures D.Digit(GetLE(blob, WordBytesAt(h, w), 8), Pow(2, h.indexBits), j)
            == Segment(SlotsIn(blob, h), CellsPerWord(h.indexBits), w)[j]
  {
    SegmentSpan(SlotsIn(blob, h), CellsPerWord(h.indexBits), w, j);
    DigitOfWord(blob, h, w, j);
  }

  lemma DigitsOfWord(blob: seq<byte>, h: HeaderInfo, w: nat)
    requires IsBlob(blob, h) && h.indexBits != 0 && w < h.Words() && WordBytesAt(h, w) + 8 <= |blob|
    ensures var part := Segment(SlotsIn(blob, h), CellsPerWord(h.indexBits), w);
            forall j :: 0 <= j < |part| ==>
                D.Digit(GetLE(blob, WordBytesAt(h, w), 8), Pow(2, h.indexBits), j) == part[j]
  {
    forall j | 0 <= j < |Segment(SlotsIn(blob, h), CellsPerWord(h.indexBits), w)| {
      DigitOfSlot(blob, h, w, j);
    }
  }

  lemma WordIsCanonical(blob: seq<byte>, h: HeaderInfo, w: nat)
    requires IsBlob(blob, h) && PaddingZero(blob, h) && h.indexBits != 0 && w < h.Words()
    ensures WordBytesAt(h, w) + 8 <= |blob|
    ensures GetLE(blob, WordBytesAt(h, w), 8) == StreamWord(SlotsIn(blob, h), h.indexBits, w)
  {
    var part := Segment(SlotsIn(blob, h), CellsPerWord(h.indexBits), w);
    WordInStream(blob, h, w);
    SegmentLength(SlotsIn(blob, h), h, w);
    DigitsOfWord(blob, h, w);
    WordFromDigits(GetLE(blob, WordBytesAt(h, w), 8), Pow(2, h.indexBits), part);
  }

  lemma SegmentSpan(slots: seq<nat>, n: nat, w: nat, j: nat)
    requires j < |Segment(slots, n, w)|
    ensures j < n && n * w + j < |slots| && Segment(slots, n, w)[j] == slots[n * w + j]
  {
  }

  lemma WordRecordIsCanonical(blob: seq<byte>, h: HeaderInfo, at: nat, w: nat)
    requires IsBlob(blob, h) && PaddingZero(blob, h) && h.indexBits != 0 && w < h.Words()
    requires at == 16 + 16 * h.paletteCount <= |blob|
    ensures 8 * w + 8 <= |blob[at..]|
    ensures blob[at..][8 * w..8 * w + 8] == LE(StreamWord(SlotsIn(blob, h), h.indexBits, w), 8)
  {
    WordIsCanonical(blob, h, w);
    WordRecord(blob, at, w, StreamWord(SlotsIn(blob, h), h.indexBits, w), WordBytesAt(h, w));
  }

  lemma WordRecord(blob: seq<byte>, at: nat, w: nat, word: nat, pos: nat)
    requires pos == at + 8 * w && pos + 8 <= |blob| && GetLE(blob, pos, 8) == word
    ensures 8 * w + 8 <= |blob[at..]| && blob[at..][8 * w..8 * w + 8] == LE(word, 8)
  {
    BytesOfField(blob, pos, 8);
    SubSlice(blob, at, |blob|, 8 * w, 8 * w + 8);
  }

  lemma StreamIsCanonical(blob: seq<byte>, h: HeaderInfo)
    requires IsBlob(blob, h) && PaddingZero(blob, h)
    ensures blob[16 + 16 * h.paletteCount..] == Flat(StreamRecords(Stream(SlotsIn(blob, h), h.indexBits)))
  {
    var at := 16 + 16 * h.paletteCount;
    if h.indexBits != 0 {
      forall w | 0 <= w < h.Words() {
        WordRecordIsCanonical(blob, h, at, w);
      }
    }
    FlatUnique(blob[at..], StreamRecords(Stream(SlotsIn(blob, h), h.indexBits)), 8);
  }

  lemma SlotsAreFirst(blob: seq<byte>)
    requires Unpacked(blob).Some? && Unpacked(blob).value.palette == FirstAppearance(Unpacked(blob).value.cells)
    ensures var c, h := Unpacked(blob).value, ReadHeader(blob).value;
            SlotsIn(blob, h) == SlotsOf(c.palette, c.cells)
  {
    var c, h := Unpacked(blob).value, ReadHeader(blob).value;
    FirstAppearanceFacts(c.cells);
    forall i | 0 <= i < |c.cells|
      ensures CellSlot(blob, h, i) == SlotOf(c.palette, c.cells[i])
    {
      var s := CellSlot(blob, h, i);
      assert c.cells[i] == c.palette[s];
      SlotOfUnique(c.palette, c.cells[i], s);
    }
  }

  lemma CanonicalIsLayout(blob: seq<byte>, h: HeaderInfo)
    requires ReadHeader(blob) == Some(h) && h.indexBits == MinimalIndexBits(h.paletteCount)
    requires ReservedZero(blob, h) && PaddingZero(blob, h)
    ensures blob == Layout(h.log2Extent, PaletteOf(blob, h), SlotsIn(blob, h))
  {
    CountIsSmall(h);
    HeaderIsCanonical(blob, h);
    PaletteIsCanonical(blob, h);
    StreamIsCanonical(blob, h);
    Reassemble(blob, h.log2Extent, h.indexBits, h.paletteCount, PaletteOf(blob, h), SlotsIn(blob, h));
  }

  lemma CountIsSmall(h: HeaderInfo)
    requires h.Valid()
    ensures h.paletteCount <= 32768 && h.log2Extent < 256 && h.indexBits < 256
  {
    CellCountIsPow8(h.log2Extent);
  }

  lemma Reassemble(blob: seq<byte>, log2Extent: byte, bits: byte, count: u32, palette: seq<CellValue>, slots: seq<nat>)
    requires count == |palette| && bits == MinimalIndexBits(count) && 16 + 16 * count <= |blob|
    requires blob[..16] == HeaderBytes(log2Extent, bits, count)
    requires blob[16..16 + 16 * count] == Flat(PaletteRecords(palette))
    requires blob[16 + 16 * count..] == Flat(StreamRecords(Stream(slots, bits)))
    ensures blob == Layout(log2Extent, palette, slots)
  {
    Assemble(blob, 16 + 16 * count, HeaderBytes(log2Extent, bits, count), Flat(PaletteRecords(palette)),
             Flat(StreamRecords(Stream(slots, bits))));
  }

  lemma CanonicalIsPacked(blob: seq<byte>)
    requires Unpacked(blob).Some? && Canonical(blob)
    ensures var c := Unpacked(blob).value; Packed(c.cells, c.log2Extent) == blob
  {
    CanonicalIsLayout(blob, ReadHeader(blob).value);
    SlotsAreFirst(blob);
  }

  lemma Assemble(blob: seq<byte>, at: nat, a: seq<byte>, b: seq<byte>, c: seq<byte>)
    requires 16 <= at <= |blob|
    requires blob[..16] == a && blob[16..at] == b && blob[at..] == c
    ensures a + b + c == blob
  {
    assert blob == blob[..16] + blob[16..at] + blob[at..];
  }

  /**
   Repacking a valid blob gives back its own bytes exactly when the blob is canonical. Besides the
   width and the palette this asks for zeros in every bit that readers ignore.
   */
  lemma RepackIsIdentityIffCanonical(blob: seq<byte>)
    requires Unpacked(blob).Some?
    ensures var c := Unpacked(blob).value; Packed(c.cells, c.log2Extent) == blob <==> Canonical(blob)
  {
    var c := Unpacked(blob).value;
    if Packed(c.cells, c.log2Extent) == blob {
      PackIsCanonical(c.cells, c.log2Extent);
    }
    if Canonical(blob) {
      CanonicalIsPacked(blob);
    }
  }

  /* ----- where everything lies in a packed blob ----- */

  lemma HeaderLayout(log2Extent: byte, bits: byte, count: u32)
    ensures var bs := HeaderBytes(log2Extent, bits, count);
            && bs[..8] == [0x56, 0x58, 0x42, 0x31, 1, log2Extent, bits, 0]
            && GetLE(bs, 8, 4) == count && bs[12..16] == [0, 0, 0, 0]
  {
    FourBytesOf(MAGIC);
    FourBytesOf(0);
    HeaderFields(log2Extent, bits, count);
  }

  /** "VXB1", version one, extent, index width and a zero, then the entry count and four more zeros. */
  lemma PackedHeader(cells: seq<CellValue>, log2Extent: nat)
    requires 1 <= log2Extent <= 5 && |cells| == CellCount(log2Extent)
    ensures var bs, count := Packed(cells, log2Extent), |FirstAppearance(cells)|;
            && |bs| >= 16 && bs[..8] == [0x56, 0x58, 0x42, 0x31, 1, log2Extent, MinimalIndexBits(count), 0]
            && GetLE(bs, 8, 4) == count && bs[12..16] == [0, 0, 0, 0]
  {
    var palette := FirstAppearance(cells);
    var bits, slots := MinimalIndexBits(|palette|), SlotsOf(palette, cells);
    CanonicalIsCoherent(cells, log2Extent);
    CoherentBounds(log2Extent, palette, slots);
    HeaderLayout(log2Extent, bits, |palette|);
    Append(HeaderBytes(log2Extent, bits, |palette|), Flat(PaletteRecords(palette)),
           Flat(StreamRecords(Stream(slots, bits))));
    FrontOf(HeaderBytes(log2Extent, bits, |palette|),
            Flat(PaletteRecords(palette)) + Flat(StreamRecords(Stream(slots, bits))), Packed(cells, log2Extent));
  }

  lemma FrontOf(front: seq<byte>, rest: seq<byte>, whole: seq<byte>)
    requires |front| == 16 && whole == front + rest
    ensures whole[..8] == front[..8] && whole[8..12] == front[8..12] && whole[12..16] == front[12..16]
  {
  }

  /** Palette entry s: content in four bytes, four zeros, state in eight. */
  lemma PackedEntry(cells: seq<CellValue>, log2Extent: nat, s: nat, bs: seq<byte>, at: nat)
    requires 1 <= log2Extent <= 5 && |cells| == CellCount(log2Extent) && s < |FirstAppearance(cells)|
    requires bs == Packed(cells, log2Extent) && at == 16 + 16 * s
    ensures at + 16 <= |bs| && GetLE(bs, at, 4) == FirstAppearance(cells)[s].content
    ensures GetLE(bs, at + 4, 4) == 0 && GetLE(bs, at + 8, 8) == FirstAppearance(cells)[s].state
  {
    var palette := FirstAppearance(cells);
    LayoutEntryAt(log2Extent, palette, SlotsOf(palette, cells), s, bs, at);
  }

  lemma LayoutEntryAt(log2Extent: byte, palette: seq<CellValue>, slots: seq<nat>, s: nat, bs: seq<byte>, at: nat)
    requires s < |palette| && bs == Layout(log2Extent, palette, slots) && at == 16 + 16 * s
    ensures at + 16 <= |bs| && GetLE(bs, at, 4) == palette[s].content
    ensures GetLE(bs, at + 4, 4) == 0 && GetLE(bs, at + 8, 8) == palette[s].state
  {
    LayoutRecord(log2Extent, palette, slots, s);
    RecordFields(bs, at, palette[s]);
  }

  lemma RecordFields(bs: seq<byte>, at: nat, e: CellValue)
    requires at + 16 <= |bs| && bs[at..at + 16] == EntryBytes(e)
    ensures GetLE(bs, at, 4) == e.content && GetLE(bs, at + 4, 4) == 0 && GetLE(bs, at + 8, 8) == e.state
  {
    EntryOfRecord(bs, at, e);
    EntryFields(e);
    SubSlice(bs, at, at + 16, 4, 8);
  }

  /** The index of cell i starts at bit i * bits of the stream of 64-bit words behind the palette. */
  lemma PackedIndex(cells: seq<CellValue>, log2Extent: nat, i: nat, bs: seq<byte>, palette: seq<CellValue>, bits: nat,
                    start: nat)
    requires 1 <= log2Extent <= 5 && |cells| == CellCount(log2Extent) && i < |cells|
    requires bs == Packed(cells, log2Extent) && palette == FirstAppearance(cells) && |palette| > 1
    requires bits == MinimalIndexBits(|palette|) && start == i * bits
    ensures var at := 16 + 16 * |palette| + 8 * (start / 64);
            && at + 8 <= |bs| && SlotOf(palette, cells[i]) < |palette|
            && GetLE(bs, at, 8) / Pow(2, start % 64) % Pow(2, bits) == SlotOf(palette, cells[i])
  {
    CanonicalIsCoherent(cells, log2Extent);
    LayoutIndexAt(log2Extent, palette, SlotsOf(palette, cells), i, bs, start, 16 + 16 * |palette| + 8 * (start / 64),
                  SlotOf(palette, cells[i]));
  }

  lemma LayoutIndexAt(log2Extent: byte, palette: seq<CellValue>, slots: seq<nat>, i: nat, bs: seq<byte>, start: nat,
                      at: nat, slot: nat)
    requires Coherent(log2Extent, palette, slots) && |palette| > 1 && i < |slots| && slots[i] == slot
    requires bs == Layout(log2Extent, palette, slots) && start == i * MinimalIndexBits(|palette|)
    requires at == 16 + 16 * |palette| + 8 * (start / 64)
    ensures slot < |palette| && at + 8 <= |bs|
    ensures GetLE(bs, at, 8) / Pow(2, start % 64) % Pow(2, MinimalIndexBits(|palette|)) == slot
  {
    CoherentBounds(log2Extent, palette, slots);
    LayoutStream(log2Extent, palette, slots);
    IndexOfStream(bs, LayoutInfo(log2Extent, palette), slots, i);
    IndexIsRead(bs, LayoutInfo(log2Extent, palette), i, start, at, slot);
  }

  lemma IndexIsRead(bs: seq<byte>, h: HeaderInfo, i: nat, start: nat, at: nat, slot: nat)
    requires start == i * h.indexBits && at == 16 + 16 * h.paletteCount + 8 * (start / 64)
    requires WordAt(h, i) + 8 <= |bs| && ReadIndex(bs, h, i) == slot
    ensures at + 8 <= |bs| && GetLE(bs, at, 8) / Pow(2, start % 64) % Pow(2, h.indexBits) == slot
  {
  }

  /** Palette entries come in the order in which the cells first show them. */
  lemma {:induction false} PaletteOrder(cells: seq<CellValue>, i: nat, j: nat)
    requires i < j < |FirstAppearance(cells)|
    ensures SlotOf(cells, FirstAppearance(cells)[i]) < SlotOf(cells, FirstAppearance(cells)[j])
    decreases |cells|
  {
    var front, last := cells[..|cells| - 1], cells[|cells| - 1];
    var palette := FirstAppearance(front);
    FirstAppearanceFacts(front);
    assert cells == front + [last];
    if j < |palette| {
      PaletteOrder(front, i, j);
      OrderStays(front, last, palette[i], palette[j]);
    } else {
      OrderOfLast(front, last, palette[i]);
    }
  }

  lemma OrderStays(front: seq<CellValue>, last: CellValue, v: CellValue, w: CellValue)
    requires v in front && w in front && SlotOf(front, v) < SlotOf(front, w)
    ensures SlotOf(front + [last], v) < SlotOf(front + [last], w)
  {
    SlotInLonger(front, last, v);
    SlotInLonger(front, last, w);
  }

  lemma OrderOfLast(front: seq<CellValue>, last: CellValue, v: CellValue)
    requires v in front && last !in front
    ensures SlotOf(front + [last], v) < SlotOf(front + [last], last)
  {
    SlotInLonger(front, last, v);
    SlotInLonger(front, last, last);
    SlotOfMember(front, v);
  }

  lemma SlotInLonger(front: seq<CellValue>, last: CellValue, v: CellValue)
    ensures v in front ==> SlotOf(front + [last], v) == SlotOf(front, v)
    ensures v !in front ==> SlotOf(front + [last], v) >= |front|
  {
    var all := front + [last];
    if v in front {
      SlotOfMember(front, v);
      assert IsSlot(all, v, SlotOf(front, v));
      SlotOfUnique(all, v, SlotOf(front, v));
    } else {
      assert forall k :: 0 <= k < |front| ==> all[k] == front[k] && front[k] in front;
    }
  }
}
