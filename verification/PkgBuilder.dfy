/**
 * The package builder: header and entry table, the image written behind them, and
 * the final rewrite of the header over the start of the file.
 */
module PkgBuilder {
  import opened Words
  import opened ByteFile
  import opened PfsLayout
  import opened PfsTree
  import opened PfsScan
  import opened PfsBuilder
  import opened PfsImage

  const PKG_MAGIC: nat := 0x7F434E54
  const PKG_HEADER_SIZE: nat := 0x4000
  // The packed header structure is shorter than the space reserved for it.
  const PKG_HEADER_BYTES: nat := 0x3F60
  const ENTRY_SIZE: nat := 16
  const ENTRY_SLOTS: nat := 10

  const ID_NPDRM: nat := 0x4000
  const ID_PFS_IMAGE_SIZE: nat := 0x4203
  const ID_PFS_FLAGS: nat := 0x4204
  const ID_PFS_BLOCK_SIZE: nat := 0x4220
  const NPDRM_SIZE: nat := 116

  datatype Code = Success | ErrorIO

  datatype Entry = Entry(id: nat, offset: nat, size: nat, flags: nat)

  datatype Header = Header(typ: nat, dataSize: nat, pkgSize: nat, entryCount: nat, entryCount2: nat,
                           entryTableSize: nat, entryTableOffset: nat, bodyOffset: nat)

  // ----- bytes of the header and of the entry table -----

  function HeaderField(h: Header, k: nat): Field {
    match k
    case 0 => Field(0x00, LE(PKG_MAGIC, 4))
    case 1 => Field(0x04, LE(h.typ, 4))
    case 2 => Field(0x08, LE(PKG_HEADER_SIZE, 4))
    case 3 => Field(0x10, LE(PKG_HEADER_SIZE, 8))
    case 4 => Field(0x18, LE(h.dataSize, 8))
    case 5 => Field(0x20, LE(h.pkgSize, 8))
    case 6 => Field(0x44, LE(h.entryCount, 4))
    case 7 => Field(0x48, LE(h.entryCount2, 2))
    case 8 => Field(0x4A, LE(h.entryTableSize, 2))
    case 9 => Field(0x50, LE(h.entryTableOffset, 8))
    case _ => Field(0x58, LE(h.bodyOffset, 8))
  }

  function HeaderFields(h: Header): seq<Field> {
    seq(11, k requires 0 <= k => HeaderField(h, k))
  }

  function HeaderBytes(h: Header): Bytes {
    Store(Zeros(PKG_HEADER_BYTES), HeaderFields(h))
  }

  lemma {:induction false} HeaderFieldsFit(h: Header)
    ensures FieldsFit(HeaderFields(h), PKG_HEADER_BYTES)
  {
  }

  lemma {:induction false} HeaderFieldHolds(h: Header, k: nat)
    requires k < 11
    ensures |HeaderBytes(h)| == PKG_HEADER_BYTES
    ensures Holds(HeaderBytes(h), HeaderFields(h)[k].at, HeaderFields(h)[k].bytes)
  {
    HeaderFieldsFit(h);
    StoreReadsBack(Zeros(PKG_HEADER_BYTES), HeaderFields(h), k, 0);
    assert HeaderFields(h)[0..] == HeaderFields(h);
  }

  function DecodeHeader(b: Bytes): Header
    requires |b| == PKG_HEADER_BYTES
  {
    Header(Value(b[0x04..0x08]), Value(b[0x18..0x20]), Value(b[0x20..0x28]), Value(b[0x44..0x48]),
           Value(b[0x48..0x4A]), Value(b[0x4A..0x4C]), Value(b[0x50..0x58]), Value(b[0x58..0x60]))
  }

  predicate HeaderInWidth(h: Header) {
    h.typ < TWO32 && h.dataSize < TWO64 && h.pkgSize < TWO64 && h.entryCount < TWO32
    && h.entryCount2 < 0x1_0000 && h.entryTableSize < 0x1_0000 && h.entryTableOffset < TWO64 && h.bodyOffset < TWO64
  }

  /** Decoding a written header gives the header back, and it starts with the magic. */
  lemma {:induction false} HeaderRoundTrip(h: Header)
    requires HeaderInWidth(h)
    ensures |HeaderBytes(h)| == 0x3F60 && DecodeHeader(HeaderBytes(h)) == h
    ensures Value(HeaderBytes(h)[0..4]) == PKG_MAGIC
  {
    HeaderFieldHolds(h, 0); ReadU32(PKG_MAGIC);
    HeaderFieldHolds(h, 1); ReadU32(h.typ);
    HeaderFieldHolds(h, 4); ReadU64(h.dataSize);
    HeaderFieldHolds(h, 5); ReadU64(h.pkgSize);
    HeaderFieldHolds(h, 6); ReadU32(h.entryCount);
    HeaderFieldHolds(h, 7); ReadU16(h.entryCount2);
    HeaderFieldHolds(h, 8); ReadU16(h.entryTableSize);
    HeaderFieldHolds(h, 9); ReadU64(h.entryTableOffset);
    HeaderFieldHolds(h, 10); ReadU64(h.bodyOffset);
  }

  function EntryBytes(e: Entry): (b: Bytes)
    ensures |b| == ENTRY_SIZE
  {
    LE(e.id, 4) + LE(e.offset, 4) + LE(e.size, 4) + LE(e.flags, 4)
  }

  function EntryTable(es: seq<Entry>): (b: Bytes)
    ensures |b| == ENTRY_SIZE * |es|
  {
    if es == [] then [] else EntryBytes(es[0]) + EntryTable(es[1..])
  }

  function DecodeEntries(b: Bytes): seq<Entry>
    requires |b| % ENTRY_SIZE == 0
    decreases |b|
  {
    if b == [] then []
    else [Entry(Value(b[0..4]), Value(b[4..8]), Value(b[8..12]), Value(b[12..16]))] + DecodeEntries(b[16..])
  }

  predicate EntryInWidth(e: Entry) {
    e.id < TWO32 && e.offset < TWO32 && e.size < TWO32 && e.flags < TWO32
  }

  predicate AllInWidth(es: seq<Entry>) {
    forall k: nat :: k < |es| ==> EntryInWidth(es[k])
  }

  lemma {:induction false} EntryTableRoundTrip(es: seq<Entry>)
    requires AllInWidth(es)
    ensures DecodeEntries(EntryTable(es)) == es
  {
    if es != [] {
      var e, t, b := es[0], EntryTable(es[1..]), EntryTable(es);
      assert EntryInWidth(es[0]);
      ReadU32(e.id); ReadU32(e.offset); ReadU32(e.size); ReadU32(e.flags);
      assert b[0..4] == LE(e.id, 4) && b[4..8] == LE(e.offset, 4)
          && b[8..12] == LE(e.size, 4) && b[12..16] == LE(e.flags, 4) && b[16..] == t;
      EntryTableRoundTrip(es[1..]);
    }
  }

  // ----- the package context -----

  /** The first slot from `i` on whose id is 0, or the number of slots. */
  function FirstFree(slots: seq<Entry>, i: nat): nat
    decreases |slots| - i
  {
    if i >= |slots| || slots[i].id == 0 then i else FirstFree(slots, i + 1)
  }

  class PkgContext {
    var hdr: Header
    var entries: array<Entry>
    var entryData: Bytes

    /** pkg_header_init */
    constructor (typ: nat)
      ensures Valid() && fresh(entries) && entries.Length == 10
      ensures hdr == Header(typ, 0, 0, 0, 0, 0, PKG_HEADER_SIZE, 0) && entryData == []
    {
      hdr := Header(typ, 0, 0, 0, 0, 0, PKG_HEADER_SIZE, 0);
      entries := new Entry[ENTRY_SLOTS](_ => Entry(0, 0, 0, 0));
      entryData := [];
    }

    /** Used slots come first; a slot is free exactly when its id is 0. */
    ghost predicate Valid()
      reads this, entries
    {
      && entries.Length == ENTRY_SLOTS
      && hdr.entryCount <= ENTRY_SLOTS
      && (forall i :: 0 <= i < hdr.entryCount ==> entries[i].id != 0)
      && (forall i :: hdr.entryCount <= i < ENTRY_SLOTS ==> entries[i] == Entry(0, 0, 0, 0))
    }

    function Listed(): seq<Entry>
      requires hdr.entryCount <= entries.Length
      reads this, entries
    {
      entries[..hdr.entryCount]
    }

    /** pkg_add_entry: takes the first slot whose id is 0, whatever is in the slots. The
        offset of the slot stays as it was; the offset inside the entry data is only
        reported to the caller. With used slots in front, an entry with an id is
        appended; an entry without one leaves its slot free although it is counted. */
    method AddEntry(id: nat, size: nat, data: Option<Bytes>) returns (ok: bool, offset: nat)
      requires data.Some? ==> |data.value| == size
      modifies this, entries
      ensures entries == old(entries)
      ensures ok <==> FirstFree(old(entries[..]), 0) < entries.Length
      ensures ok ==>
                var k := FirstFree(old(entries[..]), 0);
                entries[..] == old(entries[..])[k := Entry(id, old(entries[..])[k].offset, size, 0)]
      ensures ok ==> hdr == old(hdr).(entryCount := old(hdr.entryCount) + 1)
      ensures ok ==> offset == |old(entryData)|
      ensures ok ==> entryData == old(entryData) + (if data.Some? then data.value else [])
      ensures !ok ==> hdr == old(hdr) && entryData == old(entryData) && entries[..] == old(entries[..])
      ensures old(Valid()) ==> (ok <==> old(hdr.entryCount) < ENTRY_SLOTS)
      ensures old(Valid()) && id != 0 ==>
                Valid() && Listed() == old(Listed()) + if ok then [Entry(id, 0, size, 0)] else []
    {
      offset := 0;
      ghost var slots := entries[..];
      for i := 0 to entries.Length
        invariant old(Valid()) ==> i <= hdr.entryCount
        invariant FirstFree(slots, 0) == FirstFree(slots, i)
        invariant unchanged(this) && unchanged(entries)
      {
        if entries[i].id == 0 {
          entries[i] := Entry(id, entries[i].offset, size, 0);
          offset := |entryData|;
          if data.Some? && size > 0 {
            entryData := entryData + data.value;
          }
          hdr := hdr.(entryCount := hdr.entryCount + 1);
          return true, offset;
        }
      }
      ok := false;
    }

    /** pkg_header_finalize */
    method Finalize()
      requires Valid()
      modifies `hdr
      ensures Valid() && Listed() == old(Listed())
      ensures hdr == old(hdr).(bodyOffset := PKG_HEADER_SIZE + ENTRY_SIZE * hdr.entryCount,
                               entryTableSize := ENTRY_SIZE * hdr.entryCount, entryCount2 := hdr.entryCount)
    {
      var tableSize := hdr.entryCount * ENTRY_SIZE;
      TableAligned(hdr.entryCount);
      hdr := hdr.(bodyOffset := AlignUp(PKG_HEADER_SIZE + tableSize, 16));
      hdr := hdr.(entryTableSize := tableSize % 0x1_0000);
      hdr := hdr.(entryCount2 := hdr.entryCount % 0x1_0000);
    }

    /** pkg_write_header */
    method WriteHeader(out: OutFile)
      requires Valid()
      modifies out
      ensures out.data == WithHeader(old(out.data), old(out.pos), hdr, Listed())
    {
      out.Write(HeaderBytes(hdr));
      out.Seek(hdr.entryTableOffset);
      out.Write(EntryTable(entries[..hdr.entryCount]));
    }
  }

  /** Header and table already end at a multiple of 16. */
  lemma {:induction false} TableAligned(count: nat)
    requires count <= ENTRY_SLOTS
    ensures AlignUp(PKG_HEADER_SIZE + count * ENTRY_SIZE, 16) == PKG_HEADER_SIZE + count * ENTRY_SIZE
  {
    var v := PKG_HEADER_SIZE + count * ENTRY_SIZE;
    AlignUpIsAligned(v, 16);
    Pow2Small();
    AlignedFixes(v, 16);
    DivModUnique(v, 16, 0x400 + count, 0);
  }

  function WithHeader(data: Bytes, pos: nat, h: Header, es: seq<Entry>): Bytes {
    WriteAt(WriteAt(data, pos, HeaderBytes(h)), h.entryTableOffset, EntryTable(es))
  }

  // ----- the finished package -----

  const PKG_ENTRIES: seq<Entry> :=
    [Entry(ID_NPDRM, 0, NPDRM_SIZE, 0), Entry(ID_PFS_FLAGS, 0, 4, 0),
     Entry(ID_PFS_BLOCK_SIZE, 0, 8, 0), Entry(ID_PFS_IMAGE_SIZE, 0, 8, 0)]

  const BODY_OFFSET: nat := 0x4040

  /** The header before the size of the package is known. */
  function FirstHeader(typ: nat): Header {
    Header(typ, 0, 0, 4, 4, 64, PKG_HEADER_SIZE, BODY_OFFSET)
  }

  function FinalHeader(typ: nat, size: nat): Header {
    FirstHeader(typ).(pkgSize := size, dataSize := (size - PKG_HEADER_SIZE) % TWO64)
  }

  function PkgSize(rs: seq<Rec>, bs: nat): nat
    requires bs > 0
  {
    DataEnd(rs, bs)
  }

  /** The package before the final rewrite of the header. */
  function Body(typ: nat, id: nat, rs: seq<Rec>, bs: nat, disk: Disk): Bytes
    requires bs > 0 && AllCopyable(LaidOut(rs, bs), disk)
  {
    ImageBytes(WithHeader([], 0, FirstHeader(typ), PKG_ENTRIES), BODY_OFFSET, id, LaidOut(rs, bs), bs, disk)
  }

  function Package(typ: nat, id: nat, rs: seq<Rec>, bs: nat, disk: Disk): Bytes
    requires bs > 0 && AllCopyable(LaidOut(rs, bs), disk)
  {
    WithHeader(Body(typ, id, rs, bs, disk), 0, FinalHeader(typ, PkgSize(rs, bs)), PKG_ENTRIES)
  }

  function BlockSizeUsed(pfsBlockSize: nat): nat {
    if pfsBlockSize != 0 then pfsBlockSize else DEFAULT_BLOCK_SIZE
  }

  /** The first steps of pkg_build: create the image and scan into its root. */
  method ScanImage(pfsBlockSize: nat, path: Path, opens: bool, entries: seq<DirEntry>, now: nat,
                   counter: InodeCounter)
    returns (image: PfsImage, ok: bool, ghost s: Shape)
    modifies counter
    ensures fresh(image) && fresh(image.root) && image.blockSize == BlockSizeUsed(pfsBlockSize) && image.id == now
    ensures ok == opens && image.root == s.node
    ensures Linked(Pre(s)) && Distinct(Pre(s)) && fresh(Nodes(Pre(s)))
    ensures Snaps(Pre(s)) == Scanned(path, opens, entries, old(counter.next))
  {
    image := new PfsImage(pfsBlockSize, now, counter);
    ghost var kids: seq<Shape>;
    ok, kids := ScanDirectory(path, opens, entries, image.root, counter);
    s := Shape(image.root, kids);
    NewSubtree(s);
  }

  /** One entry behind the others; there is room for it. */
  method Append(ctx: PkgContext, id: nat, size: nat, data: Bytes)
    requires ctx.Valid() && id != 0 && |data| == size && ctx.hdr.entryCount < ENTRY_SLOTS
    modifies ctx, ctx.entries
    ensures ctx.Valid() && ctx.entries == old(ctx.entries)
    ensures ctx.Listed() == old(ctx.Listed()) + [Entry(id, 0, size, 0)]
    ensures ctx.hdr == old(ctx.hdr).(entryCount := old(ctx.hdr.entryCount) + 1)
    ensures ctx.entryData == old(ctx.entryData) + data
  {
    var ok, offset := ctx.AddEntry(id, size, Some(data));
  }

  /** The entries that pkg_build puts into the table. */
  method PrepareContext(typ: nat, npdrm: Bytes, bs: nat, pfsSize: nat) returns (ctx: PkgContext)
    requires |npdrm| == NPDRM_SIZE
    ensures fresh(ctx) && fresh(ctx.entries) && ctx.Valid()
    ensures ctx.hdr == FirstHeader(typ) && ctx.Listed() == PKG_ENTRIES
    ensures ctx.entryData == npdrm + LE(0, 4) + LE(bs, 8) + LE(pfsSize, 8)
  {
    ctx := new PkgContext(typ);
    Append(ctx, ID_NPDRM, NPDRM_SIZE, npdrm);
    Append(ctx, ID_PFS_FLAGS, 4, LE(0, 4));
    Append(ctx, ID_PFS_BLOCK_SIZE, 8, LE(bs, 8));
    Append(ctx, ID_PFS_IMAGE_SIZE, 8, LE(pfsSize, 8));
    ctx.Finalize();
  }

  lemma {:induction false} AssignKeepsSizes(rs: seq<Rec>, base: nat, bs: nat, k: nat)
    requires bs > 0 && k < |rs|
    ensures Assign(rs, base, bs)[k].size == rs[k].size
  {
    AssignAt(rs, base, bs, k);
  }

  lemma {:induction false} LaidOutFits(rs: seq<Rec>, bs: nat)
    requires bs > 0 && LayoutFits(rs, bs)
    ensures TotalBlocks(LaidOut(rs, bs), bs) == TotalBlocks(rs, bs) && LayoutFits(LaidOut(rs, bs), bs)
  {
    var base := DataOffset(|rs|, TotalBlocks(rs, bs), bs);
    AssignKeepsTotals(rs, base, bs);
    forall k: nat | k < |rs|
      ensures LaidOut(rs, bs)[k].size + bs <= TWO64
    {
      AssignKeepsSizes(rs, base, bs, k);
    }
  }

  /** pkg_build, from the scan of the input directory to the closed file. `creates` says
      whether the output file can be opened. */
  method PkgBuild(typ: nat, pfsBlockSize: nat, path: Path, opens: bool, entries: seq<DirEntry>,
                  disk: Disk, now: nat, npdrm: Bytes, counter: InodeCounter, creates: bool)
    returns (code: Code, out: OutFile)
    requires |npdrm| == NPDRM_SIZE
    requires BlockSizeUsed(pfsBlockSize) < TWO64
    requires LayoutFits(Scanned(path, opens, entries, counter.next), BlockSizeUsed(pfsBlockSize))
    modifies counter
    ensures var rs, bs := Scanned(path, opens, entries, old(counter.next)), BlockSizeUsed(pfsBlockSize);
            && (code == Success <==> opens && creates && AllCopyable(LaidOut(rs, bs), disk))
            && (code == Success ==> out.data == Package(typ, now, rs, bs, disk))
  {
    var bs := BlockSizeUsed(pfsBlockSize);
    out := new OutFile();
    var image, ok, s := ScanImage(pfsBlockSize, path, opens, entries, now, counter);
    if !ok {
      return ErrorIO, out;
    }
    ghost var rs := Scanned(path, opens, entries, old(counter.next));
    ScannedSourced(path, opens, entries, old(counter.next));
    ok := BuildPackage(out, image, disk, typ, npdrm, creates, s, rs);
    code := if ok then Success else ErrorIO;
  }

  /** pkg_build after the scan. */
  method BuildPackage(out: OutFile, image: PfsImage, disk: Disk, typ: nat, npdrm: Bytes, creates: bool,
                      ghost s: Shape, ghost rs: seq<Rec>)
    returns (ok: bool)
    requires |npdrm| == NPDRM_SIZE && out.data == [] && out.pos == 0
    requires image.root == s.node && Linked(Pre(s)) && Distinct(Pre(s)) && rs == Snaps(Pre(s)) && AllSourced(rs)
    requires 0 < image.blockSize < TWO64 && LayoutFits(rs, image.blockSize)
    modifies out, image`inodeCount, image`blockCount, image`dataOffset, Nodes(Pre(s))`offset
    ensures ok <==> creates && AllCopyable(LaidOut(rs, image.blockSize), disk)
    ensures ok ==> out.data == Package(typ, image.id, rs, image.blockSize, disk)
  {
    ghost var tree, laid := Pre(s), LaidOut(rs, image.blockSize);
    var pfsSize := LayOutImage(image, s, rs);
    assert Linked(tree) && Snaps(tree) == laid;
    var ctx := PrepareContext(typ, npdrm, image.blockSize, pfsSize);
    assert Linked(tree) && Snaps(tree) == laid;
    if !creates {
      return false;
    }
    ok := WritePackage(out, ctx, image, disk, typ, s, rs, laid);
  }

  method LayOutImage(image: PfsImage, ghost s: Shape, ghost rs: seq<Rec>) returns (pfsSize: nat)
    requires image.root == s.node && Linked(Pre(s)) && Distinct(Pre(s)) && rs == Snaps(Pre(s))
    requires 0 < image.blockSize < TWO64 && LayoutFits(rs, image.blockSize)
    modifies image`inodeCount, image`blockCount, image`dataOffset, Nodes(Pre(s))`offset
    ensures Linked(Pre(s)) && Snaps(Pre(s)) == LaidOut(rs, image.blockSize)
    ensures Configured(image, rs)
    ensures pfsSize == CalculatedSize(|rs|, TotalBlocks(rs, image.blockSize), image.blockSize)
  {
    ghost var tree, laid := Pre(s), LaidOut(rs, image.blockSize);
    image.Build(s, rs);
    LaidOutFits(rs, image.blockSize);
    assert Linked(tree) && Snaps(tree) == laid;
    pfsSize := image.CalculateSize(s, laid);
    assert Linked(tree) && Snaps(tree) == laid;
  }

  /** Counts and data offset of a laid-out image. */
  ghost predicate Configured(image: PfsImage, rs: seq<Rec>)
    reads image
  {
    && 0 < image.blockSize < TWO64
    && LayoutFits(LaidOut(rs, image.blockSize), image.blockSize)
    && image.inodeCount == |rs|
    && image.blockCount == TotalBlocks(rs, image.blockSize)
    && image.blockCount == TotalBlocks(LaidOut(rs, image.blockSize), image.blockSize)
    && image.dataOffset == DataOffset(|rs|, TotalBlocks(rs, image.blockSize), image.blockSize)
  }

  /** The writing part of pkg_build. */
  method WritePackage(out: OutFile, ctx: PkgContext, image: PfsImage, disk: Disk, typ: nat,
                      ghost s: Shape, ghost rs: seq<Rec>, ghost laid: seq<Rec>)
    returns (ok: bool)
    requires ctx.Valid() && ctx.hdr == FirstHeader(typ) && ctx.Listed() == PKG_ENTRIES
    requires out.data == [] && out.pos == 0
    requires image.root == s.node && Linked(Pre(s)) && laid == Snaps(Pre(s))
    requires Configured(image, rs) && laid == LaidOut(rs, image.blockSize) && AllSourced(rs)
    modifies out, ctx`hdr
    ensures ok <==> AllCopyable(laid, disk)
    ensures ok ==> out.data == Package(typ, image.id, rs, image.blockSize, disk)
  {
    ok := WriteBody(out, ctx, image, disk, typ, s, rs, laid);
    if ok {
      FinishHeader(out, ctx, typ);
    }
  }

  /** Header, padding and image; the final position is the end of the data area. */
  method WriteBody(out: OutFile, ctx: PkgContext, image: PfsImage, disk: Disk, typ: nat,
                   ghost s: Shape, ghost rs: seq<Rec>, ghost laid: seq<Rec>)
    returns (ok: bool)
    requires ctx.Valid() && ctx.hdr == FirstHeader(typ) && ctx.Listed() == PKG_ENTRIES
    requires out.data == [] && out.pos == 0
    requires image.root == s.node && Linked(Pre(s)) && laid == Snaps(Pre(s))
    requires Configured(image, rs) && laid == LaidOut(rs, image.blockSize) && AllSourced(rs)
    modifies out
    ensures ok <==> AllCopyable(laid, disk)
    ensures ok ==> out.data == Body(typ, image.id, rs, image.blockSize, disk) && out.pos == PkgSize(rs, image.blockSize)
  {
    ghost var tree := Pre(s);
    assert Linked(tree) && Snaps(tree) == laid;
    StartPackage(out, ctx, typ);
    assert Linked(tree) && Snaps(tree) == laid;
    ok := image.Write(out, disk, s, laid);
    PosAfterEnd(image.dataOffset, rs, image.dataOffset, image.blockSize);
  }

  method StartPackage(out: OutFile, ctx: PkgContext, typ: nat)
    requires ctx.Valid() && ctx.hdr == FirstHeader(typ) && ctx.Listed() == PKG_ENTRIES
    requires out.data == [] && out.pos == 0
    modifies out
    ensures out.data == WithHeader([], 0, FirstHeader(typ), PKG_ENTRIES) && out.pos == BODY_OFFSET
  {
    ctx.WriteHeader(out);
    out.Seek(ctx.hdr.bodyOffset);
  }

  /** The end of pkg_build: record the final position as size, rewrite the header. */
  method FinishHeader(out: OutFile, ctx: PkgContext, typ: nat)
    requires ctx.Valid() && ctx.hdr == FirstHeader(typ) && ctx.Listed() == PKG_ENTRIES
    modifies out, ctx`hdr
    ensures out.data == WithHeader(old(out.data), 0, FinalHeader(typ, old(out.pos)), PKG_ENTRIES)
  {
    var finalSize := out.pos;
    ctx.hdr := ctx.hdr.(pkgSize := finalSize);
    ctx.hdr := ctx.hdr.(dataSize := (finalSize - PKG_HEADER_SIZE) % TWO64);
    out.Seek(0);
    ctx.WriteHeader(out);
  }

  // ----- reading the package back -----

  /** With the block size that every caller uses, the data area starts behind the header. */
  lemma {:induction false} DefaultBlocksClear(rs: seq<Rec>)
    ensures BODY_OFFSET <= DataOffset(|rs|, TotalBlocks(rs, DEFAULT_BLOCK_SIZE), DEFAULT_BLOCK_SIZE)
  {
    DataOffsetPositive(|rs|, TotalBlocks(rs, DEFAULT_BLOCK_SIZE));
  }

  lemma {:induction false} DataOffsetPositive(n: nat, blocks: nat)
    ensures DataOffset(n, blocks, DEFAULT_BLOCK_SIZE) >= DEFAULT_BLOCK_SIZE
  {
    DefaultIsPow2();
    AlignedInBlocks(MetadataSize(n, blocks, DEFAULT_BLOCK_SIZE), DEFAULT_BLOCK_SIZE);
  }

  lemma {:induction false} WithHeaderKeeps(data: Bytes, h: Header, lo: nat, b: Bytes)
    requires h.entryTableOffset == PKG_HEADER_SIZE && Holds(data, lo, b) && BODY_OFFSET <= lo
    ensures Holds(WithHeader(data, 0, h, PKG_ENTRIES), lo, b)
  {
    HeaderFieldHolds(h, 0);
    WriteKeeps(data, 0, HeaderBytes(h), lo, b);
    WriteKeeps(WriteAt(data, 0, HeaderBytes(h)), PKG_HEADER_SIZE, EntryTable(PKG_ENTRIES), lo, b);
  }

  /** The final rewrite puts this byte at `x`, if it covers `x`: the header, and behind a
      gap of 160 bytes the entry table. */
  function Rewritten(h: Header, x: nat): Option<Byte> {
    HeaderFieldHolds(h, 0);
    PackageEntries();
    if x < PKG_HEADER_BYTES then Some(HeaderBytes(h)[x])
    else if PKG_HEADER_SIZE <= x < BODY_OFFSET then Some(EntryTable(PKG_ENTRIES)[x - PKG_HEADER_SIZE])
    else None
  }

  /** The bytes at `lo` are those of the final rewrite, wherever it covers them. */
  predicate AgreesWithHeader(h: Header, lo: nat, b: Bytes) {
    forall i: nat :: i < |b| && Rewritten(h, lo + i).Some? ==> Rewritten(h, lo + i).value == b[i]
  }

  lemma {:induction false} WithHeaderByte(data: Bytes, h: Header, x: nat)
    requires h.entryTableOffset == PKG_HEADER_SIZE
    ensures var d := WithHeader(data, 0, h, PKG_ENTRIES);
            && |d| == Max(|data|, BODY_OFFSET)
            && (Rewritten(h, x).Some? ==> d[x] == Rewritten(h, x).value)
            && (x < |data| && Rewritten(h, x).None? ==> d[x] == data[x])
  {
    HeaderFieldHolds(h, 0);
    PackageEntries();
    var mid := WriteAt(data, 0, HeaderBytes(h));
    if x < Max(|data|, PKG_HEADER_BYTES) { WriteAtByte(data, 0, HeaderBytes(h), x); }
    WriteAtLength(data, 0, HeaderBytes(h));
    WriteAtLength(mid, PKG_HEADER_SIZE, EntryTable(PKG_ENTRIES));
    if x < Max(|mid|, BODY_OFFSET) { WriteAtByte(mid, PKG_HEADER_SIZE, EntryTable(PKG_ENTRIES), x); }
  }

  /** Bytes of the file survive the final rewrite exactly when they agree with it. */
  lemma {:induction false} RewriteKeeps(data: Bytes, h: Header, lo: nat, b: Bytes)
    requires h.entryTableOffset == PKG_HEADER_SIZE && Holds(data, lo, b)
    ensures Holds(WithHeader(data, 0, h, PKG_ENTRIES), lo, b) <==> AgreesWithHeader(h, lo, b)
  {
    var d := WithHeader(data, 0, h, PKG_ENTRIES);
    WithHeaderByte(data, h, 0);
    forall i: nat | i < |b|
      ensures d[lo + i] == if Rewritten(h, lo + i).Some? then Rewritten(h, lo + i).value else b[i]
    {
      WithHeaderByte(data, h, lo + i);
      HoldsByte(data, lo, b, i);
    }
    if Holds(d, lo, b) {
      forall i: nat | i < |b| ensures d[lo + i] == b[i] { HoldsByte(d, lo, b, i); }
    }
    if AgreesWithHeader(h, lo, b) { assert d[lo..lo + |b|] == b; }
  }

  /** For every block size, a non-empty file is in the finished package at the offset that
      its inode records, padded with zeros to its extent, exactly when the final rewrite
      of header and entry table does not put something else there. It does not when the
      extent is behind them. */
  lemma {:induction false} PackageFileReadsBack(typ: nat, id: nat, rs: seq<Rec>, bs: nat, disk: Disk, k: nat)
    requires bs > 0 && AllCopyable(LaidOut(rs, bs), disk) && k < |rs| && rs[k].Streamed()
    ensures var r, h := LaidOut(rs, bs)[k], FinalHeader(typ, PkgSize(rs, bs));
            && r.Streamed() && r == rs[k].(offset := r.offset)
            && DataOffset(|rs|, TotalBlocks(rs, bs), bs) <= r.offset
            && (Holds(Package(typ, id, rs, bs, disk), r.offset, Payload(r, bs, disk))
                <==> AgreesWithHeader(h, r.offset, Payload(r, bs, disk)))
            && (BODY_OFFSET <= r.offset ==> AgreesWithHeader(h, r.offset, Payload(r, bs, disk)))
  {
    var base := DataOffset(|rs|, TotalBlocks(rs, bs), bs);
    var r := LaidOut(rs, bs)[k];
    ExtentBounds(rs, base, bs, k);
    FileReadsBack(WithHeader([], 0, FirstHeader(typ), PKG_ENTRIES), BODY_OFFSET, id, rs, bs, disk, k);
    RewriteKeeps(Body(typ, id, rs, bs, disk), FinalHeader(typ, PkgSize(rs, bs)), r.offset, Payload(r, bs, disk));
  }

  lemma {:induction false} HeaderIsZero(h: Header, i: nat)
    requires 0x60 <= i < PKG_HEADER_BYTES
    ensures |HeaderBytes(h)| == PKG_HEADER_BYTES && HeaderBytes(h)[i] == 0
  {
    var fs := HeaderFields(h);
    HeaderFieldHolds(h, 0);
    assert Zeros(PKG_HEADER_BYTES)[i..i + 1] == [0];
    assert fs[0..] == fs;
    StoreKeepsBehind(Zeros(PKG_HEADER_BYTES), fs, 0x60, i, [0], 0);
    assert HeaderBytes(h)[i] == HeaderBytes(h)[i..i + 1][0];
  }

  /** With blocks of 4096 bytes a package of one one-byte file loses it, unless the byte is
      zero: the extent lies where the header has zeros. */
  lemma {:induction false} SmallBlocksLoseFile(typ: nat, id: nat, rs: seq<Rec>, disk: Disk)
    requires |rs| == 2 && !rs[0].HasData() && rs[1].Streamed() && rs[1].size == 1
    requires AllCopyable(LaidOut(rs, 4096), disk)
    requires var p := rs[1].src.value; p in disk && disk[p] != []
    ensures var r := LaidOut(rs, 4096)[1];
            && r.offset == 4096 && r.Streamed()
            && (Holds(Package(typ, id, rs, 4096, disk), 4096, Payload(r, 4096, disk))
                <==> disk[rs[1].src.value][0] == 0)
  {
    OneFileLayout(rs);
    var r, v := LaidOut(rs, 4096)[1], disk[rs[1].src.value][0];
    PackageFileReadsBack(typ, id, rs, 4096, disk, 1);
    assert disk[rs[1].src.value][..1] == [v];
    assert Payload(r, 4096, disk) == [v] + Zeros(4095);
    InZeros(FinalHeader(typ, PkgSize(rs, 4096)), v, 4095);
  }

  /** The header is zero from 4096 to 8192. */
  lemma {:induction false} InZeros(h: Header, v: Byte, n: nat)
    requires n < 4096
    ensures AgreesWithHeader(h, 4096, [v] + Zeros(n)) <==> v == 0
  {
    forall x: nat | 4096 <= x < 8192 ensures Rewritten(h, x) == Some(0) {
      HeaderIsZero(h, x);
    }
    assert ([v] + Zeros(n))[0] == v && Rewritten(h, 4096 + 0) == Some(0);
  }

  lemma {:induction false} OneFileLayout(rs: seq<Rec>)
    requires |rs| == 2 && !rs[0].HasData() && rs[1].HasData() && rs[1].size == 1
    ensures LaidOut(rs, 4096)[1] == rs[1].(offset := 4096) && Aligned(1, 4096) == 4096
  {
    Pow2Small();
    Pow2Sum(4, 8);
    assert IsPow2(4096);
    Pow2Rounds(1, 4096);
    Pow2Rounds(1536, 4096);
    AlignedZero(4096);
    var later := rs[1..];
    assert |later[1..]| == 0 && later[0] == rs[1];
    assert TotalBlocks(later, 4096) == Blocks(rs[1], 4096) + TotalBlocks(later[1..], 4096);
    assert Aligned(1, 4096) == 4096 && WholeBlocks(4096, 4096) == 1;
    assert TotalBlocks(rs, 4096) == 1;
    assert DataOffset(2, 1, 4096) == 4096;
    AssignAt(rs, 4096, 4096, 1);
    assert TotalSpan(rs[..1], 4096) == 0;
  }

  /** A reader of a package: the header at the start, checked for its magic. */
  function ReadHeader(pkg: Bytes): Option<Header> {
    if |pkg| < PKG_HEADER_BYTES then None
    else
      var b := pkg[..PKG_HEADER_BYTES];
      if Value(b[0..4]) == PKG_MAGIC then Some(DecodeHeader(b)) else None
  }

  /** ... and the entry table where the header says it is. */
  function ReadEntries(pkg: Bytes, h: Header): Option<seq<Entry>> {
    var end := h.entryTableOffset + ENTRY_SIZE * h.entryCount;
    if end <= |pkg| then Some(DecodeEntries(pkg[h.entryTableOffset..end])) else None
  }

  lemma {:induction false} HeaderReads(pkg: Bytes, h: Header)
    requires HeaderInWidth(h) && Holds(pkg, 0, HeaderBytes(h))
    ensures ReadHeader(pkg) == Some(h)
  {
    HeaderRoundTrip(h);
    assert pkg[..PKG_HEADER_BYTES] == HeaderBytes(h);
  }

  lemma {:induction false} EntriesRead(pkg: Bytes, h: Header, es: seq<Entry>)
    requires h.entryCount == |es| && Holds(pkg, h.entryTableOffset, EntryTable(es))
    requires AllInWidth(es)
    ensures ReadEntries(pkg, h) == Some(es)
  {
    EntryTableRoundTrip(es);
  }

  /** Header and entry table read back from the finished package, and the header's
      size field is the end of the data area. */
  lemma {:induction false} PackageHeaderReadsBack(typ: nat, id: nat, rs: seq<Rec>, bs: nat, disk: Disk)
    requires bs > 0 && AllCopyable(LaidOut(rs, bs), disk) && typ < TWO32 && PkgSize(rs, bs) < TWO64
    ensures var pkg, h := Package(typ, id, rs, bs, disk), FinalHeader(typ, PkgSize(rs, bs));
            && ReadHeader(pkg) == Some(h) && ReadEntries(pkg, h) == Some(PKG_ENTRIES)
            && h.pkgSize == DataOffset(|rs|, TotalBlocks(rs, bs), bs) + TotalSpan(rs, bs)
  {
    var pkg, h := Package(typ, id, rs, bs, disk), FinalHeader(typ, PkgSize(rs, bs));
    HeaderHolds(Body(typ, id, rs, bs, disk), h);
    assert ReadHeader(pkg) == Some(h) by { HeaderReads(pkg, h); }
    assert ReadEntries(pkg, h) == Some(PKG_ENTRIES) by {
      PackageEntries();
      EntriesRead(pkg, h, PKG_ENTRIES);
    }
  }

  lemma {:induction false} PackageEntries()
    ensures |PKG_ENTRIES| == 4 && AllInWidth(PKG_ENTRIES)
    ensures |EntryTable(PKG_ENTRIES)| == BODY_OFFSET - PKG_HEADER_SIZE
  {
  }

  // ----- size of the package -----

  /** End of the embedded inode table, which is written behind the package header. */
  function TableEnd(inodes: nat): nat {
    BODY_OFFSET + PFS_HEADER_SIZE + INODE_SIZE * inodes
  }

  lemma {:induction false} WithHeaderLength(data: Bytes, h: Header)
    requires h.entryTableOffset == PKG_HEADER_SIZE
    ensures |WithHeader(data, 0, h, PKG_ENTRIES)| == Max(|data|, BODY_OFFSET)
  {
    PackageEntries();
    HeaderFieldHolds(h, 0);
    WriteAtLength(data, 0, HeaderBytes(h));
    WriteAtLength(WriteAt(data, 0, HeaderBytes(h)), PKG_HEADER_SIZE, EntryTable(PKG_ENTRIES));
  }

  /** Length of the finished file. */
  lemma {:induction false} PackageLength(typ: nat, id: nat, rs: seq<Rec>, bs: nat, disk: Disk)
    requires bs > 0 && AllCopyable(LaidOut(rs, bs), disk) && AllSourced(rs)
    ensures var n, blocks := |rs|, TotalBlocks(rs, bs);
            |Package(typ, id, rs, bs, disk)| ==
            Grown(Max(TableEnd(n), if BitmapSize(blocks, bs) > 0 then MetadataSize(n, blocks, bs) else 0),
                  DataOffset(n, blocks, bs), TotalSpan(rs, bs))
  {
    var n, blocks, out := |rs|, TotalBlocks(rs, bs), LaidOut(rs, bs);
    var base := DataOffset(n, blocks, bs);
    var start := WithHeader([], 0, FirstHeader(typ), PKG_ENTRIES);
    WithHeaderLength([], FirstHeader(typ));
    AssignKeepsTotals(rs, base, bs);
    EmbeddedLength(start, id, out, bs);
    PutDataLength(MetadataBytes(start, BODY_OFFSET, id, out, bs), rs, base, bs, disk);
    WithHeaderLength(Body(typ, id, rs, bs, disk), FinalHeader(typ, PkgSize(rs, bs)));
  }

  lemma {:induction false} EmbeddedLength(data: Bytes, id: nat, rs: seq<Rec>, bs: nat)
    requires bs > 0 && |data| == BODY_OFFSET
    ensures var n, blocks := |rs|, TotalBlocks(rs, bs);
            |MetadataBytes(data, BODY_OFFSET, id, rs, bs)| ==
            Max(TableEnd(n), if BitmapSize(blocks, bs) > 0 then MetadataSize(n, blocks, bs) else 0)
  {
    var n, blocks := |rs|, TotalBlocks(rs, bs);
    var d1 := WriteAt(data, BODY_OFFSET, PfsHeader(id));
    var d2 := WriteAt(d1, BODY_OFFSET + PFS_HEADER_SIZE, Table(rs));
    TableLength(rs);
    WriteAtLength(data, BODY_OFFSET, PfsHeader(id));
    WriteAtLength(d1, BODY_OFFSET + PFS_HEADER_SIZE, Table(rs));
    WriteAtLength(d2, PFS_HEADER_SIZE + INODE_SIZE * n, BitmapBytes(blocks, bs));
  }

  /** The recorded package size is the length of the file exactly when there is
      file data. Without any, the final seek is not followed by a write. */
  lemma {:induction false} PackageSizeIsLength(typ: nat, id: nat, rs: seq<Rec>, disk: Disk)
    requires rs != [] && AllCopyable(LaidOut(rs, DEFAULT_BLOCK_SIZE), disk) && AllSourced(rs)
    ensures FinalHeader(typ, PkgSize(rs, DEFAULT_BLOCK_SIZE)).pkgSize
            == |Package(typ, id, rs, DEFAULT_BLOCK_SIZE, disk)|
            <==> TotalBlocks(rs, DEFAULT_BLOCK_SIZE) > 0
  {
    var n, blocks := |rs|, TotalBlocks(rs, DEFAULT_BLOCK_SIZE);
    PackageLength(typ, id, rs, DEFAULT_BLOCK_SIZE, disk);
    DefaultIsPow2();
    SpanIsBlocks(rs, DEFAULT_BLOCK_SIZE);
    if blocks == 0 { LengthWithoutData(n); }
    SizeIsLength(n, blocks, BitmapSize(blocks, DEFAULT_BLOCK_SIZE), DataOffset(n, blocks, DEFAULT_BLOCK_SIZE),
                 TotalSpan(rs, DEFAULT_BLOCK_SIZE));
  }

  lemma {:induction false} SizeIsLength(n: nat, blocks: nat, bitmap: nat, base: nat, span: nat)
    requires span == blocks * DEFAULT_BLOCK_SIZE && PFS_HEADER_SIZE + INODE_SIZE * n + bitmap <= base
    requires blocks == 0 ==> bitmap == 0 && TableEnd(n) != base
    ensures var end := Max(TableEnd(n), if bitmap > 0 then PFS_HEADER_SIZE + INODE_SIZE * n + bitmap else 0);
            base + span == Grown(end, base, span) <==> blocks > 0
  {
  }

  lemma {:induction false} DefaultIsPow2()
    ensures IsPow2(DEFAULT_BLOCK_SIZE)
  {
    Pow2Small();
  }

  /** Without data the file ends 64 bytes past a multiple of 256, the recorded size
      is a multiple of the block size. */
  lemma {:induction false} LengthWithoutData(n: nat)
    ensures BitmapSize(0, DEFAULT_BLOCK_SIZE) == 0
    ensures TableEnd(n) != DataOffset(n, 0, DEFAULT_BLOCK_SIZE)
  {
    DefaultIsPow2();
    AlignedFixes(0, DEFAULT_BLOCK_SIZE);
    var v := DataOffset(n, 0, DEFAULT_BLOCK_SIZE);
    AlignedInBlocks(MetadataSize(n, 0, DEFAULT_BLOCK_SIZE), DEFAULT_BLOCK_SIZE);
    NotAligned(n, v / DEFAULT_BLOCK_SIZE);
  }

  lemma {:induction false} NotAligned(n: nat, q: nat)
    ensures TableEnd(n) != q * DEFAULT_BLOCK_SIZE
  {
    assert q * DEFAULT_BLOCK_SIZE == 256 * (256 * q);
    assert TableEnd(n) == 256 * (68 + n) + 64;
  }

  lemma {:induction false} HeaderHolds(data: Bytes, h: Header)
    requires h.entryTableOffset == PKG_HEADER_SIZE
    ensures var d := WithHeader(data, 0, h, PKG_ENTRIES);
            Holds(d, 0, HeaderBytes(h)) && Holds(d, PKG_HEADER_SIZE, EntryTable(PKG_ENTRIES))
  {
    HeaderFieldHolds(h, 0);
    var d := WriteAt(data, 0, HeaderBytes(h));
    WriteHolds(data, 0, HeaderBytes(h));
    WriteKeeps(d, PKG_HEADER_SIZE, EntryTable(PKG_ENTRIES), 0, HeaderBytes(h));
    WriteHolds(d, PKG_HEADER_SIZE, EntryTable(PKG_ENTRIES));
  }
}
