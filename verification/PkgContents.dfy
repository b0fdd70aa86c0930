/**
 * A finished package and an image inside it, read word by word and byte by byte: the
 * numbers of the header and the entry table, the image header, the bytes of an inode
 * record and of the bitmap, and the data of every file that the scan reaches.
 */
module PkgContents {
  import opened Words
  import opened ByteFile
  import opened RawBytes
  import opened PfsLayout
  import opened PfsTree
  import opened PfsScan
  import opened PfsBuilder
  import opened PfsImage
  import opened PkgBuilder
  import opened PfsEntries

  // ----- bytes outside all fields -----

  predicate OutsideFields(fs: seq<Field>, x: nat) {
    forall k: nat :: k < |fs| ==> x < fs[k].at || fs[k].at + |fs[k].bytes| <= x
  }

  /** Storing fields changes no other byte. */
  lemma {:induction false} StoreKeepsOutside(data: Bytes, fs: seq<Field>, x: nat, k: nat)
    requires FieldsFit(fs, |data|) && x < |data| && OutsideFields(fs, x) && k <= |fs|
    ensures |Store(data, fs[k..])| == |data| && Store(data, fs[k..])[x] == data[x]
    decreases |fs| - k
  {
    if k == |fs| {
      assert fs[k..] == [];
    } else {
      StoreStep(data, fs, k);
      var next := WriteAt(data, fs[k].at, fs[k].bytes);
      FieldInside(fs, |data|, k);
      assert FieldFits(fs, |data|, k);
      WriteAtByte(data, fs[k].at, fs[k].bytes, x);
      StoreKeepsOutside(next, fs, x, k + 1);
    }
  }

  // ----- the package header -----

  /** The words of the package header. */
  predicate PackageHeaderIs(pkg: Bytes, typ: nat, dataSize: nat, pkgSize: nat) {
    && |pkg| >= 0x4040
    && U32(pkg, 0) == 0x7F434E54 && U32(pkg, 4) == typ && U32(pkg, 8) == 0x4000 && U64(pkg, 0x10) == 0x4000
    && U64(pkg, 0x18) == dataSize && U64(pkg, 0x20) == pkgSize
    && U32(pkg, 0x44) == 4 && U16(pkg, 0x48) == 4 && U16(pkg, 0x4A) == 64
    && U64(pkg, 0x50) == 0x4000 && U64(pkg, 0x58) == 0x4040
  }

  predicate InHeaderWord(x: nat) {
    x < 0x0C || 0x10 <= x < 0x28 || 0x44 <= x < 0x4C || 0x50 <= x < 0x60
  }

  predicate EntryStands(pkg: Bytes, at: nat, id: nat, size: nat) {
    && at + 16 <= |pkg| && U32(pkg, at) == id && U32(pkg, at + 4) == 0 && U32(pkg, at + 8) == size
    && U32(pkg, at + 12) == 0
  }

  lemma {:induction false} HeaderWord(pkg: Bytes, h: Header, k: nat)
    requires Holds(pkg, 0, HeaderBytes(h)) && k < 11
    ensures Holds(pkg, HeaderField(h, k).at, HeaderField(h, k).bytes)
  {
    var f := HeaderField(h, k);
    HeaderFieldHolds(h, k);
    Within(pkg, 0, HeaderBytes(h), f.at, f.bytes);
  }

  lemma {:induction false} Within(data: Bytes, lo: nat, b: Bytes, at: nat, part: Bytes)
    requires Holds(data, lo, b) && Holds(b, at, part)
    ensures Holds(data, lo + at, part)
  {
    forall i: nat | i < |part| ensures data[lo + at + i] == part[i] {
      HoldsByte(b, at, part, i);
      HoldsByte(data, lo, b, at + i);
    }
    assert data[lo + at..lo + at + |part|] == part;
  }

  lemma {:induction false} HeaderWords(pkg: Bytes, h: Header)
    requires Holds(pkg, 0, HeaderBytes(h)) && HeaderInWidth(h) && |pkg| >= 0x4040
    requires h.entryCount == h.entryCount2 == 4 && h.entryTableSize == 64
    requires h.entryTableOffset == 0x4000 && h.bodyOffset == 0x4040
    ensures PackageHeaderIs(pkg, h.typ, h.dataSize, h.pkgSize)
  {
    FirstWords(pkg, h);
    HeaderWord(pkg, h, 4); ReadsU64(pkg, 0x18, h.dataSize);
    HeaderWord(pkg, h, 5); ReadsU64(pkg, 0x20, h.pkgSize);
    HeaderWord(pkg, h, 6); ReadsU32(pkg, 0x44, h.entryCount);
    HeaderWord(pkg, h, 7); ReadsU16(pkg, 0x48, h.entryCount2);
    HeaderWord(pkg, h, 8); ReadsU16(pkg, 0x4A, h.entryTableSize);
    HeaderWord(pkg, h, 9); ReadsU64(pkg, 0x50, h.entryTableOffset);
    HeaderWord(pkg, h, 10); ReadsU64(pkg, 0x58, h.bodyOffset);
  }

  lemma {:induction false} FirstWords(pkg: Bytes, h: Header)
    requires Holds(pkg, 0, HeaderBytes(h)) && h.typ < TWO32 && |pkg| >= 0x4040
    ensures U32(pkg, 0) == 0x7F434E54 && U32(pkg, 4) == h.typ && U32(pkg, 8) == 0x4000 && U64(pkg, 0x10) == 0x4000
  {
    HeaderWord(pkg, h, 0); ReadsU32(pkg, 0, PKG_MAGIC);
    HeaderWord(pkg, h, 1); ReadsU32(pkg, 4, h.typ);
    HeaderWord(pkg, h, 2); ReadsU32(pkg, 8, PKG_HEADER_SIZE);
    HeaderWord(pkg, h, 3); ReadsU64(pkg, 0x10, PKG_HEADER_SIZE);
  }

  lemma {:induction false} OutsideWords(h: Header, x: nat)
    requires x < PKG_HEADER_BYTES && !InHeaderWord(x)
    ensures |HeaderBytes(h)| == PKG_HEADER_BYTES && HeaderBytes(h)[x] == 0
  {
    var fs := HeaderFields(h);
    HeaderFieldsFit(h);
    forall k: nat | k < |fs| ensures x < fs[k].at || fs[k].at + |fs[k].bytes| <= x {
      assert fs[k] == HeaderField(h, k);
    }
    StoreKeepsOutside(Zeros(PKG_HEADER_BYTES), fs, x, 0);
    assert fs[0..] == fs;
  }

  /** The words of a finished package, with zeros between and behind those of the header,
      and its four entries, none of them with an offset. */
  predicate PackageIs(pkg: Bytes, typ: nat, dataSize: nat, pkgSize: nat) {
    && PackageHeaderIs(pkg, typ, dataSize, pkgSize)
    && (forall x: nat :: x < 0x3F60 && !InHeaderWord(x) ==> pkg[x] == 0)
    && EntryStands(pkg, 0x4000, 0x4000, 116) && EntryStands(pkg, 0x4010, 0x4204, 4)
    && EntryStands(pkg, 0x4020, 0x4220, 8) && EntryStands(pkg, 0x4030, 0x4203, 8)
  }

  /** The size in the header is the end of the data area; the size of the data is 0x4000
      less, in 64 bits. */
  lemma {:induction false} PackageWords(typ: nat, id: nat, rs: seq<Rec>, bs: nat, disk: Disk)
    requires bs > 0 && AllCopyable(LaidOut(rs, bs), disk) && typ < TWO32 && DataEnd(rs, bs) < TWO64
    ensures var size := DataEnd(rs, bs);
            PackageIs(Package(typ, id, rs, bs, disk), typ,
                      if size >= 0x4000 then size - 0x4000 else TWO64 + size - 0x4000, size)
  {
    HeaderHolds(Body(typ, id, rs, bs, disk), FinalHeader(typ, DataEnd(rs, bs)));
    PackageEntries();
    HeldWords(Package(typ, id, rs, bs, disk), typ, DataEnd(rs, bs));
  }

  lemma {:induction false} HeldWords(pkg: Bytes, typ: nat, size: nat)
    requires typ < TWO32 && size < TWO64 && |pkg| >= 0x4040
    requires Holds(pkg, 0, HeaderBytes(FinalHeader(typ, size))) && Holds(pkg, 0x4000, EntryTable(PKG_ENTRIES))
    ensures PackageIs(pkg, typ, if size >= 0x4000 then size - 0x4000 else TWO64 + size - 0x4000, size)
  {
    var h := FinalHeader(typ, size);
    DataSizeWraps(size);
    HeaderWords(pkg, h);
    forall x: nat | x < 0x3F60 && !InHeaderWord(x) ensures pkg[x] == 0 {
      OutsideWords(h, x);
      HoldsByte(pkg, 0, HeaderBytes(h), x);
    }
    TableWords(pkg);
  }

  lemma {:induction false} DataSizeWraps(size: nat)
    requires size < TWO64
    ensures (size - 0x4000) % TWO64 == if size >= 0x4000 then size - 0x4000 else TWO64 + size - 0x4000
  {
  }

  lemma {:induction false} TableWords(pkg: Bytes)
    requires Holds(pkg, 0x4000, EntryTable(PKG_ENTRIES))
    ensures EntryStands(pkg, 0x4000, 0x4000, 116) && EntryStands(pkg, 0x4010, 0x4204, 4)
    ensures EntryStands(pkg, 0x4020, 0x4220, 8) && EntryStands(pkg, 0x4030, 0x4203, 8)
  {
    EntryAt(pkg, 0x4000, PKG_ENTRIES, 0);
    EntryAt(pkg, 0x4000, PKG_ENTRIES, 1);
    EntryAt(pkg, 0x4000, PKG_ENTRIES, 2);
    EntryAt(pkg, 0x4000, PKG_ENTRIES, 3);
  }

  lemma {:induction false} EntryAt(pkg: Bytes, at: nat, es: seq<Entry>, k: nat)
    requires Holds(pkg, at, EntryTable(es)) && k < |es| && EntryInWidth(es[k]) && es[k].offset == es[k].flags == 0
    ensures EntryStands(pkg, at + 16 * k, es[k].id, es[k].size)
    decreases |es|
  {
    HoldsPart(pkg, at, EntryBytes(es[0]), EntryTable(es[1..]));
    if k == 0 {
      EntryWords(pkg, at, es[0]);
    } else {
      EntryAt(pkg, at + 16, es[1..], k - 1);
    }
  }

  lemma {:induction false} EntryWords(pkg: Bytes, at: nat, e: Entry)
    requires Holds(pkg, at, EntryBytes(e)) && EntryInWidth(e) && e.offset == e.flags == 0
    ensures EntryStands(pkg, at, e.id, e.size)
  {
    HoldsPart(pkg, at, LE(e.id, 4) + LE(e.offset, 4) + LE(e.size, 4), LE(e.flags, 4));
    HoldsPart(pkg, at, LE(e.id, 4) + LE(e.offset, 4), LE(e.size, 4));
    HoldsPart(pkg, at, LE(e.id, 4), LE(e.offset, 4));
    ReadsU32(pkg, at, e.id);
    ReadsU32(pkg, at + 4, e.offset);
    ReadsU32(pkg, at + 8, e.size);
    ReadsU32(pkg, at + 12, e.flags);
  }

  // ----- the image header, the inode record and the bitmap -----

  /** Version 1, the magic, the creation time, mode 1, and zeros up to 1024 bytes. */
  predicate ImageHeaderIs(b: Bytes, at: nat, id: nat) {
    && at + 0x400 <= |b| && U64(b, at) == 1 && U64(b, at + 8) == 0x20534650 && U64(b, at + 16) == id
    && U64(b, at + 24) == 1 && forall x: nat :: at + 32 <= x < at + 0x400 ==> b[x] == 0
  }

  lemma {:induction false} ImageHeaderWords(b: Bytes, at: nat, id: nat)
    requires Holds(b, at, PfsHeader(id)) && id < TWO64
    ensures ImageHeaderIs(b, at, id)
  {
    var words, zeros := FourWords(PFS_VERSION, PFS_MAGIC, id, 1), Zeros(PFS_HEADER_SIZE - 32);
    HeaderSplits(id);
    HoldsPart(b, at, words, zeros);
    ReadsFour(b, at, PFS_VERSION, PFS_MAGIC, id, 1);
    ZerosStand(b, at + 32, PFS_HEADER_SIZE - 32);
  }

  lemma {:induction false} HeaderSplits(id: nat)
    ensures PfsHeader(id) == FourWords(PFS_VERSION, PFS_MAGIC, id, 1) + Zeros(PFS_HEADER_SIZE - 32)
  {
  }

  lemma {:induction false} ZerosStand(b: Bytes, at: nat, n: nat)
    requires Holds(b, at, Zeros(n))
    ensures at + n <= |b| && forall x: nat :: at <= x < at + n ==> b[x] == 0
  {
    forall x: nat | at <= x < at + n ensures b[x] == 0 {
      HoldsByte(b, at, Zeros(n), x - at);
    }
  }

  function FourWords(u: nat, v: nat, w: nat, x: nat): (b: Bytes)
    ensures |b| == 32
  {
    LE(u, 8) + LE(v, 8) + LE(w, 8) + LE(x, 8)
  }

  lemma {:induction false} ReadsFour(b: Bytes, at: nat, u: nat, v: nat, w: nat, x: nat)
    requires Holds(b, at, FourWords(u, v, w, x)) && u < TWO64 && v < TWO64 && w < TWO64 && x < TWO64
    ensures U64(b, at) == u && U64(b, at + 8) == v && U64(b, at + 16) == w && U64(b, at + 24) == x
  {
    HoldsPart(b, at, LE(u, 8) + LE(v, 8) + LE(w, 8), LE(x, 8));
    HoldsPart(b, at, LE(u, 8) + LE(v, 8), LE(w, 8));
    HoldsPart(b, at, LE(u, 8), LE(v, 8));
    ReadsU64(b, at, u);
    ReadsU64(b, at + 8, v);
    ReadsU64(b, at + 16, w);
    ReadsU64(b, at + 24, x);
  }

  /** Bytes of an inode record in no field: an alignment gap, and behind the name. */
  predicate Unused(i: nat) {
    12 <= i < 16 || 80 <= i
  }

  /** The words of an inode record, the name up to 32 bytes, and zeros everywhere else. */
  predicate InodeIs(b: Bytes, at: nat, r: Rec) {
    && at + 256 <= |b| && U32(b, at) == r.mode && U32(b, at + 4) == r.nlink && U32(b, at + 8) == r.flags
    && U64(b, at + 16) == r.size && U64(b, at + 24) == r.sizeCompressed && U64(b, at + 32) == r.offset
    && U64(b, at + 40) == r.ino
    && (forall x: nat :: at + 48 <= x < at + 80 ==>
          b[x] == if x - at - 48 < |r.name| then r.name[x - at - 48] else 0)
    && (forall x: nat :: at + 12 <= x < at + 256 && Unused(x - at) ==> b[x] == 0)
  }

  lemma {:induction false} InodeField(b: Bytes, at: nat, r: Rec, k: nat)
    requires Holds(b, at, InodeBytes(r)) && k < 8
    ensures var f := PfsBuilder.InodeField(r, k); Holds(b, at + f.at, f.bytes)
  {
    var f := PfsBuilder.InodeField(r, k);
    InodeFieldHolds(r, k);
    Within(b, at, InodeBytes(r), f.at, f.bytes);
  }

  lemma {:induction false} InodeWords(b: Bytes, at: nat, r: Rec)
    requires Holds(b, at, InodeBytes(r)) && InWidth(r)
    ensures InodeIs(b, at, r)
  {
    InodeFieldHolds(r, 0);
    FieldWords(b, at, r);
    NameWord(b, at, r);
    NameStands(b, at + 48, r.name);
    UnusedZero(b, at, r);
  }

  lemma {:induction false} FieldWords(b: Bytes, at: nat, r: Rec)
    requires Holds(b, at, InodeBytes(r)) && InWidth(r) && at + 256 <= |b|
    ensures U32(b, at) == r.mode && U32(b, at + 4) == r.nlink && U32(b, at + 8) == r.flags
    ensures U64(b, at + 16) == r.size && U64(b, at + 24) == r.sizeCompressed && U64(b, at + 32) == r.offset
    ensures U64(b, at + 40) == r.ino
  {
    InodeField(b, at, r, 0); ReadsU32(b, at, r.mode);
    InodeField(b, at, r, 1); ReadsU32(b, at + 4, r.nlink);
    InodeField(b, at, r, 2); ReadsU32(b, at + 8, r.flags);
    InodeField(b, at, r, 3); ReadsU64(b, at + 16, r.size);
    InodeField(b, at, r, 4); ReadsU64(b, at + 24, r.sizeCompressed);
    InodeField(b, at, r, 5); ReadsU64(b, at + 32, r.offset);
    InodeField(b, at, r, 6); ReadsU64(b, at + 40, r.ino);
  }

  lemma {:induction false} NameWord(b: Bytes, at: nat, r: Rec)
    requires Holds(b, at, InodeBytes(r))
    ensures Holds(b, at + 48, NameField(r.name))
  {
    InodeField(b, at, r, 7);
  }

  lemma {:induction false} NameStands(b: Bytes, at: nat, name: Bytes)
    requires Holds(b, at, NameField(name))
    ensures at + 32 <= |b|
    ensures forall x: nat :: at <= x < at + 32 ==> b[x] == if x - at < |name| then name[x - at] else 0
  {
    forall x: nat | at <= x < at + 32 ensures b[x] == if x - at < |name| then name[x - at] else 0 {
      HoldsByte(b, at, NameField(name), x - at);
    }
  }

  lemma {:induction false} UnusedZero(b: Bytes, at: nat, r: Rec)
    requires Holds(b, at, InodeBytes(r)) && at + 256 <= |b|
    ensures forall x: nat :: at + 12 <= x < at + 256 && Unused(x - at) ==> b[x] == 0
  {
    forall x: nat | at + 12 <= x < at + 256 && Unused(x - at) ensures b[x] == 0 {
      OutsideInode(r, x - at);
      HoldsByte(b, at, InodeBytes(r), x - at);
    }
  }

  lemma {:induction false} OutsideInode(r: Rec, x: nat)
    requires x < 256 && Unused(x)
    ensures |InodeBytes(r)| == INODE_SIZE && InodeBytes(r)[x] == 0
  {
    var fs := InodeFields(r);
    InodeFieldsFit(r);
    forall k: nat | k < |fs| ensures x < fs[k].at || fs[k].at + |fs[k].bytes| <= x {
      assert fs[k] == PfsBuilder.InodeField(r, k);
    }
    StoreKeepsOutside(Zeros(INODE_SIZE), fs, x, 0);
    assert fs[0..] == fs;
  }

  /** A byte of the bitmap is full exactly when the first of its eight blocks exists. */
  lemma {:induction false} BitmapBits(blocks: nat, bs: nat, i: nat)
    requires bs > 0 && i < BitmapSize(blocks, bs)
    ensures BitmapBytes(blocks, bs)[i] == if 8 * i < blocks then 0xFF else 0
  {
  }

  // ----- where the files are -----

  /** Up to the next multiple of 65536. */
  function Whole(n: nat): nat {
    n + 65535 - (n + 65535) % 65536
  }

  /** The room of the first `k` files, in whole blocks. */
  function Room(rs: seq<Rec>, k: nat): nat
    requires k <= |rs|
  {
    if k == 0 then 0
    else Room(rs, k - 1) + if rs[k - 1].kind == File && rs[k - 1].size > 0 then Whole(rs[k - 1].size) else 0
  }

  /** Behind the header, the inode table and a bitmap of one bit for each block. */
  function FirstByte(rs: seq<Rec>): nat {
    Whole(0x400 + 256 * |rs| + Whole(Room(rs, |rs|) / 65536 / 8))
  }

  lemma {:induction false} WholeIsAligned(n: nat)
    ensures Aligned(n, 65536) == Whole(n) && Whole(n) % 65536 == 0 && IsPow2(65536)
  {
    DefaultIsPow2();
    Pow2Rounds(n, 65536);
    RoundUpIsFloor(n, 65536);
    AlignedInBlocks(n, 65536);
  }

  lemma {:induction false} RoomIsSpan(rs: seq<Rec>, k: nat)
    requires k <= |rs|
    ensures TotalSpan(rs[..k], 65536) == Room(rs, k)
  {
    if k > 0 {
      RoomIsSpan(rs, k - 1);
      WholeIsAligned(rs[k - 1].size);
      assert rs[..k] == rs[..k - 1] + [rs[k - 1]] && [rs[k - 1]][1..] == [];
      TotalsConcat(rs[..k - 1], [rs[k - 1]], 65536);
      assert TotalSpan([rs[k - 1]], 65536) == Span(rs[k - 1], 65536) + TotalSpan([rs[k - 1]][1..], 65536);
    }
  }

  lemma {:induction false} StartIs(rs: seq<Rec>)
    ensures DataOffset(|rs|, TotalBlocks(rs, 65536), 65536) == FirstByte(rs)
    ensures DataEnd(rs, 65536) == FirstByte(rs) + Room(rs, |rs|)
  {
    var blocks := TotalBlocks(rs, 65536);
    RoomIsSpan(rs, |rs|);
    assert rs[..|rs|] == rs;
    WholeIsAligned(blocks / 8);
    WholeIsAligned(0x400 + 256 * |rs| + Whole(blocks / 8));
    SpanIsBlocks(rs, 65536);
    DivModUnique(Room(rs, |rs|), 65536, blocks, 0);
  }

  /** With 65536-byte blocks the first file starts behind the metadata, and every file at
      the end of the room of those before it. */
  lemma {:induction false} OffsetsAre(rs: seq<Rec>, k: nat)
    requires k < |rs| && rs[k].HasData()
    ensures LaidOut(rs, 65536)[k] == rs[k].(offset := FirstByte(rs) + Room(rs, k))
  {
    StartIs(rs);
    RoomIsSpan(rs, k);
    AssignAt(rs, FirstByte(rs), 65536, k);
  }

  // ----- every file of the directory -----

  /** The content of the file stands at `at`, with zeros behind it in its last block. */
  predicate FileStands(pkg: Bytes, at: nat, content: Bytes) {
    && at + Whole(|content|) <= |pkg| && pkg[at..at + |content|] == content
    && forall x: nat :: at + |content| <= x < at + Whole(|content|) ==> pkg[x] == 0
  }

  /** With the block size that every caller uses, the package holds every non-empty regular
      file that opened directories lead to: its bytes, and zeros up to the end of its last
      block, are where the room of the records before its own ends. */
  lemma {:induction false} FileIsPacked(typ: nat, id: nat, path: Path, es: seq<DirEntry>, base: nat, disk: Disk,
                                        route: seq<nat>, e: DirEntry, full: Path, rs: seq<Rec>)
    returns (k: nat)
    requires Reaches(path, es, route, e, full) && e.stat.Regular? && e.stat.size > 0
    requires rs == Scanned(path, true, es, base) && AllCopyable(LaidOut(rs, 65536), disk)
    ensures 0 < k < |rs| && RecordFor(rs[k], e, full)
    ensures full in disk && e.stat.size <= |disk[full]|
    ensures FileStands(Package(typ, id, rs, 65536, disk), FirstByte(rs) + Room(rs, k), disk[full][..e.stat.size])
  {
    k := PackedAs(path, es, base, route, e, full);
    EntryAtRecord(typ, id, rs, disk, k, e, full);
  }

  lemma {:induction false} PackedAs(path: Path, es: seq<DirEntry>, base: nat, route: seq<nat>,
                                    e: DirEntry, full: Path) returns (k: nat)
    requires Reaches(path, es, route, e, full)
    ensures 0 < k < |Scanned(path, true, es, base)| && RecordFor(Scanned(path, true, es, base)[k], e, full)
  {
    EntryIsPacked(path, es, base, route, e, full);
    k :| 0 < k < |Scanned(path, true, es, base)| && RecordFor(Scanned(path, true, es, base)[k], e, full);
  }

  lemma {:induction false} EntryAtRecord(typ: nat, id: nat, rs: seq<Rec>, disk: Disk, k: nat, e: DirEntry, full: Path)
    requires AllCopyable(LaidOut(rs, 65536), disk) && k < |rs| && RecordFor(rs[k], e, full)
    requires e.stat.Regular? && e.stat.size > 0
    ensures full in disk && e.stat.size <= |disk[full]|
    ensures FileStands(Package(typ, id, rs, 65536, disk), FirstByte(rs) + Room(rs, k), disk[full][..e.stat.size])
  {
    CopyableRecord(rs, disk, k);
    var content := disk[full][..e.stat.size];
    PayloadIsPacked(typ, id, rs, disk, k, content);
    PaddedStands(Package(typ, id, rs, 65536, disk), FirstByte(rs) + Room(rs, k), content);
  }

  lemma {:induction false} CopyableRecord(rs: seq<Rec>, disk: Disk, k: nat)
    requires AllCopyable(LaidOut(rs, 65536), disk) && k < |rs|
    ensures Copyable(rs[k], disk)
  {
    PlacedIs(rs, 65536, k);
    assert Copyable(LaidOut(rs, 65536)[k], disk);
  }

  lemma {:induction false} PayloadIsPacked(typ: nat, id: nat, rs: seq<Rec>, disk: Disk, k: nat, content: Bytes)
    requires AllCopyable(LaidOut(rs, 65536), disk) && k < |rs| && rs[k].Streamed() && Copyable(rs[k], disk)
    requires content == disk[rs[k].src.value][..rs[k].size]
    ensures Holds(Package(typ, id, rs, 65536, disk), FirstByte(rs) + Room(rs, k), Padded(content))
  {
    PayloadIs(rs, disk, k, content);
    PayloadHolds(typ, id, rs, disk, k);
  }

  lemma {:induction false} PayloadIs(rs: seq<Rec>, disk: Disk, k: nat, content: Bytes)
    requires k < |rs| && rs[k].Streamed() && Copyable(rs[k], disk)
    requires content == disk[rs[k].src.value][..rs[k].size]
    ensures var r := LaidOut(rs, 65536)[k];
            && r.offset == FirstByte(rs) + Room(rs, k) && r.Streamed() && Copyable(r, disk)
            && Payload(r, 65536, disk) == Padded(content)
  {
    OffsetsAre(rs, k);
    WholeIsAligned(rs[k].size);
  }

  lemma {:induction false} PayloadHolds(typ: nat, id: nat, rs: seq<Rec>, disk: Disk, k: nat)
    requires AllCopyable(LaidOut(rs, 65536), disk) && k < |rs| && rs[k].Streamed()
    requires LaidOut(rs, 65536)[k].Streamed() && Copyable(LaidOut(rs, 65536)[k], disk)
    ensures var r := LaidOut(rs, 65536)[k]; Holds(Package(typ, id, rs, 65536, disk), r.offset, Payload(r, 65536, disk))
  {
    PackageFileReadsBack(typ, id, rs, 65536, disk, k);
    DefaultBlocksClear(rs);
  }

  /** The content, filled up with zeros. */
  function Padded(content: Bytes): Bytes {
    content + Zeros(Whole(|content|) - |content|)
  }

  lemma {:induction false} PaddedStands(pkg: Bytes, at: nat, content: Bytes)
    requires Holds(pkg, at, Padded(content))
    ensures FileStands(pkg, at, content)
  {
    HoldsPart(pkg, at, content, Zeros(Whole(|content|) - |content|));
    ZerosStand(pkg, at + |content|, Whole(|content|) - |content|);
  }

  /** The package can be written exactly when every non-empty regular file that opened
      directories lead to has a source with at least as many bytes as its status says. */
  lemma {:induction false} SucceedsExactly(path: Path, es: seq<DirEntry>, base: nat, bs: nat, disk: Disk)
    requires bs > 0
    ensures AllCopyable(LaidOut(Scanned(path, true, es, base), bs), disk) <==> AllHaveSources(path, es, disk)
  {
    var rs := Scanned(path, true, es, base);
    if AllCopyable(LaidOut(rs, bs), disk) {
      forall route, e, full | Reaches(path, es, route, e, full) ensures HasSource(e, full, disk) {
        SourceNeeded(path, es, base, bs, disk, route, e, full);
      }
    }
    if AllHaveSources(path, es, disk) {
      var routes := RecordsAreEntries(path, true, es, base);
      forall k: nat | k < |rs| ensures Copyable(LaidOut(rs, bs)[k], disk) {
        PlacedIs(rs, bs, k);
        if k > 0 {
          assert Found(path, es, routes[k - 1], rs[1..][k - 1]);
          SourceFound(path, es, disk, routes[k - 1], rs[k]);
        }
      }
    }
  }

  ghost predicate AllHaveSources(path: Path, es: seq<DirEntry>, disk: Disk) {
    forall route, e, full :: Reaches(path, es, route, e, full) ==> HasSource(e, full, disk)
  }

  predicate HasSource(e: DirEntry, full: Path, disk: Disk) {
    e.stat.Regular? && e.stat.size > 0 ==> full in disk && e.stat.size <= |disk[full]|
  }

  lemma {:induction false} SourceNeeded(path: Path, es: seq<DirEntry>, base: nat, bs: nat, disk: Disk,
                                        route: seq<nat>, e: DirEntry, full: Path)
    requires bs > 0 && AllCopyable(LaidOut(Scanned(path, true, es, base), bs), disk)
    requires Reaches(path, es, route, e, full)
    ensures HasSource(e, full, disk)
  {
    var rs := Scanned(path, true, es, base);
    EntryIsPacked(path, es, base, route, e, full);
    var k: nat :| 0 < k < |rs| && RecordFor(rs[k], e, full);
    PlacedIs(rs, bs, k);
    assert Copyable(LaidOut(rs, bs)[k], disk);
  }

  lemma {:induction false} SourceFound(path: Path, es: seq<DirEntry>, disk: Disk, route: seq<nat>, r: Rec)
    requires AllHaveSources(path, es, disk) && Found(path, es, route, r)
    ensures Copyable(r, disk)
  {
    var e, full :| Reaches(path, es, route, e, full) && RecordFor(r, e, full);
    assert HasSource(e, full, disk);
  }

  lemma {:induction false} PlacedIs(rs: seq<Rec>, bs: nat, k: nat)
    requires bs > 0 && k < |rs|
    ensures var r := LaidOut(rs, bs)[k]; r == rs[k].(offset := r.offset)
  {
    AssignAt(rs, DataOffset(|rs|, TotalBlocks(rs, bs), bs), bs, k);
  }
}
