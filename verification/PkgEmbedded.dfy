/**
 * The image inside a package of 65536-byte blocks. The image writer seeks to offsets
 * counted from the start of the file although the package puts the image behind its
 * own header, so the bitmap and the file data land on other parts of the image. For
 * each part, the exact condition under which it is still there in the finished package.
 */
module PkgEmbedded {
  import opened Words
  import opened ByteFile
  import opened PfsLayout
  import opened PfsTree
  import opened PfsScan
  import opened PfsBuilder
  import opened PfsImage
  import opened PkgBuilder

  const BLOCK: nat := DEFAULT_BLOCK_SIZE

  /** Where the embedded inode table starts. */
  const TABLE_AT: nat := BODY_OFFSET + PFS_HEADER_SIZE

  /** Where the bitmap goes: counted from the start of the file. */
  function BitmapAt(n: nat): nat {
    PFS_HEADER_SIZE + INODE_SIZE * n
  }

  /** What a scan makes: a root directory first, and a source for every file. */
  predicate FromScan(rs: seq<Rec>) {
    rs != [] && rs[0].mode == DIR_MODE && AllSourced(rs)
  }

  lemma {:induction false} ScannedIsFromScan(path: Path, opens: bool, es: seq<DirEntry>, base: nat)
    ensures FromScan(Scanned(path, opens, es, base))
  {
    ScannedSourced(path, opens, es, base);
  }

  function DataStart(rs: seq<Rec>): nat {
    DataOffset(|rs|, TotalBlocks(rs, BLOCK), BLOCK)
  }

  function Laid(rs: seq<Rec>): seq<Rec> {
    LaidOut(rs, BLOCK)
  }

  /** The package after header, inode table and bitmap of the image are written. */
  function Written(typ: nat, id: nat, rs: seq<Rec>): Bytes {
    MetadataBytes(WithHeader([], 0, FirstHeader(typ), PKG_ENTRIES), BODY_OFFSET, id, Laid(rs), BLOCK)
  }

  function Finished(typ: nat, id: nat, rs: seq<Rec>, disk: Disk): Bytes
    requires AllCopyable(Laid(rs), disk)
  {
    Package(typ, id, rs, BLOCK, disk)
  }

  // ----- from the metadata writes to the finished package -----

  /** What lies between the package header and the data stays; without any data,
      everything behind the header does. */
  lemma {:induction false} PackageKeeps(typ: nat, id: nat, rs: seq<Rec>, disk: Disk, lo: nat, b: Bytes)
    requires AllCopyable(Laid(rs), disk) && Holds(Written(typ, id, rs), lo, b)
    requires BODY_OFFSET <= lo && (lo + |b| <= DataStart(rs) || TotalSpan(rs, BLOCK) == 0)
    ensures Holds(Finished(typ, id, rs, disk), lo, b)
  {
    if TotalSpan(rs, BLOCK) == 0 {
      NothingStreamed(Written(typ, id, rs), rs, DataStart(rs), BLOCK, disk);
    } else {
      PutDataKeepsBelow(Written(typ, id, rs), rs, DataStart(rs), BLOCK, disk, lo, b);
    }
    WithHeaderKeeps(Body(typ, id, rs, BLOCK, disk), FinalHeader(typ, PkgSize(rs, BLOCK)), lo, b);
  }

  /** The data area of the finished package: the padded files, one behind the other. */
  lemma {:induction false} PackageDataArea(typ: nat, id: nat, rs: seq<Rec>, disk: Disk)
    requires AllCopyable(Laid(rs), disk) && FromScan(rs) && TotalBlocks(rs, BLOCK) > 0
    ensures |DataArea(Laid(rs), BLOCK, disk)| == TotalBlocks(rs, BLOCK) * BLOCK
    ensures Holds(Finished(typ, id, rs, disk), DataStart(rs), DataArea(Laid(rs), BLOCK, disk))
  {
    var area := DataArea(Laid(rs), BLOCK, disk);
    DefaultIsPow2();
    SpanIsBlocks(rs, BLOCK);
    AssignSourced(rs, DataStart(rs), BLOCK);
    AssignKeepsTotals(rs, DataStart(rs), BLOCK);
    DataAreaLength(Laid(rs), BLOCK, disk);
    DataAreaReadsBack(Written(typ, id, rs), rs, DataStart(rs), BLOCK, disk);
    DefaultBlocksClear(rs);
    WithHeaderKeeps(Body(typ, id, rs, BLOCK, disk), FinalHeader(typ, PkgSize(rs, BLOCK)), DataStart(rs), area);
  }

  // ----- what the metadata writes leave -----

  lemma {:induction false} SmallBitmap(blocks: nat)
    ensures blocks < 8 ==> BitmapBytes(blocks, BLOCK) == []
    ensures blocks >= 8 ==> |BitmapBytes(blocks, BLOCK)| >= BLOCK
  {
    AlignedZero(BLOCK);
    DefaultIsPow2();
    AlignedInBlocks(blocks / 8, BLOCK);
  }

  /** Header, table and bitmap after the three writes: a bitmap covers what it meets, and
      keeps the header when it starts behind it. */
  lemma {:induction false} ThreeWrites(start: Bytes, id: nat, rs: seq<Rec>, bitmap: Bytes)
    requires |start| == BODY_OFFSET
    ensures var d := MetadataWith(start, BODY_OFFSET, id, rs, bitmap);
            && (bitmap == [] || |rs| >= 65 ==> Holds(d, BODY_OFFSET, PfsHeader(id)))
            && (bitmap == [] ==> Holds(d, TABLE_AT, Table(rs)))
            && (bitmap != [] ==> Holds(d, BitmapAt(|rs|), bitmap))
  {
    var d1 := WriteAt(start, BODY_OFFSET, PfsHeader(id));
    var d2 := WriteAt(d1, TABLE_AT, Table(rs));
    WriteHolds(start, BODY_OFFSET, PfsHeader(id));
    WriteKeeps(d1, TABLE_AT, Table(rs), BODY_OFFSET, PfsHeader(id));
    WriteHolds(d1, TABLE_AT, Table(rs));
    if bitmap != [] { WriteHolds(d2, BitmapAt(|rs|), bitmap); }
    if |rs| >= 65 { WriteKeeps(d2, BitmapAt(|rs|), bitmap, BODY_OFFSET, PfsHeader(id)); }
  }

  /** Without a bitmap header and table are there; with one the bitmap is. */
  lemma {:induction false} AfterMetadata(typ: nat, id: nat, rs: seq<Rec>)
    ensures var d, b := Written(typ, id, rs), BitmapBytes(TotalBlocks(rs, BLOCK), BLOCK);
            && (b == [] || |rs| >= 65 ==> Holds(d, BODY_OFFSET, PfsHeader(id)))
            && (b == [] ==> Holds(d, TABLE_AT, Table(Laid(rs))))
            && (b != [] ==> Holds(d, BitmapAt(|rs|), b))
  {
    WithHeaderLength([], FirstHeader(typ));
    AssignKeepsTotals(rs, DataStart(rs), BLOCK);
    ThreeWrites(WithHeader([], 0, FirstHeader(typ), PKG_ENTRIES), id, Laid(rs),
                BitmapBytes(TotalBlocks(rs, BLOCK), BLOCK));
  }

  lemma {:induction false} BitmapBelowData(rs: seq<Rec>)
    ensures BitmapAt(|rs|) + |BitmapBytes(TotalBlocks(rs, BLOCK), BLOCK)| <= DataStart(rs)
    ensures TotalBlocks(rs, BLOCK) >= 8 ==> BitmapAt(|rs|) + BLOCK <= DataStart(rs)
  {
    SmallBitmap(TotalBlocks(rs, BLOCK));
  }

  /** One byte of the bitmap in the finished package, unless the final header covers it. */
  lemma {:induction false} BitmapByte(typ: nat, id: nat, rs: seq<Rec>, disk: Disk, x: nat) returns (v: Byte)
    requires AllCopyable(Laid(rs), disk) && TotalBlocks(rs, BLOCK) >= 8
    requires BODY_OFFSET <= x && 0 <= x - BitmapAt(|rs|) < BLOCK
    ensures Holds(Finished(typ, id, rs, disk), x, [v])
    ensures v == 0 || v == 0xFF
    ensures x == BitmapAt(|rs|) ==> v == 0xFF
  {
    BitmapBelowData(rs);
    BitmapWritten(typ, id, rs);
    v := BitmapValue(Written(typ, id, rs), |rs|, TotalBlocks(rs, BLOCK), x);
    PackageKeeps(typ, id, rs, disk, x, [v]);
  }

  lemma {:induction false} BitmapWritten(typ: nat, id: nat, rs: seq<Rec>)
    requires TotalBlocks(rs, BLOCK) >= 8
    ensures Holds(Written(typ, id, rs), BitmapAt(|rs|), BitmapBytes(TotalBlocks(rs, BLOCK), BLOCK))
  {
    SmallBitmap(TotalBlocks(rs, BLOCK));
    AfterMetadata(typ, id, rs);
  }

  lemma {:induction false} BitmapValue(data: Bytes, n: nat, blocks: nat, x: nat) returns (v: Byte)
    requires blocks >= 8 && 0 <= x - BitmapAt(n) < BLOCK && Holds(data, BitmapAt(n), BitmapBytes(blocks, BLOCK))
    ensures Holds(data, x, [v])
    ensures v == 0 || v == 0xFF
    ensures x == BitmapAt(n) ==> v == 0xFF
  {
    var b, i := BitmapBytes(blocks, BLOCK), x - BitmapAt(n);
    SmallBitmap(blocks);
    v := b[i];
    HoldsWithin(data, BitmapAt(n), b, i, v);
  }

  // ----- the image header -----

  /** The embedded image header survives exactly when no bitmap is written (fewer than
      eight blocks) or the inode table pushes the bitmap behind it (at least 65 inodes). */
  lemma {:induction false} EmbeddedHeaderSurvives(typ: nat, id: nat, rs: seq<Rec>, disk: Disk)
    requires rs != [] && AllCopyable(Laid(rs), disk)
    ensures Holds(Finished(typ, id, rs, disk), BODY_OFFSET, PfsHeader(id)) <==> TotalBlocks(rs, BLOCK) < 8 || |rs| >= 65
  {
    if TotalBlocks(rs, BLOCK) < 8 || |rs| >= 65 {
      SmallBitmap(TotalBlocks(rs, BLOCK));
      AfterMetadata(typ, id, rs);
      DataOffsetPositive(|rs|, TotalBlocks(rs, BLOCK));
      PackageKeeps(typ, id, rs, disk, BODY_OFFSET, PfsHeader(id));
    } else {
      HeaderLost(typ, id, rs, disk);
    }
  }

  lemma {:induction false} HeaderLost(typ: nat, id: nat, rs: seq<Rec>, disk: Disk)
    requires AllCopyable(Laid(rs), disk) && TotalBlocks(rs, BLOCK) >= 8 && |rs| < 65
    ensures !Holds(Finished(typ, id, rs, disk), BODY_OFFSET, PfsHeader(id))
  {
    var x := if BitmapAt(|rs|) <= BODY_OFFSET then BODY_OFFSET else BitmapAt(|rs|);
    var v := BitmapByte(typ, id, rs, disk, x);
    HeaderByte(id, x - BODY_OFFSET);
    HoldsNot(Finished(typ, id, rs, disk), x, v, BODY_OFFSET, PfsHeader(id));
  }

  /** The header starts with version 1 and is zero from byte 32. */
  lemma {:induction false} HeaderByte(id: nat, i: nat)
    requires i == 0 || 32 <= i < PFS_HEADER_SIZE
    ensures PfsHeader(id)[i] == if i == 0 then 1 else 0
  {
    assert LE(PFS_VERSION, 8)[0] == 1;
  }

  // ----- the inode table -----

  /** The part of the table that lies where the data area is. */
  function TableTail(rs: seq<Rec>): Bytes {
    var t, k := Table(Laid(rs)), DataStart(rs) - TABLE_AT;
    if 0 <= k < |t| then t[k..] else []
  }

  /** Nothing is streamed, or the first file starts with the tail of the table. The
      tail is empty when the table ends before the data. */
  predicate TailKept(rs: seq<Rec>, disk: Disk)
    requires AllCopyable(Laid(rs), disk)
  {
    TotalBlocks(rs, BLOCK) == 0 || Holds(DataArea(Laid(rs), BLOCK, disk), 0, TableTail(rs))
  }

  /** With fewer than eight blocks the table ends before the data for three quarters of
      the inode counts: those that leave 65 records free in the last block. */
  lemma {:induction false} TailIsEmpty(rs: seq<Rec>)
    requires TotalBlocks(rs, BLOCK) < 8
    ensures TableTail(rs) == [] <==> 1 <= (|rs| + 4) % 256 <= 191
  {
    TailStarts(rs);
    var q, r := (|rs| + 4) / 256, (|rs| + 4) % 256;
    SmallDataStart(rs, q, r);
  }

  lemma {:induction false} TailStarts(rs: seq<Rec>)
    ensures TableTail(rs) == [] <==> TableEnd(|rs|) <= DataStart(rs)
  {
    TableLength(Laid(rs));
    DataOffsetPositive(|rs|, TotalBlocks(rs, BLOCK));
  }

  /** Without a bitmap the data starts at the block boundary behind the table's own size. */
  lemma {:induction false} SmallDataStart(rs: seq<Rec>, q: nat, r: nat)
    requires TotalBlocks(rs, BLOCK) < 8 && |rs| + 4 == 256 * q + r && r < 256
    ensures DataStart(rs) == BLOCK * (if r == 0 then q else q + 1)
    ensures BitmapAt(|rs|) == BLOCK * q + 256 * r
  {
    NoBitmap(|rs|, TotalBlocks(rs, BLOCK));
    DefaultIsPow2();
    Pow2Rounds(BLOCK * q + 256 * r, BLOCK);
    BlocksOfTable(q, r);
  }

  lemma {:induction false} NoBitmap(n: nat, blocks: nat)
    requires blocks < 8
    ensures DataOffset(n, blocks, BLOCK) == Aligned(BitmapAt(n), BLOCK)
  {
    assert blocks / 8 == 0;
    AlignedZero(BLOCK);
  }

  lemma {:induction false} BlocksOfTable(q: nat, r: nat)
    requires r < 256
    ensures RoundUp(BLOCK * q + 256 * r, BLOCK) == BLOCK * (if r == 0 then q else q + 1)
  {
    var v := BLOCK * q + 256 * r + BLOCK - 1;
    if r == 0 {
      DivModUnique(v, BLOCK, q, BLOCK - 1);
    } else {
      DivModUnique(v, BLOCK, q + 1, 256 * r - 1);
    }
  }

  /** The embedded inode table survives exactly when no bitmap is written and the first
      file does not overwrite the end of the table with something else. */
  lemma {:induction false} EmbeddedTableSurvives(typ: nat, id: nat, rs: seq<Rec>, disk: Disk)
    requires FromScan(rs) && AllCopyable(Laid(rs), disk)
    ensures Holds(Finished(typ, id, rs, disk), TABLE_AT, Table(Laid(rs)))
            <==> TotalBlocks(rs, BLOCK) < 8 && TailKept(rs, disk)
  {
    if TotalBlocks(rs, BLOCK) >= 8 {
      TableLost(typ, id, rs, disk);
    } else {
      TableUpToTail(typ, id, rs, disk);
    }
  }

  /** The bitmap covers the first byte of the table, or a padding byte of a record. */
  lemma {:induction false} TableLost(typ: nat, id: nat, rs: seq<Rec>, disk: Disk)
    requires FromScan(rs) && AllCopyable(Laid(rs), disk) && TotalBlocks(rs, BLOCK) >= 8
    ensures !Holds(Finished(typ, id, rs, disk), TABLE_AT, Table(Laid(rs)))
  {
    var at, b := TableHit(rs);
    var v := BitmapByte(typ, id, rs, disk, TABLE_AT + at);
    HoldsNot(Finished(typ, id, rs, disk), TABLE_AT + at, v, TABLE_AT, Table(Laid(rs)));
  }

  /** Where the bitmap meets the table, and what the table has there. */
  lemma {:induction false} TableHit(rs: seq<Rec>) returns (at: nat, b: Byte)
    requires FromScan(rs)
    ensures at < |Table(Laid(rs))| && Table(Laid(rs))[at] == b
    ensures 0 <= TABLE_AT + at - BitmapAt(|rs|) < BLOCK
    ensures b == 0xED || (b == 0 && TABLE_AT + at == BitmapAt(|rs|))
  {
    var n := |rs|;
    if n < 65 {
      at, b := 0, 0xED;
      TableByte(Laid(rs), 0, 0);
      RootKeepsMode(rs);
    } else {
      at, b := INODE_SIZE * (n - 65) + 0xC0, 0;
      TableByte(Laid(rs), n - 65, 0xC0);
    }
  }

  lemma {:induction false} RootKeepsMode(rs: seq<Rec>)
    requires FromScan(rs)
    ensures Laid(rs)[0].mode % 0x100 == 0xED
  {
    AssignAt(rs, DataStart(rs), BLOCK, 0);
  }

  lemma {:induction false} TableByte(rs: seq<Rec>, k: nat, i: nat)
    requires k < |rs| && (i == 0 || 80 <= i < INODE_SIZE)
    ensures |Table(rs)| == INODE_SIZE * |rs|
    ensures Table(rs)[INODE_SIZE * k + i] == if i == 0 then rs[k].mode % 0x100 else 0
    decreases k
  {
    TableLength(rs);
    InodeByte(rs[0], i);
    if k > 0 { TableByte(rs[1..], k - 1, i); }
  }

  /** Without a bitmap everything in front of the data is there, and the rest is what
      the data area starts with. */
  lemma {:induction false} TableUpToTail(typ: nat, id: nat, rs: seq<Rec>, disk: Disk)
    requires FromScan(rs) && AllCopyable(Laid(rs), disk) && TotalBlocks(rs, BLOCK) < 8
    ensures Holds(Finished(typ, id, rs, disk), TABLE_AT, Table(Laid(rs))) <==> TailKept(rs, disk)
  {
    var t, pkg := Table(Laid(rs)), Finished(typ, id, rs, disk);
    SmallBitmap(TotalBlocks(rs, BLOCK));
    AfterMetadata(typ, id, rs);
    DataOffsetPositive(|rs|, TotalBlocks(rs, BLOCK));
    DefaultIsPow2();
    SpanIsBlocks(rs, BLOCK);
    if TotalBlocks(rs, BLOCK) == 0 || TableTail(rs) == [] {
      PackageKeeps(typ, id, rs, disk, TABLE_AT, t);
    } else {
      TableWithTail(typ, id, rs, disk);
    }
  }

  lemma {:induction false} TableWithTail(typ: nat, id: nat, rs: seq<Rec>, disk: Disk)
    requires FromScan(rs) && AllCopyable(Laid(rs), disk) && 0 < TotalBlocks(rs, BLOCK)
    requires TableTail(rs) != [] && Holds(Written(typ, id, rs), TABLE_AT, Table(Laid(rs)))
    ensures Holds(Finished(typ, id, rs, disk), TABLE_AT, Table(Laid(rs)))
            <==> Holds(DataArea(Laid(rs), BLOCK, disk), 0, TableTail(rs))
  {
    var pkg, area, tail := Finished(typ, id, rs, disk), DataArea(Laid(rs), BLOCK, disk), TableTail(rs);
    var front := TailSplits(rs);
    HoldsPart(Written(typ, id, rs), TABLE_AT, front, tail);
    PackageKeeps(typ, id, rs, disk, TABLE_AT, front);
    PackageDataArea(typ, id, rs, disk);
    TailInArea(pkg, DataStart(rs), area, tail);
    HoldsBoth(pkg, TABLE_AT, front, tail);
  }

  /** The table is what lies before the data and a tail of at most one block. */
  lemma {:induction false} TailSplits(rs: seq<Rec>) returns (front: Bytes)
    requires TableTail(rs) != []
    ensures Table(Laid(rs)) == front + TableTail(rs) && TABLE_AT + |front| == DataStart(rs)
    ensures |TableTail(rs)| <= BLOCK
  {
    TableLength(Laid(rs));
    front := Table(Laid(rs))[..DataStart(rs) - TABLE_AT];
  }

  lemma {:induction false} HoldsBoth(data: Bytes, lo: nat, a: Bytes, b: Bytes)
    requires Holds(data, lo, a)
    ensures Holds(data, lo, a + b) <==> Holds(data, lo + |a|, b)
  {
    if Holds(data, lo + |a|, b) { HoldsConcat(data, lo, a, b); }
    if Holds(data, lo, a + b) { HoldsPart(data, lo, a, b); }
  }

  /** What a range starts with can be read off the range. */
  lemma {:induction false} TailInArea(data: Bytes, lo: nat, area: Bytes, tail: Bytes)
    requires Holds(data, lo, area) && |tail| <= |area|
    ensures Holds(data, lo, tail) <==> Holds(area, 0, tail)
  {
    var n := |tail|;
    assert area == area[..n] + area[n..];
    HoldsPart(data, lo, area[..n], area[n..]);
  }

  /** While the table survives, record k of the package is node k of the scan. */
  lemma {:induction false} EmbeddedInodeReadsBack(typ: nat, id: nat, rs: seq<Rec>, disk: Disk, k: nat)
    requires FromScan(rs) && LayoutFits(rs, BLOCK) && AllCopyable(Laid(rs), disk)
    requires TotalBlocks(rs, BLOCK) < 8 && TailKept(rs, disk)
    requires k < |rs| && InWidth(rs[k])
    ensures RecordIs(Finished(typ, id, rs, disk), TABLE_AT + INODE_SIZE * k, Laid(rs)[k])
  {
    EmbeddedTableSurvives(typ, id, rs, disk);
    LaidOutInWidth(rs, BLOCK, k);
    RecordReadsBack(Finished(typ, id, rs, disk), TABLE_AT, Laid(rs), k);
  }

  // ----- the bitmap -----

  /** The bitmap survives exactly when it is empty or starts behind the package header
      and its entry table, which are written once more at the end. */
  lemma {:induction false} BitmapSurvives(typ: nat, id: nat, rs: seq<Rec>, disk: Disk)
    requires FromScan(rs) && AllCopyable(Laid(rs), disk)
    ensures Holds(Finished(typ, id, rs, disk), BitmapAt(|rs|), BitmapBytes(TotalBlocks(rs, BLOCK), BLOCK))
            <==> TotalBlocks(rs, BLOCK) < 8 || |rs| >= 61
  {
    var blocks := TotalBlocks(rs, BLOCK);
    SmallBitmap(blocks);
    if blocks < 8 {
      PackageLength(typ, id, rs, BLOCK, disk);
    } else if |rs| >= 61 {
      AfterMetadata(typ, id, rs);
      BitmapBelowData(rs);
      PackageKeeps(typ, id, rs, disk, BitmapAt(|rs|), BitmapBytes(blocks, BLOCK));
    } else {
      HeaderCoversBitmap(typ, id, rs, disk);
      HoldsNot(Finished(typ, id, rs, disk), BitmapAt(|rs|), 0, BitmapAt(|rs|), BitmapBytes(blocks, BLOCK));
    }
  }

  /** The final header has a zero where the bitmap starts. */
  lemma {:induction false} HeaderCoversBitmap(typ: nat, id: nat, rs: seq<Rec>, disk: Disk)
    requires AllCopyable(Laid(rs), disk) && |rs| < 61
    ensures Holds(Finished(typ, id, rs, disk), BitmapAt(|rs|), [0])
  {
    var h := FinalHeader(typ, PkgSize(rs, BLOCK));
    HeaderHolds(Body(typ, id, rs, BLOCK, disk), h);
    CoveredByte(Finished(typ, id, rs, disk), h, |rs|);
  }

  lemma {:induction false} CoveredByte(pkg: Bytes, h: Header, n: nat)
    requires Holds(pkg, 0, HeaderBytes(h)) && Holds(pkg, PKG_HEADER_SIZE, EntryTable(PKG_ENTRIES)) && n < 61
    ensures Holds(pkg, BitmapAt(n), [0])
  {
    if n < 60 {
      HeaderIsZero(h, BitmapAt(n));
      HoldsWithin(pkg, 0, HeaderBytes(h), BitmapAt(n), 0);
    } else {
      FirstEntryByte();
      HoldsWithin(pkg, PKG_HEADER_SIZE, EntryTable(PKG_ENTRIES), 0, 0);
    }
  }

  lemma {:induction false} FirstEntryByte()
    ensures EntryTable(PKG_ENTRIES) != [] && EntryTable(PKG_ENTRIES)[0] == 0
  {
    PackageEntries();
    assert EntryTable(PKG_ENTRIES) == EntryBytes(PKG_ENTRIES[0]) + EntryTable(PKG_ENTRIES[1..]);
    assert EntryBytes(PKG_ENTRIES[0])[0] == LE(ID_NPDRM, 4)[0] == 0;
  }

  // ----- all of it -----

  /** The embedded image is complete exactly when its inode table is. */
  lemma {:induction false} EmbeddedImageSurvives(typ: nat, id: nat, rs: seq<Rec>, disk: Disk)
    requires FromScan(rs) && AllCopyable(Laid(rs), disk)
    ensures Holds(Finished(typ, id, rs, disk), BODY_OFFSET, PfsHeader(id))
            && Holds(Finished(typ, id, rs, disk), TABLE_AT, Table(Laid(rs)))
            && Holds(Finished(typ, id, rs, disk), BitmapAt(|rs|), BitmapBytes(TotalBlocks(rs, BLOCK), BLOCK))
            <==> TotalBlocks(rs, BLOCK) < 8 && TailKept(rs, disk)
  {
    EmbeddedHeaderSurvives(typ, id, rs, disk);
    EmbeddedTableSurvives(typ, id, rs, disk);
    BitmapSurvives(typ, id, rs, disk);
  }
}
