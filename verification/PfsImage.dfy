/**
 * A complete PFS image: creating it, laying it out, writing it, and reading it back.
 */
module PfsImage {
  import opened Words
  import opened ByteFile
  import opened PfsLayout
  import opened PfsTree
  import opened PfsScan
  import opened PfsBuilder

  /** The 1024-byte image header; `id` is the creation time. */
  function PfsHeader(id: nat): (h: Bytes)
    ensures |h| == PFS_HEADER_SIZE
  {
    LE(PFS_VERSION, 8) + LE(PFS_MAGIC, 8) + LE(id, 8) + LE(1, 8) + Zeros(PFS_HEADER_SIZE - 32)
  }

  /** All sizes stay inside 64 bits. */
  predicate LayoutFits(rs: seq<Rec>, bs: nat)
    requires bs > 0
  {
    && SizesFit(rs, bs)
    && MetadataSize(|rs|, TotalBlocks(rs, bs), bs) + bs <= TWO64
    && TotalBlocks(rs, bs) / 8 + bs <= TWO64
    && DataEnd(rs, bs) < TWO64
  }

  /** The records after layout. */
  function LaidOut(rs: seq<Rec>, bs: nat): (out: seq<Rec>)
    requires bs > 0
    ensures |out| == |rs|
  {
    Assign(rs, DataOffset(|rs|, TotalBlocks(rs, bs), bs), bs)
  }

  // ----- what is written, as bytes -----

  /** Header, table and bitmap. The first two go to wherever the stream stands; the
      bitmap goes to an absolute offset. */
  function MetadataBytes(data: Bytes, pos: nat, id: nat, rs: seq<Rec>, bs: nat): Bytes
    requires bs > 0
  {
    MetadataWith(data, pos, id, rs, BitmapBytes(TotalBlocks(rs, bs), bs))
  }

  function MetadataWith(data: Bytes, pos: nat, id: nat, rs: seq<Rec>, bitmap: Bytes): Bytes {
    var d1 := WriteAt(data, pos, PfsHeader(id));
    var d2 := WriteAt(d1, pos + PFS_HEADER_SIZE, Table(rs));
    WriteAt(d2, PFS_HEADER_SIZE + INODE_SIZE * |rs|, bitmap)
  }

  function ImageBytes(data: Bytes, pos: nat, id: nat, rs: seq<Rec>, bs: nat, disk: Disk): Bytes
    requires bs > 0 && AllCopyable(rs, disk)
  {
    PutData(MetadataBytes(data, pos, id, rs, bs), rs, bs, disk)
  }

  // ----- the image object -----

  class PfsImage {
    var blockSize: nat
    var id: nat
    var root: Inode
    var inodeCount: nat
    var blockCount: nat
    var dataOffset: nat

    /** pfs_image_create: the root takes a counter value and is then renumbered. */
    constructor (blockSize: nat, now: nat, counter: InodeCounter)
      modifies counter
      ensures this.blockSize == if blockSize != 0 then blockSize else DEFAULT_BLOCK_SIZE
      ensures id == now && fresh(root) && root.children == [] && root.parent == null
      ensures root.Snap() == FreshRec([], Dir, 1)
      ensures counter.next == old(counter.next) + 1
    {
      this.blockSize := if blockSize != 0 then blockSize else DEFAULT_BLOCK_SIZE;
      id := now;
      inodeCount, blockCount, dataOffset := 0, 0, 0;
      var r := new Inode([], Dir, null, counter);
      root := r;
      new;
      root.ino := 1;
    }

    /** pfs_build_image */
    method Build(ghost s: Shape, ghost rs: seq<Rec>)
      requires root == s.node && Linked(Pre(s)) && Distinct(Pre(s)) && rs == Snaps(Pre(s))
      requires 0 < blockSize < TWO64 && LayoutFits(rs, blockSize)
      modifies `inodeCount, `blockCount, `dataOffset, Nodes(Pre(s))`offset
      ensures inodeCount == |rs| && blockCount == TotalBlocks(rs, blockSize)
      ensures dataOffset == DataOffset(|rs|, TotalBlocks(rs, blockSize), blockSize)
      ensures Linked(Pre(s)) && Snaps(Pre(s)) == LaidOut(rs, blockSize)
    {
      ghost var tree := Pre(s);
      var inodes, blocks, offset := LayOutTree(root, blockSize, s, rs);
      assert Linked(tree) && Snaps(tree) == LaidOut(rs, blockSize);
      inodeCount := inodes;
      blockCount := blocks;
      dataOffset := offset;
      assert Linked(tree) && Snaps(tree) == LaidOut(rs, blockSize);
    }

    /** pfs_calculate_size: from the stored counts, and the blocks counted once more. */
    method CalculateSize(ghost s: Shape, ghost rs: seq<Rec>) returns (size: nat)
      requires root == s.node && Linked(Pre(s)) && rs == Snaps(Pre(s))
      requires 0 < blockSize < TWO64 && SizesFit(rs, blockSize) && blockCount / 8 + blockSize <= TWO64
      ensures size == MetadataSize(inodeCount, blockCount, blockSize) + TotalBlocks(rs, blockSize) * blockSize
    {
      var blocks := CountBlocks(root, blockSize, s, rs);
      size := SizeFromCounts(inodeCount, blockCount, blocks, blockSize);
    }

    /** pfs_write_image */
    method Write(out: OutFile, disk: Disk, ghost s: Shape, ghost rs: seq<Rec>) returns (ok: bool)
      requires root == s.node && Linked(Pre(s)) && rs == Snaps(Pre(s))
      requires 0 < blockSize < TWO64 && LayoutFits(rs, blockSize)
      requires inodeCount == |rs| && blockCount == TotalBlocks(rs, blockSize)
      modifies out
      ensures ok <==> AllCopyable(rs, disk)
      ensures ok ==> out.data == ImageBytes(old(out.data), old(out.pos), id, rs, blockSize, disk)
      ensures ok ==> out.pos == PosAfter(dataOffset, rs, blockSize)
    {
      ghost var tree := Pre(s);
      assert Linked(tree) && Snaps(tree) == rs;
      WriteMetadata(out, s, rs);
      assert Linked(tree) && Snaps(tree) == rs;
      ok := StreamFrom(out, dataOffset, root, blockSize, disk, s, rs);
    }

    method WriteMetadata(out: OutFile, ghost s: Shape, ghost rs: seq<Rec>)
      requires root == s.node && Linked(Pre(s)) && rs == Snaps(Pre(s))
      requires 0 < blockSize < TWO64 && blockCount / 8 + blockSize <= TWO64
      requires inodeCount == |rs| && blockCount == TotalBlocks(rs, blockSize)
      modifies out
      ensures out.data == MetadataBytes(old(out.data), old(out.pos), id, rs, blockSize)
    {
      WriteHeaderAndTable(out, s, rs);
      WriteBitmap(out, inodeCount, blockCount, blockSize);
    }

    method WriteHeaderAndTable(out: OutFile, ghost s: Shape, ghost rs: seq<Rec>)
      requires root == s.node && Linked(Pre(s)) && rs == Snaps(Pre(s))
      modifies out
      ensures out.data == WriteAt(WriteAt(old(out.data), old(out.pos), PfsHeader(id)),
                                  old(out.pos) + PFS_HEADER_SIZE, Table(rs))
    {
      ghost var tree := Pre(s);
      assert Linked(tree) && Snaps(tree) == rs;
      out.Write(PfsHeader(id));
      assert Linked(tree) && Snaps(tree) == rs;
      ghost var data1, pos1 := out.data, out.pos;
      assert [] + rs == rs && WriteAt(data1, pos1, Table([])) == data1;
      WriteInodes(out, root, s, rs, data1, pos1, []);
    }
  }

  /** The sum of pfs_calculate_size. */
  method SizeFromCounts(inodeCount: nat, blockCount: nat, blocks: nat, bs: nat) returns (size: nat)
    requires 0 < bs < TWO64 && blockCount / 8 + bs <= TWO64
    ensures size == MetadataSize(inodeCount, blockCount, bs) + blocks * bs
  {
    var inodeTableSize := inodeCount * INODE_SIZE;
    AlignUpIsAligned(blockCount / 8, bs);
    var bitmapSize := AlignUp(blockCount / 8, bs);
    var dataSize := blocks * bs;
    size := PFS_HEADER_SIZE + inodeTableSize + bitmapSize + dataSize;
  }

  /** The last part of pfs_write_image: seek to the data area and stream. */
  method StreamFrom(out: OutFile, start: nat, root: Inode, bs: nat, disk: Disk, ghost s: Shape, ghost rs: seq<Rec>)
    returns (ok: bool)
    requires root == s.node && Linked(Pre(s)) && rs == Snaps(Pre(s))
    requires 0 < bs < TWO64 && SizesFit(rs, bs)
    modifies out
    ensures ok <==> AllCopyable(rs, disk)
    ensures ok ==> out.data == PutData(old(out.data), rs, bs, disk) && out.pos == PosAfter(start, rs, bs)
  {
    ghost var tree := Pre(s);
    assert Linked(tree) && Snaps(tree) == rs;
    out.Seek(start);
    assert Linked(tree) && Snaps(tree) == rs && [] + rs == rs;
    ok := WriteFileData(out, root, bs, disk, s, rs, out.data, out.pos, []);
  }

  /** The computation of pfs_build_image, before it is stored in the image. */
  method LayOutTree(root: Inode, bs: nat, ghost s: Shape, ghost rs: seq<Rec>)
    returns (inodes: nat, blocks: nat, offset: nat)
    requires root == s.node && Linked(Pre(s)) && Distinct(Pre(s)) && rs == Snaps(Pre(s))
    requires 0 < bs < TWO64 && LayoutFits(rs, bs)
    modifies Nodes(Pre(s))`offset
    ensures inodes == |rs| && blocks == TotalBlocks(rs, bs)
    ensures offset == DataOffset(|rs|, TotalBlocks(rs, bs), bs)
    ensures Linked(Pre(s)) && Snaps(Pre(s)) == LaidOut(rs, bs)
  {
    ghost var tree := Pre(s);
    assert Linked(tree) && Snaps(tree) == rs;
    inodes := CountInodes(root, s);
    assert Linked(tree) && Snaps(tree) == rs;
    blocks := CountBlocks(root, bs, s, rs);
    assert Linked(tree) && Snaps(tree) == rs;
    offset := StartOfData(inodes, blocks, bs);
    var end := AssignOffsets(root, offset, bs, s, rs);
  }

  method StartOfData(inodes: nat, blocks: nat, bs: nat) returns (offset: nat)
    requires 0 < bs < TWO64 && blocks / 8 + bs <= TWO64 && MetadataSize(inodes, blocks, bs) + bs <= TWO64
    ensures offset == DataOffset(inodes, blocks, bs)
  {
    var inodeTableSize := inodes * INODE_SIZE;
    AlignUpIsAligned(blocks / 8, bs);
    var bitmapSize := AlignUp(blocks / 8, bs);
    offset := PFS_HEADER_SIZE + inodeTableSize + bitmapSize;
    AlignUpIsAligned(offset, bs);
    offset := AlignUp(offset, bs);
  }

  /** The bitmap part of pfs_write_image. The buffer has BitmapSize bytes; what the
      fill would put behind its end never reaches the file. */
  method WriteBitmap(out: OutFile, inodeCount: nat, blockCount: nat, bs: nat)
    requires 0 < bs < TWO64 && blockCount / 8 + bs <= TWO64
    modifies out
    ensures out.data == WriteAt(old(out.data), PFS_HEADER_SIZE + INODE_SIZE * inodeCount, BitmapBytes(blockCount, bs))
  {
    var inodeTableSize := inodeCount * INODE_SIZE;
    var bitmapOffset := PFS_HEADER_SIZE + inodeTableSize;
    AlignUpIsAligned(blockCount / 8, bs);
    var bitmapSize := AlignUp(blockCount / 8, bs);
    out.Seek(bitmapOffset);
    var bitmap := new Byte[bitmapSize](_ => 0);
    var fill := Min((blockCount + 7) / 8, bitmapSize);
    forall i | 0 <= i < fill {
      bitmap[i] := 0xFF;
    }
    assert bitmap[..] == BitmapBytes(blockCount, bs);
    out.Write(bitmap[..]);
  }

  // ----- reading back an image whose stream starts at 0 -----

  /** Header, inode table and bitmap survive the streaming writes. */
  lemma {:induction false} MetadataSurvives(id: nat, rs: seq<Rec>, bs: nat, disk: Disk)
    requires bs > 0 && AllCopyable(LaidOut(rs, bs), disk)
    ensures var image := ImageBytes([], 0, id, LaidOut(rs, bs), bs, disk);
            && Holds(image, 0, PfsHeader(id))
            && Holds(image, PFS_HEADER_SIZE, Table(LaidOut(rs, bs)))
            && Holds(image, PFS_HEADER_SIZE + INODE_SIZE * |rs|, BitmapBytes(TotalBlocks(rs, bs), bs))
  {
    var out, n, blocks := LaidOut(rs, bs), |rs|, TotalBlocks(rs, bs);
    AssignKeepsTotals(rs, DataOffset(n, blocks, bs), bs);
    MetadataHolds(id, out, bs);
    TableLength(out);
    BelowDataSurvives(id, rs, bs, disk, 0, PfsHeader(id));
    BelowDataSurvives(id, rs, bs, disk, PFS_HEADER_SIZE, Table(out));
    BelowDataSurvives(id, rs, bs, disk, PFS_HEADER_SIZE + INODE_SIZE * n, BitmapBytes(blocks, bs));
  }

  lemma {:induction false} BelowDataSurvives(id: nat, rs: seq<Rec>, bs: nat, disk: Disk, lo: nat, b: Bytes)
    requires bs > 0 && AllCopyable(LaidOut(rs, bs), disk)
    requires Holds(MetadataBytes([], 0, id, LaidOut(rs, bs), bs), lo, b)
    requires lo + |b| <= MetadataSize(|rs|, TotalBlocks(rs, bs), bs)
    ensures Holds(ImageBytes([], 0, id, LaidOut(rs, bs), bs, disk), lo, b)
  {
    var base := DataOffset(|rs|, TotalBlocks(rs, bs), bs);
    PutDataKeepsBelow(MetadataBytes([], 0, id, LaidOut(rs, bs), bs), rs, base, bs, disk, lo, b);
  }

  /** Every file's bytes are at its extent, with zeros up to the block end, whatever
      was in the stream before. */
  lemma {:induction false} FileReadsBack(data: Bytes, pos: nat, id: nat, rs: seq<Rec>, bs: nat, disk: Disk, k: nat)
    requires bs > 0 && AllCopyable(LaidOut(rs, bs), disk) && k < |rs| && rs[k].Streamed()
    ensures var out := LaidOut(rs, bs);
            && out[k].Streamed()
            && Holds(ImageBytes(data, pos, id, out, bs, disk), out[k].offset, Payload(out[k], bs, disk))
  {
    PutDataReadsBack(MetadataBytes(data, pos, id, LaidOut(rs, bs), bs), rs,
                     DataOffset(|rs|, TotalBlocks(rs, bs), bs), bs, disk, k);
  }

  lemma {:induction false} MetadataHolds(id: nat, rs: seq<Rec>, bs: nat)
    requires bs > 0
    ensures var meta, n, blocks := MetadataBytes([], 0, id, rs, bs), |rs|, TotalBlocks(rs, bs);
            && |meta| == MetadataSize(n, blocks, bs)
            && Holds(meta, 0, PfsHeader(id))
            && Holds(meta, PFS_HEADER_SIZE, Table(rs))
            && Holds(meta, PFS_HEADER_SIZE + INODE_SIZE * n, BitmapBytes(blocks, bs))
  {
    var n, blocks := |rs|, TotalBlocks(rs, bs);
    var h, t, b := PfsHeader(id), Table(rs), BitmapBytes(blocks, bs);
    TableLength(rs);
    var d1 := WriteAt([], 0, h);
    WriteAtLength([], 0, h);
    WriteHolds([], 0, h);
    var d2 := WriteAt(d1, PFS_HEADER_SIZE, t);
    WriteAtLength(d1, PFS_HEADER_SIZE, t);
    WriteHolds(d1, PFS_HEADER_SIZE, t);
    WriteKeeps(d1, PFS_HEADER_SIZE, t, 0, h);
    var at := PFS_HEADER_SIZE + INODE_SIZE * n;
    WriteAtLength(d2, at, b);
    WriteHolds(d2, at, b);
    WriteKeeps(d2, at, b, 0, h);
    WriteKeeps(d2, at, b, PFS_HEADER_SIZE, t);
  }

  /** Offsets of a layout that fits are 64-bit values, so records round-trip. */
  lemma {:induction false} LaidOutInWidth(rs: seq<Rec>, bs: nat, k: nat)
    requires bs > 0 && LayoutFits(rs, bs) && k < |rs| && InWidth(rs[k])
    ensures InWidth(LaidOut(rs, bs)[k])
  {
    var base := DataOffset(|rs|, TotalBlocks(rs, bs), bs);
    AssignAt(rs, base, bs, k);
    if rs[k].HasData() { ExtentBounds(rs, base, bs, k); }
  }

  lemma {:induction false} RecordReadsBack(image: Bytes, at: nat, out: seq<Rec>, k: nat)
    requires Holds(image, at, Table(out)) && k < |out| && InWidth(out[k])
    ensures RecordIs(image, at + INODE_SIZE * k, out[k])
  {
    TableAt(image, at, out, k);
    InodeRoundTrip(out[k]);
  }

  /** The 256 bytes at `at` decode to the fields of the record. */
  predicate RecordIs(image: Bytes, at: nat, r: Rec) {
    && at + INODE_SIZE <= |image|
    && Decode(image[at..at + INODE_SIZE])
       == Decoded(r.mode, r.nlink, r.flags, r.size, r.sizeCompressed, r.offset, r.ino, NameField(r.name))
  }

  /** The inode table of a complete image, read record by record: exactly one record
      per node in pre-order, each decoding to that node's fields. */
  lemma {:induction false} InodeTableReadsBack(id: nat, rs: seq<Rec>, bs: nat, disk: Disk, k: nat)
    requires bs > 0 && LayoutFits(rs, bs) && AllCopyable(LaidOut(rs, bs), disk)
    requires k < |rs| && InWidth(rs[k])
    ensures RecordIs(ImageBytes([], 0, id, LaidOut(rs, bs), bs, disk),
                     PFS_HEADER_SIZE + INODE_SIZE * k, LaidOut(rs, bs)[k])
  {
    MetadataSurvives(id, rs, bs, disk);
    LaidOutInWidth(rs, bs, k);
    RecordReadsBack(ImageBytes([], 0, id, LaidOut(rs, bs), bs, disk), PFS_HEADER_SIZE, LaidOut(rs, bs), k);
  }
}
