/**
 * What the PFS image builder computes, said about the flat list of inode records
 * in pre-order. The recursive tree walks of the builder are proved against these
 * definitions; the layout and read-back theorems are proved here.
 */
module PfsLayout {
  import opened Words
  import opened ByteFile

  type Path = Bytes

  const SLASH: Byte := 0x2F

  datatype Kind = Dir | File

  /** The builder-relevant fields of one inode. */
  datatype Rec = Rec(name: Bytes, kind: Kind, mode: nat, nlink: nat, flags: nat,
                     size: nat, sizeCompressed: nat, offset: nat, ino: nat, src: Option<Path>)
  {
    predicate HasData() { kind.File? && size > 0 }
    predicate Streamed() { HasData() && src.Some? }
  }

  const PFS_HEADER_SIZE: nat := 0x400
  const INODE_SIZE: nat := 256

  // ----- counting blocks and assigning extents -----

  function Blocks(r: Rec, bs: nat): nat
    requires bs > 0
  {
    if r.HasData() then WholeBlocks(Aligned(r.size, bs), bs) else 0
  }

  function WholeBlocks(bytes: nat, bs: nat): nat
    requires bs > 0
  {
    bytes / bs
  }

  /** Bytes that a record takes in the data area. */
  function Span(r: Rec, bs: nat): nat
    requires bs > 0
  {
    if r.HasData() then Aligned(r.size, bs) else 0
  }

  function TotalBlocks(rs: seq<Rec>, bs: nat): nat
    requires bs > 0
  {
    if rs == [] then 0 else Blocks(rs[0], bs) + TotalBlocks(rs[1..], bs)
  }

  function TotalSpan(rs: seq<Rec>, bs: nat): nat
    requires bs > 0
  {
    if rs == [] then 0 else Span(rs[0], bs) + TotalSpan(rs[1..], bs)
  }

  function Place(r: Rec, at: nat): Rec {
    if r.HasData() then r.(offset := at) else r
  }

  /** Extents handed out one after the other, in pre-order. */
  function Assign(rs: seq<Rec>, base: nat, bs: nat): (out: seq<Rec>)
    requires bs > 0
    ensures |out| == |rs|
  {
    if rs == [] then []
    else [Place(rs[0], base)] + Assign(rs[1..], base + Span(rs[0], bs), bs)
  }

  lemma {:induction false} TotalsConcat(a: seq<Rec>, b: seq<Rec>, bs: nat)
    requires bs > 0
    ensures TotalBlocks(a + b, bs) == TotalBlocks(a, bs) + TotalBlocks(b, bs)
    ensures TotalSpan(a + b, bs) == TotalSpan(a, bs) + TotalSpan(b, bs)
  {
    if a == [] {
      assert a + b == b;
    } else {
      assert (a + b)[1..] == a[1..] + b;
      TotalsConcat(a[1..], b, bs);
    }
  }

  lemma {:induction false} AssignConcat(a: seq<Rec>, b: seq<Rec>, base: nat, bs: nat)
    requires bs > 0
    ensures Assign(a + b, base, bs) == Assign(a, base, bs) + Assign(b, base + TotalSpan(a, bs), bs)
  {
    if a == [] {
      assert a + b == b;
    } else {
      assert (a + b)[1..] == a[1..] + b;
      AssignConcat(a[1..], b, base + Span(a[0], bs), bs);
    }
  }

  /** Placing the files does not change how much room they take. */
  lemma {:induction false} AssignKeepsTotals(rs: seq<Rec>, base: nat, bs: nat)
    requires bs > 0
    ensures TotalBlocks(Assign(rs, base, bs), bs) == TotalBlocks(rs, bs)
    ensures TotalSpan(Assign(rs, base, bs), bs) == TotalSpan(rs, bs)
  {
    if rs != [] {
      AssignKeepsTotals(rs[1..], base + Span(rs[0], bs), bs);
      assert Assign(rs, base, bs)[1..] == Assign(rs[1..], base + Span(rs[0], bs), bs);
    }
  }

  /** When the block size is a power of two, the room of the files is their blocks. */
  lemma {:induction false} SpanIsBlocks(rs: seq<Rec>, bs: nat)
    requires bs > 0 && IsPow2(bs)
    ensures TotalSpan(rs, bs) == TotalBlocks(rs, bs) * bs
  {
    if rs != [] {
      SpanIsBlocks(rs[1..], bs);
      if rs[0].HasData() { AlignedInBlocks(rs[0].size, bs); }
      Distribute(Blocks(rs[0], bs), TotalBlocks(rs[1..], bs), bs);
    }
  }

  lemma {:induction false} AlignedInBlocks(v: nat, bs: nat)
    requires bs > 0 && IsPow2(bs)
    ensures Aligned(v, bs) == RoundUp(v, bs) == (Aligned(v, bs) / bs) * bs && Aligned(v, bs) % bs == 0
  {
    Pow2Rounds(v, bs);
    DivModUnique(RoundUp(v, bs), bs, BlocksFor(v, bs), 0);
  }

  /** Closed form of the walk: an extent starts after the room of all earlier files. */
  lemma {:induction false} AssignAt(rs: seq<Rec>, base: nat, bs: nat, k: nat)
    requires bs > 0 && k < |rs|
    ensures Assign(rs, base, bs)[k] == Place(rs[k], base + TotalSpan(rs[..k], bs))
  {
    AssignConcat(rs[..k], rs[k..], base, bs);
    assert rs[..k] + rs[k..] == rs;
  }

  /** `x` lies in the block-padded extent of record `k`. */
  predicate InExtent(rs: seq<Rec>, bs: nat, k: nat, x: nat)
    requires bs > 0 && k < |rs|
  {
    rs[k].HasData() && rs[k].offset <= x < rs[k].offset + Aligned(rs[k].size, bs)
  }

  lemma {:induction false} SpanPrefix(rs: seq<Rec>, bs: nat, j: nat, k: nat)
    requires bs > 0 && j <= k <= |rs|
    ensures TotalSpan(rs[..j], bs) <= TotalSpan(rs[..k], bs)
    ensures j < k ==> TotalSpan(rs[..j], bs) + Span(rs[j], bs) <= TotalSpan(rs[..k], bs)
  {
    assert rs[..k] == rs[..j] + rs[j..k];
    TotalsConcat(rs[..j], rs[j..k], bs);
  }

  /** Extents lie inside the data area. When the block size is a power of two, they are
      aligned to it as far as the base is. */
  lemma {:induction false} ExtentBounds(rs: seq<Rec>, base: nat, bs: nat, k: nat)
    requires bs > 0 && k < |rs| && rs[k].HasData()
    ensures var r := Assign(rs, base, bs)[k];
            && r == rs[k].(offset := base + TotalSpan(rs[..k], bs))
            && base <= r.offset
            && r.offset + Aligned(r.size, bs) <= base + TotalSpan(rs, bs)
            && (IsPow2(bs) && base % bs == 0 ==> r.offset % bs == 0)
  {
    AssignAt(rs, base, bs, k);
    SpanPrefix(rs, bs, k, |rs|);
    assert rs[..|rs|] == rs;
    if IsPow2(bs) && base % bs == 0 {
      SpanIsBlocks(rs[..k], bs);
      AlignedOffset(base, TotalBlocks(rs[..k], bs), bs);
    }
  }

  /** Extents are pairwise disjoint, in pre-order. */
  lemma {:induction false} ExtentsDisjoint(rs: seq<Rec>, base: nat, bs: nat, j: nat, k: nat)
    requires bs > 0 && j < k < |rs|
    requires rs[j].HasData() && rs[k].HasData()
    ensures var out := Assign(rs, base, bs);
            out[j].offset + Aligned(out[j].size, bs) <= out[k].offset
  {
    AssignAt(rs, base, bs, j);
    AssignAt(rs, base, bs, k);
    SpanPrefix(rs, bs, j, k);
  }

  lemma {:induction false} Distribute(x: nat, y: nat, bs: nat)
    ensures (x + y) * bs == x * bs + y * bs
  {
  }

  lemma {:induction false} AlignedOffset(base: nat, p: nat, bs: nat)
    requires bs > 0 && base % bs == 0
    ensures (base + p * bs) % bs == 0
  {
    var q := base / bs;
    assert base == q * bs;
    Distribute(q, p, bs);
    DivModUnique(base + p * bs, bs, q + p, 0);
  }

  lemma {:induction false} ExtentCovering(rs: seq<Rec>, base: nat, bs: nat, x: nat) returns (k: nat)
    requires bs > 0 && base <= x < base + TotalSpan(rs, bs)
    ensures k < |rs| && InExtent(Assign(rs, base, bs), bs, k, x)
  {
    var next := base + Span(rs[0], bs);
    if x < next {
      k := 0;
    } else {
      k := ExtentCovering(rs[1..], next, bs, x);
      k := k + 1;
    }
  }

  /** The extents leave no hole: every byte of the data area is in exactly one of
      them, and no other byte is in any. */
  lemma {:induction false} ExtentsTile(rs: seq<Rec>, base: nat, bs: nat, x: nat)
    requires bs > 0
    ensures base <= x < base + TotalSpan(rs, bs) <==>
            exists k: nat :: k < |rs| && InExtent(Assign(rs, base, bs), bs, k, x)
    ensures forall j: nat, k: nat ::
              j < |rs| && k < |rs|
              && InExtent(Assign(rs, base, bs), bs, j, x) && InExtent(Assign(rs, base, bs), bs, k, x)
              ==> j == k
  {
    if base <= x < base + TotalSpan(rs, bs) {
      var k := ExtentCovering(rs, base, bs, x);
      assert InExtent(Assign(rs, base, bs), bs, k, x);
    }
    if k: nat :| k < |rs| && InExtent(Assign(rs, base, bs), bs, k, x) {
      AssignAt(rs, base, bs, k);
      ExtentBounds(rs, base, bs, k);
    }
    forall j: nat, k: nat | j < k < |rs|
      ensures !InExtent(Assign(rs, base, bs), bs, j, x) || !InExtent(Assign(rs, base, bs), bs, k, x)
    {
      AssignAt(rs, base, bs, j);
      AssignAt(rs, base, bs, k);
      if rs[j].HasData() && rs[k].HasData() { ExtentsDisjoint(rs, base, bs, j, k); }
    }
  }

  // ----- sizes -----

  function BitmapSize(blocks: nat, bs: nat): nat
    requires bs > 0
  {
    Aligned(blocks / 8, bs)
  }

  function MetadataSize(inodes: nat, blocks: nat, bs: nat): nat
    requires bs > 0
  {
    PFS_HEADER_SIZE + INODE_SIZE * inodes + BitmapSize(blocks, bs)
  }

  function DataOffset(inodes: nat, blocks: nat, bs: nat): nat
    requires bs > 0
  {
    Aligned(MetadataSize(inodes, blocks, bs), bs)
  }

  function CalculatedSize(inodes: nat, blocks: nat, bs: nat): nat
    requires bs > 0
  {
    MetadataSize(inodes, blocks, bs) + blocks * bs
  }

  function DataEnd(rs: seq<Rec>, bs: nat): nat
    requires bs > 0
  {
    DataOffset(|rs|, TotalBlocks(rs, bs), bs) + TotalSpan(rs, bs)
  }

  /** The announced size falls short of the end of the data by the padding in front of
      it, which is less than one block, and by what the files take beyond their counted
      blocks. With a power of two the latter is nothing, and the padding is nothing
      exactly when header and inode table fill whole blocks. */
  lemma {:induction false} CalculatedSizeShortfall(rs: seq<Rec>, bs: nat)
    requires bs > 0
    ensures var n, blocks := |rs|, TotalBlocks(rs, bs);
            var padding := DataOffset(n, blocks, bs) - MetadataSize(n, blocks, bs);
            && DataEnd(rs, bs) - CalculatedSize(n, blocks, bs) == padding + (TotalSpan(rs, bs) - blocks * bs)
            && 0 <= padding < bs
            && (IsPow2(bs) ==> TotalSpan(rs, bs) == blocks * bs
                               && (padding == 0 <==> (PFS_HEADER_SIZE + INODE_SIZE * n) % bs == 0))
  {
    if IsPow2(bs) {
      SpanIsBlocks(rs, bs);
      MetadataPadding(|rs|, TotalBlocks(rs, bs), bs);
    }
  }

  lemma {:induction false} MetadataPadding(inodes: nat, blocks: nat, bs: nat)
    requires bs > 0 && IsPow2(bs)
    ensures DataOffset(inodes, blocks, bs) == MetadataSize(inodes, blocks, bs)
            <==> (PFS_HEADER_SIZE + INODE_SIZE * inodes) % bs == 0
  {
    var h, b, m := PFS_HEADER_SIZE + INODE_SIZE * inodes, BitmapSize(blocks, bs) / bs, MetadataSize(inodes, blocks, bs);
    AlignedInBlocks(blocks / 8, bs);
    ModShift(h, b, bs);
    AlignedFixes(m, bs);
  }

  /** Multiples of a power of two are what aligning to it leaves alone. */
  lemma {:induction false} AlignedFixes(v: nat, bs: nat)
    requires bs > 0 && IsPow2(bs)
    ensures Aligned(v, bs) == v <==> v % bs == 0
  {
    AlignedInBlocks(v, bs);
    if v % bs == 0 { RoundUpIsLeast(v, bs, v); }
  }

  lemma {:induction false} ModShift(h: nat, b: nat, bs: nat)
    requires bs > 0
    ensures (h + b * bs) % bs == h % bs
  {
    var q, r := h / bs, h % bs;
    assert h == q * bs + r;
    Distribute(q, b, bs);
    DivModUnique(h + b * bs, bs, q + b, r);
  }

  /** The bitmap buffer is sized from `blocks / 8` but filled for `(blocks + 7) / 8`
      bytes. The fill stays inside the buffer exactly when no block is left over or
      aligning leaves room. */
  lemma {:induction false} BitmapFillFits(blocks: nat, bs: nat)
    requires bs > 0
    ensures (blocks + 7) / 8 <= BitmapSize(blocks, bs) <==> blocks % 8 == 0 || Aligned(blocks / 8, bs) != blocks / 8
    ensures IsPow2(bs) ==> (Aligned(blocks / 8, bs) != blocks / 8 <==> (blocks / 8) % bs != 0)
  {
    if IsPow2(bs) { AlignedFixes(blocks / 8, bs); }
  }

  // ----- the bitmap, as far as the file sees it -----

  /** The bytes that leave the bitmap buffer: the fill, cut at the end of the buffer. */
  function BitmapBytes(blocks: nat, bs: nat): (b: Bytes)
    requires bs > 0
    ensures |b| == BitmapSize(blocks, bs)
  {
    seq(BitmapSize(blocks, bs), i requires 0 <= i => if i < (blocks + 7) / 8 then 0xFF else 0)
  }

  // ----- streaming file data -----

  type Disk = map<Path, Bytes>

  /** The copy loop can deliver the announced number of bytes. */
  predicate Copyable(r: Rec, disk: Disk) {
    r.Streamed() ==> r.src.value in disk && r.size <= |disk[r.src.value]|
  }

  predicate AllCopyable(rs: seq<Rec>, disk: Disk) {
    forall k: nat :: k < |rs| ==> Copyable(rs[k], disk)
  }

  function Payload(r: Rec, bs: nat, disk: Disk): (p: Bytes)
    requires bs > 0 && Copyable(r, disk) && r.Streamed()
    ensures |p| == Aligned(r.size, bs)
  {
    disk[r.src.value][..r.size] + Zeros(Aligned(r.size, bs) - r.size)
  }

  function PutOne(data: Bytes, r: Rec, bs: nat, disk: Disk): Bytes
    requires bs > 0 && Copyable(r, disk)
  {
    if r.Streamed() then WriteAt(data, r.offset, Payload(r, bs, disk)) else data
  }

  /** The file after streaming every record's data. */
  function PutData(data: Bytes, rs: seq<Rec>, bs: nat, disk: Disk): Bytes
    requires bs > 0 && AllCopyable(rs, disk)
    decreases |rs|
  {
    if rs == [] then data
    else PutData(PutOne(data, rs[0], bs, disk), rs[1..], bs, disk)
  }

  /** The file position after streaming every record's data. */
  function PosAfter(pos: nat, rs: seq<Rec>, bs: nat): nat
    requires bs > 0
    decreases |rs|
  {
    if rs == [] then pos
    else PosAfter(if rs[0].Streamed() then rs[0].offset + Aligned(rs[0].size, bs) else pos, rs[1..], bs)
  }

  lemma {:induction false} PutDataConcat(data: Bytes, a: seq<Rec>, b: seq<Rec>, bs: nat, disk: Disk)
    requires bs > 0 && AllCopyable(a + b, disk)
    ensures AllCopyable(a, disk) && AllCopyable(b, disk)
    ensures PutData(data, a + b, bs, disk) == PutData(PutData(data, a, bs, disk), b, bs, disk)
    decreases |a|
  {
    assert forall k: nat :: k < |a| ==> (a + b)[k] == a[k];
    assert forall k: nat :: k < |b| ==> (a + b)[|a| + k] == b[k];
    if a == [] {
      assert a + b == b;
    } else {
      assert (a + b)[1..] == a[1..] + b;
      PutDataConcat(PutOne(data, a[0], bs, disk), a[1..], b, bs, disk);
    }
  }

  lemma {:induction false} PosAfterConcat(pos: nat, a: seq<Rec>, b: seq<Rec>, bs: nat)
    requires bs > 0
    ensures PosAfter(pos, a + b, bs) == PosAfter(PosAfter(pos, a, bs), b, bs)
    decreases |a|
  {
    if a == [] {
      assert a + b == b;
    } else {
      assert (a + b)[1..] == a[1..] + b;
      PosAfterConcat(if a[0].Streamed() then a[0].offset + Aligned(a[0].size, bs) else pos, a[1..], b, bs);
    }
  }

  /** Every file that has bytes also has a source, as the directory scan leaves them. */
  predicate AllSourced(rs: seq<Rec>) {
    forall k: nat :: k < |rs| && rs[k].HasData() ==> rs[k].Streamed()
  }

  /** Streaming placed records keeps everything before the first extent. */
  lemma {:induction false} PutDataKeepsBelow(data: Bytes, rs: seq<Rec>, base: nat, bs: nat, disk: Disk, lo: nat,
                                             b: Bytes)
    requires bs > 0 && AllCopyable(Assign(rs, base, bs), disk)
    requires Holds(data, lo, b) && lo + |b| <= base
    ensures Holds(PutData(data, Assign(rs, base, bs), bs, disk), lo, b)
    decreases |rs|
  {
    if rs != [] {
      var out := Assign(rs, base, bs);
      var next := base + Span(rs[0], bs);
      assert out[1..] == Assign(rs[1..], next, bs);
      if out[0].Streamed() {
        WriteKeeps(data, base, Payload(out[0], bs, disk), lo, b);
      }
      PutDataKeepsBelow(PutOne(data, out[0], bs, disk), rs[1..], next, bs, disk, lo, b);
    }
  }

  /** After all streaming writes each file's bytes are at its extent, followed by
      zeros up to the block boundary. */
  lemma {:induction false} PutDataReadsBack(data: Bytes, rs: seq<Rec>, base: nat, bs: nat, disk: Disk, k: nat)
    requires bs > 0 && k < |rs| && AllCopyable(Assign(rs, base, bs), disk)
    requires rs[k].Streamed()
    ensures var r := Assign(rs, base, bs)[k];
            r.Streamed() && Holds(PutData(data, Assign(rs, base, bs), bs, disk), r.offset, Payload(r, bs, disk))
    decreases |rs|
  {
    var out := Assign(rs, base, bs);
    var next := base + Span(rs[0], bs);
    assert out[1..] == Assign(rs[1..], next, bs);
    var d := PutOne(data, out[0], bs, disk);
    if k == 0 {
      var p := Payload(out[0], bs, disk);
      WriteHolds(data, base, p);
      PutDataKeepsBelow(d, rs[1..], next, bs, disk, base, p);
    } else {
      assert rs[1..][k - 1] == rs[k];
      PutDataReadsBack(d, rs[1..], next, bs, disk, k - 1);
    }
  }

  /** All file data in pre-order, each file padded to its extent. */
  function DataArea(rs: seq<Rec>, bs: nat, disk: Disk): Bytes
    requires bs > 0 && AllCopyable(rs, disk)
    decreases |rs|
  {
    if rs == [] then []
    else (if rs[0].Streamed() then Payload(rs[0], bs, disk) else []) + DataArea(rs[1..], bs, disk)
  }

  lemma {:induction false} DataAreaLength(rs: seq<Rec>, bs: nat, disk: Disk)
    requires bs > 0 && AllCopyable(rs, disk) && AllSourced(rs)
    ensures |DataArea(rs, bs, disk)| == TotalSpan(rs, bs)
    decreases |rs|
  {
    if rs != [] { DataAreaLength(rs[1..], bs, disk); }
  }

  lemma {:induction false} AssignSourced(rs: seq<Rec>, base: nat, bs: nat)
    requires bs > 0 && AllSourced(rs)
    ensures AllSourced(Assign(rs, base, bs))
  {
    forall k: nat | k < |rs| && Assign(rs, base, bs)[k].HasData()
      ensures Assign(rs, base, bs)[k].Streamed()
    {
      AssignAt(rs, base, bs, k);
    }
  }

  /** After all streaming writes the data area is the padded files one behind the other. */
  lemma {:induction false} DataAreaReadsBack(data: Bytes, rs: seq<Rec>, base: nat, bs: nat, disk: Disk)
    requires bs > 0 && AllCopyable(Assign(rs, base, bs), disk) && AllSourced(rs) && TotalSpan(rs, bs) > 0
    ensures Holds(PutData(data, Assign(rs, base, bs), bs, disk), base, DataArea(Assign(rs, base, bs), bs, disk))
    decreases |rs|
  {
    var out := Assign(rs, base, bs);
    var next := base + Span(rs[0], bs);
    assert out[1..] == Assign(rs[1..], next, bs);
    var d := PutOne(data, out[0], bs, disk);
    var first := if rs[0].HasData() then Payload(out[0], bs, disk) else [];
    AreaSplits(rs, base, bs, disk);
    if rs[0].HasData() { PutDataReadsBack(data, rs, base, bs, disk, 0); }
    if TotalSpan(rs[1..], bs) > 0 { DataAreaReadsBack(d, rs[1..], next, bs, disk); }
    AreaJoins(PutData(d, out[1..], bs, disk), base, first, DataArea(out[1..], bs, disk));
  }

  /** The first file and the rest of the data area. */
  lemma {:induction false} AreaSplits(rs: seq<Rec>, base: nat, bs: nat, disk: Disk)
    requires rs != [] && bs > 0 && AllCopyable(Assign(rs, base, bs), disk) && AllSourced(rs)
    ensures var out := Assign(rs, base, bs);
            var first := if rs[0].HasData() then Payload(out[0], bs, disk) else [];
            && DataArea(out, bs, disk) == first + DataArea(out[1..], bs, disk)
            && |first| == Span(rs[0], bs) && |DataArea(out[1..], bs, disk)| == TotalSpan(rs[1..], bs)
  {
    var next := base + Span(rs[0], bs);
    assert Assign(rs, base, bs)[1..] == Assign(rs[1..], next, bs);
    AssignSourced(rs[1..], next, bs);
    AssignKeepsTotals(rs[1..], next, bs);
    DataAreaLength(Assign(rs[1..], next, bs), bs, disk);
  }

  lemma {:induction false} AreaJoins(data: Bytes, base: nat, first: Bytes, rest: Bytes)
    requires first != [] ==> Holds(data, base, first)
    requires rest != [] ==> Holds(data, base + |first|, rest)
    requires first + rest != []
    ensures Holds(data, base, first + rest)
  {
    if first == [] {
      assert first + rest == rest;
    } else if rest == [] {
      assert first + rest == first;
    } else {
      HoldsConcat(data, base, first, rest);
    }
  }

  /** Without file data nothing is streamed. */
  lemma {:induction false} NothingStreamed(data: Bytes, rs: seq<Rec>, base: nat, bs: nat, disk: Disk)
    requires bs > 0 && AllCopyable(Assign(rs, base, bs), disk) && TotalSpan(rs, bs) == 0
    ensures PutData(data, Assign(rs, base, bs), bs, disk) == data
    decreases |rs|
  {
    if rs != [] {
      assert Assign(rs, base, bs)[1..] == Assign(rs[1..], base, bs);
      NothingStreamed(data, rs[1..], base, bs, disk);
    }
  }

  lemma {:induction false} PutOneLength(data: Bytes, r: Rec, base: nat, bs: nat, disk: Disk)
    requires bs > 0 && Copyable(Place(r, base), disk) && (r.HasData() ==> r.Streamed())
    ensures |PutOne(data, Place(r, base), bs, disk)| == Grown(|data|, base, Span(r, bs))
    ensures r.HasData() <==> Span(r, bs) > 0
  {
    if r.HasData() {
      WriteAtLength(data, base, Payload(Place(r, base), bs, disk));
    }
  }

  function Grown(len: nat, base: nat, span: nat): nat {
    if span > 0 then Max(len, base + span) else len
  }

  /** Length of the file after streaming. */
  lemma {:induction false} PutDataLength(data: Bytes, rs: seq<Rec>, base: nat, bs: nat, disk: Disk)
    requires bs > 0 && AllCopyable(Assign(rs, base, bs), disk) && AllSourced(rs)
    ensures |PutData(data, Assign(rs, base, bs), bs, disk)| == Grown(|data|, base, TotalSpan(rs, bs))
    decreases |rs|
  {
    if rs != [] {
      var out := Assign(rs, base, bs);
      var next := base + Span(rs[0], bs);
      assert out[1..] == Assign(rs[1..], next, bs);
      assert Copyable(out[0], disk);
      PutOneLength(data, rs[0], base, bs, disk);
      PutDataLength(PutOne(data, out[0], bs, disk), rs[1..], next, bs, disk);
    }
  }

  /** File position after streaming: the end of the data area. */
  lemma {:induction false} PosAfterEnd(pos: nat, rs: seq<Rec>, base: nat, bs: nat)
    requires bs > 0 && AllSourced(rs)
    ensures var span := TotalSpan(rs, bs);
            PosAfter(pos, Assign(rs, base, bs), bs) == if span > 0 then base + span else pos
    decreases |rs|
  {
    if rs != [] {
      var next := base + Span(rs[0], bs);
      assert Assign(rs, base, bs)[1..] == Assign(rs[1..], next, bs);
      PosAfterEnd(if rs[0].HasData() then next else pos, rs[1..], next, bs);
    }
  }
}
