/**
 * Building and writing the PFS image: layout, inode table, bitmap and streamed file
 * data. Every write goes through an output file with seeks.
 */
module PfsBuilder {
  import opened Words
  import opened ByteFile
  import opened PfsLayout
  import opened PfsTree
  import opened PfsScan

  const DEFAULT_BLOCK_SIZE: nat := 65536
  const PFS_MAGIC: nat := 0x20534650
  const PFS_VERSION: nat := 1
  const CHUNK: nat := 4 * 1024 * 1024
  const PAD_CHUNK: nat := 4096

  // ----- packed records as lists of fields -----

  datatype Field = Field(at: nat, bytes: Bytes)

  /** Store the fields one after the other into a buffer. */
  function Store(data: Bytes, fs: seq<Field>): Bytes
    decreases |fs|
  {
    if fs == [] then data else Store(WriteAt(data, fs[0].at, fs[0].bytes), fs[1..])
  }

  /** Non-empty fields at ascending, non-overlapping places inside `size` bytes. */
  predicate FieldsFit(fs: seq<Field>, size: nat) {
    forall k: nat :: k < |fs| ==> FieldFits(fs, size, k)
  }

  predicate FieldFits(fs: seq<Field>, size: nat, k: nat)
    requires k < |fs|
  {
    fs[k].bytes != [] && fs[k].at + |fs[k].bytes| <= if k + 1 < |fs| then fs[k + 1].at else size
  }

  lemma {:induction false} FieldsAscend(fs: seq<Field>, size: nat, j: nat, k: nat)
    requires FieldsFit(fs, size) && j < k < |fs|
    ensures fs[j].at + |fs[j].bytes| <= fs[k].at
  {
    assert FieldFits(fs, size, k - 1);
    if j + 1 < k { FieldsAscend(fs, size, j, k - 1); }
  }

  lemma {:induction false} FieldInside(fs: seq<Field>, size: nat, k: nat)
    requires FieldsFit(fs, size) && k < |fs|
    ensures fs[k].at + |fs[k].bytes| <= size
  {
    var last := |fs| - 1;
    assert FieldFits(fs, size, last);
    if k < last { FieldsAscend(fs, size, k, last); }
  }

  lemma {:induction false} StoreStep(data: Bytes, fs: seq<Field>, k: nat)
    requires k < |fs|
    ensures Store(data, fs[k..]) == Store(WriteAt(data, fs[k].at, fs[k].bytes), fs[k + 1..])
    ensures fs[0..] == fs && Store(data, fs[|fs|..]) == data
  {
    assert fs[k..][1..] == fs[k + 1..];
    assert fs[|fs|..] == [];
  }

  /** Storing the later fields keeps an earlier one. */
  lemma {:induction false} StoreKeeps(data: Bytes, fs: seq<Field>, j: nat, k: nat)
    requires FieldsFit(fs, |data|) && j < k <= |fs| && Holds(data, fs[j].at, fs[j].bytes)
    ensures |Store(data, fs[k..])| == |data| && Holds(Store(data, fs[k..]), fs[j].at, fs[j].bytes)
    decreases |fs| - k
  {
    if k < |fs| {
      FieldsAscend(fs, |data|, j, k);
      FieldInside(fs, |data|, k);
      WriteAtLength(data, fs[k].at, fs[k].bytes);
      WriteKeeps(data, fs[k].at, fs[k].bytes, fs[j].at, fs[j].bytes);
      StoreStep(data, fs, k);
      StoreKeeps(WriteAt(data, fs[k].at, fs[k].bytes), fs, j, k + 1);
    }
  }

  /** Every stored field reads back, and the buffer keeps its size. */
  lemma {:induction false} StoreReadsBack(data: Bytes, fs: seq<Field>, k: nat, i: nat)
    requires FieldsFit(fs, |data|) && i <= k < |fs|
    ensures |Store(data, fs[i..])| == |data|
    ensures Holds(Store(data, fs[i..]), fs[k].at, fs[k].bytes)
    decreases k - i
  {
    FieldInside(fs, |data|, i);
    var d := WriteAt(data, fs[i].at, fs[i].bytes);
    WriteAtLength(data, fs[i].at, fs[i].bytes);
    assert FieldFits(fs, |data|, i);
    StoreStep(data, fs, i);
    if i == k {
      WriteHolds(data, fs[i].at, fs[i].bytes);
      StoreKeeps(d, fs, i, i + 1);
    } else {
      StoreReadsBack(d, fs, k, i + 1);
    }
  }

  /** Storing fields keeps what is behind all of them. */
  lemma {:induction false} StoreKeepsBehind(data: Bytes, fs: seq<Field>, size: nat, lo: nat, b: Bytes, k: nat)
    requires FieldsFit(fs, size) && size <= lo && k <= |fs| && Holds(data, lo, b)
    ensures Holds(Store(data, fs[k..]), lo, b)
    decreases |fs| - k
  {
    if k < |fs| {
      FieldInside(fs, size, k);
      WriteKeeps(data, fs[k].at, fs[k].bytes, lo, b);
      StoreStep(data, fs, k);
      StoreKeepsBehind(WriteAt(data, fs[k].at, fs[k].bytes), fs, size, lo, b, k + 1);
    }
  }

  method StoreBytes(buf: array<Byte>, at: nat, b: Bytes)
    requires at + |b| <= buf.Length
    modifies buf
    ensures buf[..] == WriteAt(old(buf[..]), at, b)
  {
    forall i | 0 <= i < |b| {
      buf[at + i] := b[i];
    }
  }

  // ----- the inode record -----

  /** strncpy into a 32-byte field */
  function NameField(name: Bytes): (f: Bytes)
    ensures |f| == 32
  {
    if |name| >= 32 then name[..32] else name + Zeros(32 - |name|)
  }

  function InodeField(r: Rec, k: nat): Field {
    match k
    case 0 => Field(0, LE(r.mode, 4))
    case 1 => Field(4, LE(r.nlink, 4))
    case 2 => Field(8, LE(r.flags, 4))
    case 3 => Field(16, LE(r.size, 8))
    case 4 => Field(24, LE(r.sizeCompressed, 8))
    case 5 => Field(32, LE(r.offset, 8))
    case 6 => Field(40, LE(r.ino, 8))
    case _ => Field(48, NameField(r.name))
  }

  function InodeFields(r: Rec): seq<Field> {
    seq(8, k requires 0 <= k => InodeField(r, k))
  }

  function InodeBytes(r: Rec): Bytes {
    Store(Zeros(INODE_SIZE), InodeFields(r))
  }

  /** What a reader of the 256-byte record sees at the documented offsets. */
  datatype Decoded = Decoded(mode: nat, nlink: nat, flags: nat, size: nat, sizeCompressed: nat,
                             offset: nat, ino: nat, nameField: Bytes)

  function Decode(b: Bytes): Decoded
    requires |b| == INODE_SIZE
  {
    Decoded(Value(b[0..4]), Value(b[4..8]), Value(b[8..12]), Value(b[16..24]), Value(b[24..32]),
            Value(b[32..40]), Value(b[40..48]), b[48..80])
  }

  predicate InWidth(r: Rec) {
    r.mode < TWO32 && r.nlink < TWO32 && r.flags < TWO32
    && r.size < TWO64 && r.sizeCompressed < TWO64 && r.offset < TWO64 && r.ino < TWO64
  }

  lemma {:induction false} InodeFieldsFit(r: Rec)
    ensures FieldsFit(InodeFields(r), INODE_SIZE)
  {
  }

  lemma {:induction false} InodeFieldHolds(r: Rec, k: nat)
    requires k < 8
    ensures |InodeBytes(r)| == INODE_SIZE
    ensures Holds(InodeBytes(r), InodeFields(r)[k].at, InodeFields(r)[k].bytes)
  {
    InodeFieldsFit(r);
    StoreReadsBack(Zeros(INODE_SIZE), InodeFields(r), k, 0);
    assert InodeFields(r)[0..] == InodeFields(r);
  }

  /** The record starts with the low byte of the mode and is zero behind the name. */
  lemma {:induction false} InodeByte(r: Rec, i: nat)
    requires i == 0 || 80 <= i < INODE_SIZE
    ensures |InodeBytes(r)| == INODE_SIZE && InodeBytes(r)[i] == if i == 0 then r.mode % 0x100 else 0
  {
    InodeFieldHolds(r, 0);
    if i == 0 {
      assert InodeBytes(r)[0..4][0] == LE(r.mode, 4)[0];
    } else {
      var fs := InodeFields(r);
      assert Zeros(INODE_SIZE)[i..i + 1] == [0];
      assert fs[0..] == fs;
      StoreKeepsBehind(Zeros(INODE_SIZE), fs, 80, i, [0], 0);
      assert InodeBytes(r)[i] == InodeBytes(r)[i..i + 1][0];
    }
  }

  /** Decoding a written record gives the node's fields and the first 32 name bytes. */
  lemma {:induction false} InodeRoundTrip(r: Rec)
    requires InWidth(r)
    ensures |InodeBytes(r)| == INODE_SIZE
    ensures Decode(InodeBytes(r))
         == Decoded(r.mode, r.nlink, r.flags, r.size, r.sizeCompressed, r.offset, r.ino, NameField(r.name))
  {
    InodeFieldHolds(r, 0); ReadU32(r.mode);
    InodeFieldHolds(r, 1); ReadU32(r.nlink);
    InodeFieldHolds(r, 2); ReadU32(r.flags);
    InodeFieldHolds(r, 3); ReadU64(r.size);
    InodeFieldHolds(r, 4); ReadU64(r.sizeCompressed);
    InodeFieldHolds(r, 5); ReadU64(r.offset);
    InodeFieldHolds(r, 6); ReadU64(r.ino);
    InodeFieldHolds(r, 7);
  }

  function Table(rs: seq<Rec>): Bytes {
    if rs == [] then [] else InodeBytes(rs[0]) + Table(rs[1..])
  }

  lemma {:induction false} TableConcat(a: seq<Rec>, b: seq<Rec>)
    ensures Table(a + b) == Table(a) + Table(b)
  {
    if a == [] {
      assert a + b == b;
    } else {
      assert (a + b)[1..] == a[1..] + b;
      TableConcat(a[1..], b);
    }
  }

  lemma {:induction false} TableLength(rs: seq<Rec>)
    ensures |Table(rs)| == INODE_SIZE * |rs|
  {
    if rs != [] {
      InodeFieldHolds(rs[0], 0);
      TableLength(rs[1..]);
    }
  }

  /** Record `k` of the table starts at byte 256 * k. */
  lemma {:induction false} TableAt(data: Bytes, lo: nat, rs: seq<Rec>, k: nat)
    requires Holds(data, lo, Table(rs)) && k < |rs|
    ensures Holds(data, lo + INODE_SIZE * k, InodeBytes(rs[k]))
    decreases k
  {
    InodeFieldHolds(rs[0], 0);
    HoldsPart(data, lo, InodeBytes(rs[0]), Table(rs[1..]));
    if k > 0 { TableAt(data, lo + INODE_SIZE, rs[1..], k - 1); }
  }

  /** write_inode */
  method WriteInode(out: OutFile, node: Inode, ghost base: Bytes, ghost start: nat, ghost written: Bytes)
    requires out.data == WriteAt(base, start, written) && out.pos == start + |written|
    modifies out
    ensures out.data == WriteAt(base, start, written + InodeBytes(node.Snap()))
    ensures out.pos == start + |written + InodeBytes(node.Snap())|
  {
    ghost var r := node.Snap();
    var buf := new Byte[INODE_SIZE](_ => 0);
    assert buf[..] == Zeros(INODE_SIZE);
    StoreBytes(buf, 0, LE(node.mode, 4));
    StoreBytes(buf, 4, LE(node.nlink, 4));
    StoreBytes(buf, 8, LE(node.flags, 4));
    StoreBytes(buf, 16, LE(node.size, 8));
    StoreBytes(buf, 24, LE(node.sizeCompressed, 8));
    StoreBytes(buf, 32, LE(node.offset, 8));
    StoreBytes(buf, 40, LE(node.ino, 8));
    StoreBytes(buf, 48, NameField(node.name));
    EightStores(r);
    out.WriteMore(buf[..], base, start, written);
  }

  lemma {:induction false} EightStores(r: Rec)
    ensures InodeBytes(r) ==
            WriteAt(WriteAt(WriteAt(WriteAt(WriteAt(WriteAt(WriteAt(WriteAt(Zeros(INODE_SIZE),
              0, LE(r.mode, 4)), 4, LE(r.nlink, 4)), 8, LE(r.flags, 4)), 16, LE(r.size, 8)),
              24, LE(r.sizeCompressed, 8)), 32, LE(r.offset, 8)), 40, LE(r.ino, 8)), 48, NameField(r.name))
  {
    var fs := InodeFields(r);
    var d1 := WriteAt(Zeros(INODE_SIZE), 0, fs[0].bytes);
    var d2 := WriteAt(d1, 4, fs[1].bytes);
    var d3 := WriteAt(d2, 8, fs[2].bytes);
    var d4 := WriteAt(d3, 16, fs[3].bytes);
    var d5 := WriteAt(d4, 24, fs[4].bytes);
    var d6 := WriteAt(d5, 32, fs[5].bytes);
    var d7 := WriteAt(d6, 40, fs[6].bytes);
    StoreStep(d7, fs, 7);
    StoreStep(d6, fs, 6);
    StoreStep(d5, fs, 5);
    StoreStep(d4, fs, 4);
    StoreStep(d3, fs, 3);
    StoreStep(d2, fs, 2);
    StoreStep(d1, fs, 1);
    StoreStep(Zeros(INODE_SIZE), fs, 0);
  }

  /** write_inodes_recursive. `base` and `start` are the file and position before the
      first record of the table, `written` the records already in it. */
  method WriteInodes(out: OutFile, node: Inode, ghost s: Shape, ghost rs: seq<Rec>,
                     ghost base: Bytes, ghost start: nat, ghost written: seq<Rec>)
    requires node == s.node && Linked(Pre(s)) && rs == Snaps(Pre(s))
    requires out.data == WriteAt(base, start, Table(written)) && out.pos == start + |Table(written)|
    modifies out
    ensures out.data == WriteAt(base, start, Table(written + rs)) && out.pos == start + |Table(written + rs)|
    decreases s
  {
    EnterTree(s);
    ghost var rest, done, recs := s.kids, written + [node.Snap()], Snaps(PreAll(s.kids));
    Assoc(written, [node.Snap()], recs);
    TableOne(written, node.Snap());
    assert Linked(PreAll(rest)) && Snaps(PreAll(rest)) == recs;
    WriteInode(out, node, base, start, Table(written));
    assert Linked(PreAll(rest)) && Snaps(PreAll(rest)) == recs;
    for i := 0 to |node.children|
      invariant rest == s.kids[i..] && Linked(PreAll(rest)) && Snaps(PreAll(rest)) == recs
      invariant done + recs == written + rs
      invariant out.data == WriteAt(base, start, Table(done)) && out.pos == start + |Table(done)|
    {
      EnterForest(rest);
      ghost var kid, tail := Pre(rest[0]), PreAll(rest[1..]);
      ghost var kidRecs, tailRecs := Snaps(kid), Snaps(tail);
      Assoc(done, kidRecs, tailRecs);
      assert Linked(tail);
      WriteInodes(out, node.children[i], rest[0], kidRecs, base, start, done);
      assert Linked(tail) && Snaps(tail) == tailRecs;
      rest, done, recs := rest[1..], done + kidRecs, tailRecs;
    }
    assert done == written + rs;
  }

  lemma {:induction false} TableOne(rs: seq<Rec>, r: Rec)
    ensures Table(rs + [r]) == Table(rs) + InodeBytes(r)
  {
    TableConcat(rs, [r]);
    assert Table([r]) == InodeBytes(r) + Table([]);
  }

  lemma {:induction false} EnterTree(s: Shape)
    requires Linked(Pre(s))
    ensures s.node.children == Heads(s.kids) && Linked(PreAll(s.kids))
    ensures Snaps(Pre(s)) == [s.node.Snap()] + Snaps(PreAll(s.kids))
  {
    LinkedParts([s], PreAll(s.kids));
    assert Pre(s)[0] == s;
    SnapsConcat([s], PreAll(s.kids));
    assert Snaps([s]) == [s.node.Snap()];
  }

  lemma {:induction false} EnterForest(rest: seq<Shape>)
    requires rest != [] && Linked(PreAll(rest))
    ensures Linked(Pre(rest[0])) && Linked(PreAll(rest[1..]))
    ensures Snaps(PreAll(rest)) == Snaps(Pre(rest[0])) + Snaps(PreAll(rest[1..]))
  {
    LinkedParts(Pre(rest[0]), PreAll(rest[1..]));
    SnapsConcat(Pre(rest[0]), PreAll(rest[1..]));
  }

  // ----- streaming -----

  /** stream_copy_file. Each `fread` may deliver any positive number of bytes up to
      the chunk that are still there; at the end of the source it delivers none. */
  method StreamCopy(out: OutFile, src: Option<Bytes>, size: nat) returns (ok: bool)
    modifies out
    ensures ok <==> src.Some? && size <= |src.value|
    ensures ok ==> out.data == WriteAt(old(out.data), old(out.pos), src.value[..size]) && out.pos == old(out.pos) + size
    ensures !ok && src.Some? ==> out.data == WriteAt(old(out.data), old(out.pos), src.value)
    ensures !ok && src.None? ==> out.data == old(out.data) && out.pos == old(out.pos)
  {
    if src.None? {
      return false;
    }
    var content := src.value;
    var remaining := size;
    var read := 0;
    while remaining > 0
      invariant 0 <= remaining && 0 <= read <= |content| && read + remaining == size
      invariant out.data == WriteAt(old(out.data), old(out.pos), content[..read])
      invariant out.pos == old(out.pos) + read
    {
      var chunk := if remaining < CHUNK then remaining else CHUNK;
      var available := Min(chunk, |content| - read);
      var got: nat;
      if available == 0 {
        got := 0;
      } else {
        got :| 0 < got <= available;
      }
      if got == 0 {
        assert content[..read] == content;
        return false;
      }
      var buf := content[read..read + got];
      assert content[..read] + buf == content[..read + got];
      out.WriteMore(buf, old(out.data), old(out.pos), content[..read]);
      read := read + got;
      remaining := remaining - got;
    }
    ok := true;
  }

  /** The padding loop of write_file_data. */
  method WritePadding(out: OutFile, n: nat)
    modifies out
    ensures out.data == WriteAt(old(out.data), old(out.pos), Zeros(n))
    ensures out.pos == old(out.pos) + n
  {
    var left := n;
    while left > 0
      invariant 0 <= left <= n
      invariant out.data == WriteAt(old(out.data), old(out.pos), Zeros(n - left))
      invariant out.pos == old(out.pos) + (n - left)
    {
      var chunk := if left < PAD_CHUNK then left else PAD_CHUNK;
      assert Zeros(n - left) + Zeros(chunk) == Zeros(n - left + chunk);
      out.WriteMore(Zeros(chunk), old(out.data), old(out.pos), Zeros(n - left));
      left := left - chunk;
    }
  }

  function SourceOf(disk: Disk, p: Path): Option<Bytes> {
    if p in disk then Some(disk[p]) else None
  }

  /** The part of write_file_data that handles the node itself. */
  method WriteOwnData(out: OutFile, node: Inode, bs: nat, disk: Disk, ghost r: Rec) returns (ok: bool)
    requires 0 < bs < TWO64 && r == node.Snap() && r.size + bs <= TWO64
    modifies out
    ensures ok <==> Copyable(r, disk)
    ensures ok ==> out.data == PutOne(old(out.data), r, bs, disk)
    ensures ok ==> out.pos == if r.Streamed() then r.offset + Aligned(r.size, bs) else old(out.pos)
  {
    ok := true;
    if node.kind == File && node.size > 0 && node.srcPath.Some? {
      out.Seek(node.offset);
      ok := StreamCopy(out, SourceOf(disk, node.srcPath.value), node.size);
      if !ok {
        return;
      }
      AlignUpIsAligned(node.size, bs);
      var padded := AlignUp(node.size, bs);
      WritePadding(out, padded - node.size);
      ghost var content := disk[r.src.value][..r.size];
      WriteAtAppend(old(out.data), r.offset, content, Zeros(padded - r.size));
    }
  }

  /** write_file_data: streams in pre-order and stops at the first failure. `base` and
      `start` are the file and position before streaming began, `done` the records
      streamed so far. */
  method WriteFileData(out: OutFile, node: Inode, bs: nat, disk: Disk, ghost s: Shape, ghost rs: seq<Rec>,
                       ghost base: Bytes, ghost start: nat, ghost done: seq<Rec>)
    returns (ok: bool)
    requires node == s.node && Linked(Pre(s)) && rs == Snaps(Pre(s))
    requires 0 < bs < TWO64 && SizesFit(rs, bs) && AllCopyable(done, disk)
    requires out.data == PutData(base, done, bs, disk) && out.pos == PosAfter(start, done, bs)
    modifies out
    ensures ok <==> AllCopyable(done + rs, disk)
    ensures ok ==> out.data == PutData(base, done + rs, bs, disk) && out.pos == PosAfter(start, done + rs, bs)
    decreases s, 0
  {
    EnterRoot(s, bs);
    ghost var rest, sofar, recs := s.kids, done + [node.Snap()], Snaps(PreAll(s.kids));
    assert Linked(PreAll(rest)) && Snaps(PreAll(rest)) == recs;
    ok := StreamOwn(out, node, bs, disk, node.Snap(), recs, base, start, done);
    if !ok {
      return;
    }
    assert Linked(PreAll(rest)) && Snaps(PreAll(rest)) == recs;
    for i := 0 to |node.children|
      invariant rest == s.kids[i..] && Linked(PreAll(rest)) && Snaps(PreAll(rest)) == recs
      invariant sofar + recs == done + rs && SizesFit(recs, bs)
      invariant AllCopyable(sofar, disk)
      invariant out.data == PutData(base, sofar, bs, disk) && out.pos == PosAfter(start, sofar, bs)
    {
      ok, sofar, recs := StreamChild(out, node.children[i], bs, disk, rest, recs, base, start, sofar);
      if !ok {
        return;
      }
      rest := rest[1..];
    }
    assert sofar == done + rs;
  }

  /** The node's own data joins what was streamed before it. */
  method StreamOwn(out: OutFile, node: Inode, bs: nat, disk: Disk, ghost r: Rec, ghost later: seq<Rec>,
                   ghost base: Bytes, ghost start: nat, ghost done: seq<Rec>)
    returns (ok: bool)
    requires 0 < bs < TWO64 && r == node.Snap() && r.size + bs <= TWO64 && AllCopyable(done, disk)
    requires out.data == PutData(base, done, bs, disk) && out.pos == PosAfter(start, done, bs)
    modifies out
    ensures (done + [r]) + later == done + ([r] + later)
    ensures !ok ==> !AllCopyable(done + ([r] + later), disk)
    ensures ok ==> AllCopyable(done + [r], disk)
    ensures ok ==> out.data == PutData(base, done + [r], bs, disk) && out.pos == PosAfter(start, done + [r], bs)
  {
    StreamedOne(base, start, done, r, later, bs, disk);
    ok := WriteOwnData(out, node, bs, disk, r);
  }

  /** The body of the child loop of write_file_data. */
  method StreamChild(out: OutFile, child: Inode, bs: nat, disk: Disk, ghost rest: seq<Shape>, ghost recs: seq<Rec>,
                     ghost base: Bytes, ghost start: nat, ghost done: seq<Rec>)
    returns (ok: bool, ghost done': seq<Rec>, ghost recs': seq<Rec>)
    requires rest != [] && child == rest[0].node && Linked(PreAll(rest)) && Snaps(PreAll(rest)) == recs
    requires 0 < bs < TWO64 && SizesFit(recs, bs) && AllCopyable(done, disk)
    requires out.data == PutData(base, done, bs, disk) && out.pos == PosAfter(start, done, bs)
    modifies out
    ensures done' + recs' == done + recs && SizesFit(recs', bs)
    ensures Linked(PreAll(rest[1..])) && Snaps(PreAll(rest[1..])) == recs'
    ensures !ok ==> !AllCopyable(done + recs, disk)
    ensures ok ==> AllCopyable(done', disk)
    ensures ok ==> out.data == PutData(base, done', bs, disk) && out.pos == PosAfter(start, done', bs)
    decreases rest[0], 1
  {
    EnterFirst(rest, bs);
    ghost var kid, tail := Pre(rest[0]), PreAll(rest[1..]);
    ghost var kidRecs := Snaps(kid);
    recs' := Snaps(tail);
    done' := done + kidRecs;
    Assoc(done, kidRecs, recs');
    CopyablePrefix(done', recs', disk);
    assert Linked(tail);
    ok := WriteFileData(out, child, bs, disk, rest[0], kidRecs, base, start, done);
    assert Linked(tail) && Snaps(tail) == recs';
  }

  lemma {:induction false} StreamedOne(base: Bytes, start: nat, done: seq<Rec>, r: Rec, later: seq<Rec>, bs: nat,
                                       disk: Disk)
    requires bs > 0 && AllCopyable(done, disk)
    ensures (done + [r]) + later == done + ([r] + later)
    ensures AllCopyable(done + [r], disk) <==> Copyable(r, disk)
    ensures AllCopyable(done + ([r] + later), disk) ==> Copyable(r, disk)
    ensures Copyable(r, disk) ==>
              PutData(base, done + [r], bs, disk) == PutOne(PutData(base, done, bs, disk), r, bs, disk)
    ensures PosAfter(start, done + [r], bs) ==
            if r.Streamed() then r.offset + Aligned(r.size, bs) else PosAfter(start, done, bs)
  {
    Assoc(done, [r], later);
    CopyablePrefix(done + [r], later, disk);
    assert forall k: nat :: k < |done| ==> (done + [r])[k] == done[k];
    assert (done + [r])[|done|] == r && [r][1..] == [];
    PosAfterConcat(start, done, [r], bs);
    if Copyable(r, disk) { PutDataConcat(base, done, [r], bs, disk); }
  }

  lemma {:induction false} CopyablePrefix(a: seq<Rec>, b: seq<Rec>, disk: Disk)
    ensures AllCopyable(a + b, disk) ==> AllCopyable(a, disk)
  {
    assert forall k: nat :: k < |a| ==> (a + b)[k] == a[k];
  }
}
