/**
 * Paged directory reads: `___syscall_getdents64` packs records of 280 bytes
 * into a user buffer and remembers the listing and the position in the stream.
 */
module Getdents {
  import opened Words
  import opened ByteFile
  import opened RawBytes
  import opened NameTable
  import opened Utf8
  import MemTree

  const RECORD: nat := 280
  const ENOENT: int := 44

  type NodeId = x: int | 0 <= x < 0x8000_0000_0000_0000

  datatype Child = Child(id: NodeId, kind: Kind)

  /** A directory as the call finds it: its names in order, and what they are. */
  datatype Directory = Directory(self: NodeId, parent: NodeId, names: seq<Name>, node: map<Name, Child>)

  function Snapshot(d: Directory): seq<Name> {
    [MemTree.DOT_NAME, MemTree.DOTDOT_NAME] + d.names
  }

  function ChildOf(d: Directory, name: Name): Option<Child> {
    if name == MemTree.DOT_NAME then Some(Child(d.self, Dir))
    else if name == MemTree.DOTDOT_NAME then Some(Child(d.parent, Dir))
    else if name in d.node then Some(d.node[name])
    else None
  }

  function TypeCode(k: Kind): Byte {
    match k
    case CharDev => 2
    case Dir => 4
    case Link => 10
    case _ => 8
  }

  // ----- records -----

  function RecordHead(id: nat, next: nat, kind: Byte): (b: Bytes)
    ensures |b| == 19
  {
    LE(id, 8) + (LE(next, 8) + (LE(RECORD, 2) + [kind]))
  }

  function RecordBytes(id: nat, next: nat, kind: Byte, name: Name): (b: Bytes)
    ensures 20 <= |b| <= 275
  {
    RecordHead(id, next, kind) + (Encoded(name, 255) + [0])
  }

  /** The heap after the records were put one after the other. */
  function Filled(base: Bytes, dirp: nat, rs: seq<Bytes>): Bytes
    decreases |rs|
  {
    if rs == [] then base
    else WriteAt(Filled(base, dirp, rs[..|rs| - 1]), dirp + RECORD * (|rs| - 1), rs[|rs| - 1])
  }

  predicate RecordSized(rs: seq<Bytes>) {
    forall k: nat :: k < |rs| ==> 0 < |rs[k]| <= RECORD
  }

  /** Every record is where its index says, and nothing else has changed. */
  lemma {:induction false} FilledLength(base: Bytes, dirp: nat, rs: seq<Bytes>)
    requires RecordSized(rs) && dirp + RECORD * |rs| <= |base|
    ensures |Filled(base, dirp, rs)| == |base|
    decreases |rs|
  {
    if rs != [] {
      var front := rs[..|rs| - 1];
      assert RecordSized(front);
      FilledLength(base, dirp, front);
      WriteAtLength(Filled(base, dirp, front), dirp + RECORD * |front|, rs[|rs| - 1]);
    }
  }

  lemma {:induction false} FilledHolds(base: Bytes, dirp: nat, rs: seq<Bytes>, k: nat)
    requires RecordSized(rs) && dirp + RECORD * |rs| <= |base| && k < |rs|
    ensures Holds(Filled(base, dirp, rs), dirp + RECORD * k, rs[k])
    decreases |rs|
  {
    var n := |rs| - 1;
    var front := rs[..n];
    assert RecordSized(front);
    if k < n { FilledHolds(base, dirp, front, k); }
    assert 0 < |rs[k]| <= RECORD;
    LastHolds(Filled(base, dirp, front), dirp + RECORD * n, rs[n], dirp + RECORD * k, rs[k]);
  }

  /** Writing the last record keeps the ones in front of it. */
  lemma {:induction false} LastHolds(before: Bytes, at: nat, last: Bytes, lo: nat, b: Bytes)
    requires last != [] && ((lo == at && b == last) || (Holds(before, lo, b) && lo + |b| <= at))
    ensures Holds(WriteAt(before, at, last), lo, b)
  {
    if lo == at && b == last {
      WriteHolds(before, at, last);
    } else {
      WriteKeeps(before, at, last, lo, b);
    }
  }

  method WriteRecord(heap: array<Byte>, at: nat, id: nat, next: nat, kind: Byte, name: Name)
    requires at + RECORD <= heap.Length
    modifies heap
    ensures heap[..] == WriteAt(old(heap[..]), at, RecordBytes(id, next, kind, name))
  {
    ghost var base := heap[..];
    assert WriteAt(base, at, []) == base;
    Emit(heap, at, LE(id, 8), base, at, []);
    Emit(heap, at + 8, LE(next, 8), base, at, [] + LE(id, 8));
    Emit(heap, at + 16, LE(RECORD, 2), base, at, [] + LE(id, 8) + LE(next, 8));
    Emit(heap, at + 18, [kind], base, at, [] + LE(id, 8) + LE(next, 8) + LE(RECORD, 2));
    HeadPieces(LE(id, 8), LE(next, 8), LE(RECORD, 2), [kind]);
    var n := StringToUTF8Array(name, heap, at + 19, 256);
    WriteAtAppend(base, at, RecordHead(id, next, kind), Encoded(name, 255) + [0]);
  }

  lemma {:induction false} HeadPieces(a: Bytes, b: Bytes, c: Bytes, d: Bytes)
    ensures [] + a + b + c + d == a + (b + (c + d))
  {
  }

  // ----- the call -----

  function RecordOf(now: Directory, names: seq<Name>, i: nat): Bytes
    requires i < |names| && ChildOf(now, names[i]).Some?
  {
    var c := ChildOf(now, names[i]).value;
    RecordBytes(c.id, (i + 1) * RECORD, TypeCode(c.kind), names[i])
  }

  /** Every name from `lo` to `hi` is still there. */
  predicate Found(now: Directory, names: seq<Name>, lo: nat, hi: nat) {
    forall i: nat :: lo <= i < hi && i < |names| ==> ChildOf(now, names[i]).Some?
  }

  /** The first name from `lo` on that is gone, or `hi`. */
  function FoundUpTo(now: Directory, names: seq<Name>, lo: nat, hi: nat): (upto: nat)
    requires lo <= hi <= |names|
    ensures lo <= upto <= hi && Found(now, names, lo, upto)
    ensures upto < hi ==> ChildOf(now, names[upto]).None?
    decreases hi - lo
  {
    if lo == hi || ChildOf(now, names[lo]).None? then lo else FoundUpTo(now, names, lo + 1, hi)
  }

  lemma {:induction false} FoundUpToIs(now: Directory, names: seq<Name>, lo: nat, hi: nat, i: nat)
    requires lo <= i < hi <= |names| && Found(now, names, lo, i) && ChildOf(now, names[i]).None?
    ensures FoundUpTo(now, names, lo, hi) == i
    decreases i - lo
  {
    if lo < i { FoundUpToIs(now, names, lo + 1, hi, i); }
  }

  function RecordsOf(now: Directory, names: seq<Name>, lo: nat, hi: nat): (rs: seq<Bytes>)
    requires Found(now, names, lo, hi)
    ensures |rs| == if lo <= hi <= |names| then hi - lo else 0
  {
    if lo <= hi <= |names| then seq(hi - lo, k requires 0 <= k < hi - lo => RecordOf(now, names, lo + k)) else []
  }

  /** Where the loop of one call stops: it starts at `start`. */
  function StopAt(total: nat, start: nat, count: nat): (stop: nat)
    ensures stop >= start && (start <= total ==> stop <= total)
  {
    Max(start, Min(total, start + count / RECORD))
  }

  class DirStream {
    var position: nat
    /** The listing that the first call takes and the later ones keep. */
    var getdents: Option<seq<Name>>

    constructor ()
      ensures position == 0 && getdents == None
    {
      position, getdents := 0, None;
    }

    /** `___syscall_getdents64`: the bytes used, or a negated error number. */
    method Getdents(heap: array<Byte>, dirp: nat, count: nat, now: Directory) returns (r: int)
      requires dirp % 8 == 0 && dirp + count <= heap.Length
      modifies this, heap
      ensures getdents == Some(if old(getdents).Some? then old(getdents).value else Snapshot(now))
      ensures var names, start := getdents.value, old(position) / RECORD;
              var stop := StopAt(|names|, start, count);
              var upto := if stop <= |names| then FoundUpTo(now, names, start, stop) else start;
              heap[..] == Filled(old(heap[..]), dirp, RecordsOf(now, names, start, upto))
              && if Found(now, names, start, stop)
                 then r == (stop - start) * RECORD && position == stop * RECORD
                 else r == -44 && position == old(position)
    {
      if getdents.None? {
        getdents := Some(Snapshot(now));
      }
      var names := getdents.value;
      var startIdx := position / RECORD;
      var stop := Max(startIdx, Min(|names|, startIdx + count / RECORD));
      if startIdx < stop {
        var ok := PutRecords(heap, dirp, now, names, startIdx, stop);
        if !ok {
          return -ENOENT;
        }
      } else {
        assert Filled(heap[..], dirp, []) == heap[..];
      }
      position := stop * RECORD;
      r := (stop - startIdx) * RECORD;
    }
  }

  /** The loop of the call, from a name inside the listing. */
  method PutRecords(heap: array<Byte>, dirp: nat, now: Directory, names: seq<Name>, start: nat, stop: nat)
    returns (ok: bool)
    requires start < stop <= |names| && dirp + (stop - start) * RECORD <= heap.Length
    modifies heap
    ensures ok <==> Found(now, names, start, stop)
    ensures heap[..] == Filled(old(heap[..]), dirp, RecordsOf(now, names, start, FoundUpTo(now, names, start, stop)))
  {
    var pos, idx := 0, start;
    ghost var base := heap[..];
    assert Filled(base, dirp, []) == base;
    while idx < stop
      invariant start <= idx <= stop && pos == (idx - start) * RECORD
      invariant heap.Length == |base| && Found(now, names, start, idx)
      invariant heap[..] == Filled(base, dirp, RecordsOf(now, names, start, idx))
    {
      ok := PutRecord(heap, dirp, pos, now, names, start, idx, base);
      if !ok {
        FoundUpToIs(now, names, start, stop, idx);
        return;
      }
      pos := pos + RECORD;
      idx := idx + 1;
    }
    ok := true;
  }

  /** One round of the loop; `ok` is false when the name is gone. */
  method PutRecord(heap: array<Byte>, dirp: nat, pos: nat, now: Directory, names: seq<Name>,
                   ghost lo: nat, idx: nat, ghost base: Bytes) returns (ok: bool)
    requires lo <= idx < |names| && Found(now, names, lo, idx) && pos == (idx - lo) * RECORD
    requires dirp + pos + RECORD <= heap.Length
    requires heap[..] == Filled(base, dirp, RecordsOf(now, names, lo, idx))
    modifies heap
    ensures ok <==> ChildOf(now, names[idx]).Some?
    ensures !ok ==> heap[..] == old(heap[..])
    ensures ok ==> Found(now, names, lo, idx + 1)
                   && heap[..] == Filled(base, dirp, RecordsOf(now, names, lo, idx + 1))
  {
    var child := ChildOf(now, names[idx]);
    if child.None? {
      return false;
    }
    FilledMore(base, dirp, now, names, lo, idx);
    WriteRecord(heap, dirp + pos, child.value.id, (idx + 1) * RECORD, TypeCode(child.value.kind), names[idx]);
    ok := true;
  }

  lemma {:induction false} FilledMore(base: Bytes, dirp: nat, now: Directory, names: seq<Name>, lo: nat, i: nat)
    requires lo <= i < |names| && Found(now, names, lo, i) && ChildOf(now, names[i]).Some?
    ensures Found(now, names, lo, i + 1)
    ensures Filled(base, dirp, RecordsOf(now, names, lo, i + 1)) ==
            WriteAt(Filled(base, dirp, RecordsOf(now, names, lo, i)), dirp + RECORD * (i - lo), RecordOf(now, names, i))
  {
    RecordsMore(now, names, lo, i);
    FilledAppend(base, dirp, RecordsOf(now, names, lo, i), RecordOf(now, names, i));
  }

  lemma {:induction false} RecordsMore(now: Directory, names: seq<Name>, lo: nat, i: nat)
    requires lo <= i < |names| && Found(now, names, lo, i) && ChildOf(now, names[i]).Some?
    ensures Found(now, names, lo, i + 1)
    ensures RecordsOf(now, names, lo, i + 1) == RecordsOf(now, names, lo, i) + [RecordOf(now, names, i)]
  {
  }

  lemma {:induction false} FilledAppend(base: Bytes, dirp: nat, rs: seq<Bytes>, r: Bytes)
    ensures Filled(base, dirp, rs + [r]) == WriteAt(Filled(base, dirp, rs), dirp + RECORD * |rs|, r)
  {
    assert (rs + [r])[..|rs|] == rs;
  }

  // ----- a whole directory -----

  /** A record as its reader sees it. */
  datatype Entry = Entry(id: nat, next: nat, size: nat, kind: Byte, name: Name)

  function ReadEntry(heap: Bytes, at: nat): Entry
    requires at + RECORD <= |heap|
  {
    Entry(U64(heap, at), U64(heap, at + 8), U16(heap, at + 16), heap[at + 18], Decode(heap, at + 19, |heap|))
  }

  /** The name that a reader decodes: what fits 255 bytes, up to a zero. */
  function NameRead(name: Name): Name {
    ScanIsScalars(name);
    var cs := Scan(name);
    Utf16All(BeforeZero(cs[..FitCount(cs, 255)]))
  }

  function EntryOf(now: Directory, names: seq<Name>, i: nat): Entry
    requires i < |names| && ChildOf(now, names[i]).Some?
  {
    var c := ChildOf(now, names[i]).value;
    Entry(c.id, (i + 1) * RECORD, RECORD, TypeCode(c.kind), NameRead(names[i]))
  }

  lemma {:induction false} NameReads(heap: Bytes, at: nat, name: Name)
    requires Holds(heap, at, Encoded(name, 255) + [0])
    ensures Decode(heap, at, |heap|) == NameRead(name)
  {
    ScanIsScalars(name);
    var cs := Scan(name)[..FitCount(Scan(name), 255)];
    DecodeTerminated(heap, at, cs);
  }

  /** A name is read as it is when it is well-formed, has no zero unit and fits. */
  lemma {:induction false} NameReadIsName(name: Name)
    requires WellFormed(name) && 0 !in name
    requires AllScalars(Scan(name)) && |EncAll(Scan(name))| <= 255
    ensures NameRead(name) == name
  {
    var cs := Scan(name);
    FitCountIsMaximal(cs, 255, |cs|);
    assert cs[..|cs|] == cs;
    ZeroPointIsZeroUnit(name);
    assert BeforeZero(cs) == cs;
    ScanRoundTrip(name);
  }

  lemma {:induction false} RecordReads(heap: Bytes, at: nat, id: nat, next: nat, kind: Byte, name: Name)
    requires Holds(heap, at, RecordBytes(id, next, kind, name)) && at + RECORD <= |heap|
    requires id < TWO64 && next < TWO64
    ensures ReadEntry(heap, at) == Entry(id, next, RECORD, kind, NameRead(name))
  {
    HoldsPart(heap, at, RecordHead(id, next, kind), Encoded(name, 255) + [0]);
    HoldsPart(heap, at, LE(id, 8), LE(next, 8) + (LE(RECORD, 2) + [kind]));
    HoldsPart(heap, at + 8, LE(next, 8), LE(RECORD, 2) + [kind]);
    HoldsPart(heap, at + 16, LE(RECORD, 2), [kind]);
    ReadsU64(heap, at, id);
    ReadsU64(heap, at + 8, next);
    ReadsU16(heap, at + 16, RECORD);
    assert heap[at + 18..at + 19][0] == kind;
    NameReads(heap, at + 19, name);
  }

  lemma {:induction false} RecordIs(now: Directory, names: seq<Name>, lo: nat, hi: nat, k: nat)
    requires lo <= hi <= |names| && Found(now, names, lo, hi) && k < hi - lo
    ensures ChildOf(now, names[lo + k]).Some? && RecordsOf(now, names, lo, hi)[k] == RecordOf(now, names, lo + k)
  {
  }

  lemma {:induction false} RecordsSized(now: Directory, names: seq<Name>, lo: nat, hi: nat)
    requires lo <= hi <= |names| && Found(now, names, lo, hi)
    ensures RecordSized(RecordsOf(now, names, lo, hi))
  {
    forall k: nat | k < hi - lo ensures 0 < |RecordsOf(now, names, lo, hi)[k]| <= RECORD {
      RecordIs(now, names, lo, hi, k);
    }
  }

  /** After a call, record `k` of the buffer is entry `lo + k` of the listing. */
  lemma {:induction false} BatchReads(base: Bytes, dirp: nat, now: Directory, names: seq<Name>, lo: nat, hi: nat,
                                      k: nat)
    requires lo <= hi <= |names| && Found(now, names, lo, hi) && k < hi - lo
    requires dirp + RECORD * (hi - lo) <= |base| && (|names| + 1) * RECORD < TWO64
    ensures var heap := Filled(base, dirp, RecordsOf(now, names, lo, hi));
            |heap| == |base| && ReadEntry(heap, dirp + RECORD * k) == EntryOf(now, names, lo + k)
  {
    var rs := RecordsOf(now, names, lo, hi);
    RecordsSized(now, names, lo, hi);
    FilledLength(base, dirp, rs);
    FilledHolds(base, dirp, rs, k);
    var c := ChildOf(now, names[lo + k]).value;
    RecordIs(now, names, lo, hi, k);
    assert dirp + RECORD * k + RECORD <= |base|;
    RecordReads(Filled(base, dirp, rs), dirp + RECORD * k,
                c.id, (lo + k + 1) * RECORD, TypeCode(c.kind), names[lo + k]);
  }

  /** The record of the entry `index` at `at`: its number, where the next entry starts, its
      length 280, its type code, and the name, cut to 255 bytes, with a zero behind it. */
  predicate DirentIs(heap: Bytes, at: nat, id: nat, index: nat, kind: Kind, name: Name) {
    && at + 280 <= |heap| && U64(heap, at) == id && U64(heap, at + 8) == 280 * (index + 1) && U16(heap, at + 16) == 280
    && heap[at + 18] == (if kind == CharDev then 2 else if kind == Dir then 4 else if kind == Link then 10 else 8)
    && heap[at + 19..at + 19 + |Encoded(name, 255)|] == Encoded(name, 255)
    && heap[at + 19 + |Encoded(name, 255)|] == 0
  }

  /** The listing is ".", ".." and the names; "." is the directory, ".." its parent. */
  predicate IsEntry(now: Directory, index: nat, name: Name, id: nat, kind: Kind) {
    && (if index == 0 then name == [0x2E]
        else if index == 1 then name == [0x2E, 0x2E]
        else index - 2 < |now.names| && name == now.names[index - 2])
    && (if name == [0x2E] then id == now.self && kind == Dir
        else if name == [0x2E, 0x2E] then id == now.parent && kind == Dir
        else name in now.node && id == now.node[name].id && kind == now.node[name].kind)
  }

  /** What stands in the buffer, byte by byte: the record number `k` of a batch from entry
      `lo` on is that of entry `lo + k`. */
  lemma {:induction false} BatchBytes(base: Bytes, dirp: nat, now: Directory, lo: nat, hi: nat, k: nat)
    returns (name: Name, id: nat, kind: Kind)
    requires lo <= hi <= |Snapshot(now)| && Found(now, Snapshot(now), lo, hi) && k < hi - lo
    requires dirp + 280 * (hi - lo) <= |base| && (|Snapshot(now)| + 1) * 280 < TWO64
    ensures IsEntry(now, lo + k, name, id, kind)
    ensures DirentIs(Filled(base, dirp, RecordsOf(now, Snapshot(now), lo, hi)), dirp + 280 * k, id, lo + k, kind, name)
  {
    var names, rs := Snapshot(now), RecordsOf(now, Snapshot(now), lo, hi);
    RecordsSized(now, names, lo, hi);
    FilledLength(base, dirp, rs);
    FilledHolds(base, dirp, rs, k);
    RecordIs(now, names, lo, hi, k);
    var c := ChildOf(now, names[lo + k]).value;
    name, id, kind := names[lo + k], c.id, c.kind;
    InBatch(dirp, lo, hi, k, |base|);
    RecordStands(Filled(base, dirp, rs), dirp + 280 * k, id, lo + k, kind, name);
  }

  lemma {:induction false} InBatch(dirp: nat, lo: nat, hi: nat, k: nat, size: nat)
    requires lo <= hi && k < hi - lo && dirp + 280 * (hi - lo) <= size
    ensures dirp + 280 * k + RECORD <= size
  {
  }

  lemma {:induction false} RecordStands(heap: Bytes, at: nat, id: nat, index: nat, kind: Kind, name: Name)
    requires Holds(heap, at, RecordBytes(id, (index + 1) * RECORD, TypeCode(kind), name)) && at + RECORD <= |heap|
    requires id < TWO64 && (index + 1) * RECORD < TWO64
    ensures DirentIs(heap, at, id, index, kind, name)
  {
    var next, code, text := (index + 1) * RECORD, TypeCode(kind), Encoded(name, 255);
    HoldsPart(heap, at, RecordHead(id, next, code), text + [0]);
    HoldsPart(heap, at, LE(id, 8), LE(next, 8) + (LE(RECORD, 2) + [code]));
    HoldsPart(heap, at + 8, LE(next, 8), LE(RECORD, 2) + [code]);
    HoldsPart(heap, at + 16, LE(RECORD, 2), [code]);
    ReadsU64(heap, at, id);
    ReadsU64(heap, at + 8, next);
    ReadsU16(heap, at + 16, RECORD);
    HoldsByte(heap, at + 18, [code], 0);
    HoldsPart(heap, at + 19, text, [0]);
    HoldsByte(heap, at + 19 + |text|, [0], 0);
  }

  /** Every listed name is a child. */
  predicate Complete(now: Directory) {
    forall i :: 0 <= i < |now.names| ==> now.names[i] in now.node
  }

  /** The listing from its first entry on. */
  predicate IsPrefix(now: Directory, seen: seq<Entry>) {
    |seen| <= |Snapshot(now)|
    && forall i: nat :: i < |seen| ==> ChildOf(now, Snapshot(now)[i]).Some? && seen[i] == EntryOf(now, Snapshot(now), i)
  }

  lemma {:induction false} PrefixMore(now: Directory, seen: seq<Entry>)
    requires IsPrefix(now, seen) && |seen| < |Snapshot(now)| && ChildOf(now, Snapshot(now)[|seen|]).Some?
    ensures IsPrefix(now, seen + [EntryOf(now, Snapshot(now), |seen|)])
  {
  }

  /** How many records fit the buffers together. */
  function Room(counts: seq<nat>): nat
    decreases |counts|
  {
    if counts == [] then 0 else Room(counts[..|counts| - 1]) + counts[|counts| - 1] / RECORD
  }

  /** Read the records that a call has put into the buffer. */
  method ReadBatch(heap: array<Byte>, dirp: nat, n: nat, ghost base: Bytes, now: Directory, ghost lo: nat,
                   given: seq<Entry>)
    returns (seen: seq<Entry>)
    requires IsPrefix(now, given) && |given| == lo && lo + n <= |Snapshot(now)| && Found(now, Snapshot(now), lo, lo + n)
    requires dirp + RECORD * n <= heap.Length && |base| == heap.Length && (|Snapshot(now)| + 1) * RECORD < TWO64
    requires heap[..] == Filled(base, dirp, RecordsOf(now, Snapshot(now), lo, lo + n))
    ensures IsPrefix(now, seen) && |seen| == lo + n
  {
    seen := given;
    for k := 0 to n
      invariant IsPrefix(now, seen) && |seen| == lo + k
    {
      BatchReads(base, dirp, now, Snapshot(now), lo, lo + n, k);
      PrefixMore(now, seen);
      seen := seen + [ReadEntry(heap[..], dirp + RECORD * k)];
    }
  }

  /** Any sequence of calls on an unchanged directory: the records read are the
      listing from its start, each entry once and in order; as many as the buffers
      have room for; and the 0 result, which comes only after the last entry, is
      reached after at most one call more than there are entries. */
  method ReadDirectory(stream: DirStream, heap: array<Byte>, dirp: nat, now: Directory, counts: seq<nat>)
    returns (seen: seq<Entry>, ended: bool)
    requires stream.position == 0 && stream.getdents == None && Complete(now)
    requires dirp % 8 == 0 && forall i :: 0 <= i < |counts| ==> RECORD <= counts[i] && dirp + counts[i] <= heap.Length
    requires (|Snapshot(now)| + 1) * RECORD < TWO64
    modifies stream, heap
    ensures IsPrefix(now, seen)
    ensures ended ==> |seen| == |Snapshot(now)|
    ensures !ended ==> |seen| == Min(|Snapshot(now)|, Room(counts)) && |seen| >= Min(|Snapshot(now)|, |counts|)
    ensures |counts| > |Snapshot(now)| ==> ended
  {
    seen, ended := [], false;
    for i := 0 to |counts|
      invariant At(stream.position, stream.getdents, now, |seen|)
      invariant IsPrefix(now, seen) && |seen| == Min(|Snapshot(now)|, Room(counts[..i])) && i <= |seen|
    {
      assert counts[..i + 1][..i] == counts[..i];
      ended, seen := ReadOnce(stream, heap, dirp, now, counts[i], seen);
      if ended {
        return;
      }
    }
    assert counts[..|counts|] == counts;
  }

  /** The stream stands at entry `n` of the listing. */
  predicate At(position: nat, getdents: Option<seq<Name>>, now: Directory, n: nat) {
    position == n * RECORD && (getdents == None || getdents == Some(Snapshot(now)))
  }

  /** One call, and what it put into the buffer. */
  method ReadOnce(stream: DirStream, heap: array<Byte>, dirp: nat, now: Directory, count: nat, given: seq<Entry>)
    returns (ended: bool, seen: seq<Entry>)
    requires At(stream.position, stream.getdents, now, |given|) && Complete(now) && IsPrefix(now, given)
    requires dirp % 8 == 0 && RECORD <= count && dirp + count <= heap.Length
    requires (|Snapshot(now)| + 1) * RECORD < TWO64
    modifies stream, heap
    ensures At(stream.position, stream.getdents, now, |seen|) && IsPrefix(now, seen)
    ensures ended <==> |given| == |Snapshot(now)|
    ensures ended ==> seen == given
    ensures !ended ==> |seen| == Min(|Snapshot(now)|, |given| + count / RECORD) > |given|
  {
    ghost var base, lo := heap[..], |given|;
    var r := CallOnce(stream, heap, dirp, now, count, lo);
    if r <= 0 {
      return true, given;
    }
    ghost var n := Min(|Snapshot(now)|, lo + count / RECORD) - lo;
    DivModUnique(r, RECORD, n, 0);
    seen := ReadBatch(heap, dirp, r / RECORD, base, now, lo, given);
    ended := false;
  }

  /** One call on a directory of which nothing is gone. */
  method CallOnce(stream: DirStream, heap: array<Byte>, dirp: nat, now: Directory, count: nat, ghost lo: nat)
    returns (r: int)
    requires At(stream.position, stream.getdents, now, lo) && Complete(now) && lo <= |Snapshot(now)|
    requires dirp % 8 == 0 && dirp + count <= heap.Length
    modifies stream, heap
    ensures var hi := Min(|Snapshot(now)|, lo + count / RECORD);
            && r == (hi - lo) * RECORD && At(stream.position, stream.getdents, now, hi)
            && Found(now, Snapshot(now), lo, hi)
            && heap[..] == Filled(old(heap[..]), dirp, RecordsOf(now, Snapshot(now), lo, hi))
  {
    ghost var hi := StopAt(|Snapshot(now)|, lo, count);
    DivModUnique(stream.position, RECORD, lo, 0);
    AllFound(now, lo, hi);
    r := stream.Getdents(heap, dirp, count, now);
  }

  lemma {:induction false} AllFound(now: Directory, lo: nat, hi: nat)
    requires Complete(now)
    ensures Found(now, Snapshot(now), lo, hi)
  {
    forall i: nat | lo <= i < hi && i < |Snapshot(now)| ensures ChildOf(now, Snapshot(now)[i]).Some? {
      if i >= 2 { assert Snapshot(now)[i] == now.names[i - 2]; }
    }
  }
}
