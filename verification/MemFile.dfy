/**
 * File contents of the in-memory file system: a buffer that may be larger than the
 * file, grown geometrically. It is proved to behave like a sparse byte file with
 * positioned reads and writes, the same file that the package builder writes to.
 */
module MemFile {
  import opened Words
  import opened ByteFile

  const CAPACITY_DOUBLING_MAX: nat := 1024 * 1024
  const MIN_CAPACITY: nat := 256

  // ----- the file as a value -----

  /** ftruncate: cut, or extend with zeros. */
  function Resized(view: Bytes, n: nat): (r: Bytes)
    ensures |r| == n
  {
    if n <= |view| then view[..n] else view + Zeros(n - |view|)
  }

  /** pread: what is there, at most `n` bytes. */
  function ReadAt(view: Bytes, pos: nat, n: nat): Bytes {
    if pos >= |view| then [] else view[pos..Min(pos + n, |view|)]
  }

  // ----- growth -----

  /** Requested capacity, but at least a geometric step (a 32-bit conversion) and,
      once storage exists, a minimum. */
  function GrownCapacity(previous: nat, requested: nat): (c: nat)
    ensures c >= requested
  {
    var step := (if previous < CAPACITY_DOUBLING_MAX then previous * 2 else previous * 9 / 8) % TWO32;
    var wanted := Max(requested, step);
    if previous != 0 then Max(wanted, MIN_CAPACITY) else wanted
  }

  /** Growth is at least to the double below 1 MiB and to nine eighths from there on (while
      that fits 32 bits), and no more than one of these, 256 and the request asks for. */
  lemma {:induction false} CapacityGrows(previous: nat, requested: nat)
    ensures var c := GrownCapacity(previous, requested);
            && (previous == 0 ==> c == requested)
            && (0 < previous < 0x10_0000 ==>
                  2 * previous <= c && 256 <= c && (c == 2 * previous || c == 256 || c == requested))
            && (0x10_0000 <= previous < 0xE000_0000 ==>
                  9 * previous < 8 * c + 8 && (c == requested || 8 * c <= 9 * previous))
  {
  }

  class MemFile {
    var contents: array?<Byte>
    var usedBytes: nat

    /** Storage behind the used part is zero; growing into it fills holes with zeros. */
    ghost predicate Valid()
      reads this, contents
    {
      if contents == null then usedBytes == 0
      else usedBytes <= contents.Length && forall i :: usedBytes <= i < contents.Length ==> contents[i] == 0
    }

    ghost function View(): (v: Bytes)
      requires Valid()
      reads this, contents
      ensures |v| == usedBytes
    {
      if contents == null then [] else contents[..usedBytes]
    }

    constructor ()
      ensures Valid() && View() == [] && contents == null
    {
      contents := null;
      usedBytes := 0;
    }

    /** MEMFS.expandFileStorage */
    method ExpandFileStorage(requested: nat)
      requires Valid()
      modifies `contents
      ensures Valid() && View() == old(View()) && usedBytes == old(usedBytes)
      ensures contents == old(contents) || fresh(contents)
      ensures requested > 0 ==> contents != null
      ensures contents != null ==> contents.Length >= requested
      ensures var previous := if old(contents) == null then 0 else old(contents).Length;
              if previous >= requested then contents == old(contents)
              else contents != null && contents.Length == GrownCapacity(previous, requested)
    {
      var previous := if contents == null then 0 else contents.Length;
      if previous >= requested {
        return;
      }
      var capacity := GrownCapacity(previous, requested);
      var storage := new Byte[capacity](_ => 0);
      if usedBytes > 0 {
        forall i | 0 <= i < usedBytes {
          storage[i] := contents[i];
        }
      }
      contents := storage;
    }

    /** MEMFS.resizeFileStorage */
    method ResizeFileStorage(newSize: nat)
      requires Valid()
      modifies this
      ensures Valid() && View() == Resized(old(View()), newSize)
      ensures contents == old(contents) || contents == null || fresh(contents)
    {
      if usedBytes == newSize {
        return;
      }
      if newSize == 0 {
        contents := null;
        usedBytes := 0;
      } else {
        var oldContents := contents;
        var storage := new Byte[newSize](_ => 0);
        if oldContents != null {
          forall i | 0 <= i < Min(newSize, usedBytes) {
            storage[i] := oldContents[i];
          }
        }
        contents := storage;
        usedBytes := newSize;
      }
    }

    /** MEMFS read */
    method Read(pos: nat, length: nat) returns (data: Bytes)
      requires Valid()
      ensures data == ReadAt(View(), pos, length)
    {
      if pos >= usedBytes {
        return [];
      }
      var size := Min(usedBytes - pos, length);
      data := contents[pos..pos + size];
    }

    /** MEMFS write, from a typed array that the file does not take over. */
    method Write(buffer: Bytes, pos: nat) returns (written: nat)
      requires Valid()
      modifies this, contents
      ensures Valid() && View() == WriteAt(old(View()), pos, buffer)
      ensures written == |buffer|
      ensures contents == old(contents) || (contents != null && fresh(contents))
    {
      written := |buffer|;
      if written == 0 {
        return;
      }
      if usedBytes == 0 && pos == 0 {
        contents := new Byte[written](i requires 0 <= i < |buffer| => buffer[i]);
        usedBytes := written;
        return;
      }
      if pos + written <= usedBytes {
        Put(buffer, pos);
        return;
      }
      ExpandFileStorage(pos + written);
      Put(buffer, pos);
      usedBytes := Max(usedBytes, pos + written);
    }

    /** The typed-array `set` of the data at its position. */
    method Put(buffer: Bytes, pos: nat)
      requires contents != null && pos + |buffer| <= contents.Length
      modifies contents
      ensures forall i :: 0 <= i < contents.Length ==>
                contents[i] == if pos <= i < pos + |buffer| then buffer[i - pos] else old(contents[i])
    {
      forall i | 0 <= i < |buffer| {
        contents[pos + i] := buffer[i];
      }
    }
  }

  // ----- streams: positions, append mode, closing -----

  const EACCES: nat := 2
  const EBADF: nat := 8
  const EINVAL: nat := 28
  const EISDIR: nat := 31
  const ESPIPE: nat := 70

  /** What a stream may do; `permitted` says whether the file's permissions allow writing.
      A stream on a directory has no content of its own. */
  datatype Mode = Mode(readable: bool, writable: bool, append: bool, permitted: bool, seekable: bool, directory: bool)

  /** What an open file looks like to its user. */
  datatype State = State(view: Bytes, position: nat, open: bool)

  datatype Op =
    | WriteOp(data: Bytes, at: Option<int>)
    | ReadOp(count: int, at: Option<int>)
    | SeekOp(offset: int, whence: int)
    | TruncateOp(size: int)
    | CloseOp

  datatype Reply = Written(n: nat) | Data(bytes: Bytes) | Position(p: nat) | Done | Error(errno: nat)

  function SeekTarget(s: State, offset: int, whence: int, directory: bool): int {
    match whence
    case 0 => offset
    case 1 => offset + s.position
    case _ => offset + if directory then 0 else |s.view|
  }

  predicate Negative(at: Option<int>) {
    at.Some? && at.value < 0
  }

  /** One operation on the sparse byte file. In append mode every write first moves
      the position to the end, even a write with a position of its own. */
  function Apply(s: State, op: Op, mode: Mode): (State, Reply) {
    match op
    case WriteOp(data, at) =>
      if Negative(at) then (s, Error(EINVAL))
      else if !s.open || !mode.writable then (s, Error(EBADF))
      else if mode.directory then (s, Error(EISDIR))
      else if at.Some? && !mode.seekable then (s, Error(ESPIPE))
      else
        var p := if mode.append && mode.seekable then |s.view| else s.position;
        if at.Some? then (State(WriteAt(s.view, at.value, data), p, true), Written(|data|))
        else (State(WriteAt(s.view, p, data), p + |data|, true), Written(|data|))
    case ReadOp(count, at) =>
      if count < 0 || Negative(at) then (s, Error(EINVAL))
      else if !s.open || !mode.readable then (s, Error(EBADF))
      else if mode.directory then (s, Error(EISDIR))
      else if at.Some? && !mode.seekable then (s, Error(ESPIPE))
      else
        var b := ReadAt(s.view, if at.Some? then at.value else s.position, count);
        (if at.Some? then s else s.(position := s.position + |b|), Data(b))
    case SeekOp(offset, whence) =>
      var target := if 0 <= whence <= 2 then SeekTarget(s, offset, whence, mode.directory) else -1;
      if !s.open then (s, Error(EBADF))
      else if !mode.seekable then (s, Error(ESPIPE))
      else if target < 0 then (s, Error(EINVAL))
      else (s.(position := target), Position(target))
    case TruncateOp(size) =>
      if !s.open then (s, Error(EBADF))
      else if size < 0 || !mode.writable then (s, Error(EINVAL))
      else if mode.directory then (s, Error(EISDIR))
      else if !mode.permitted then (s, Error(EACCES))
      else (s.(view := Resized(s.view, size)), Done)
    case CloseOp =>
      if !s.open then (s, Error(EBADF)) else (s.(open := false), Done)
  }

  class Stream {
    const node: MemFile
    const mode: Mode
    var position: nat
    var open: bool

    constructor (node: MemFile, mode: Mode)
      ensures this.node == node && this.mode == mode && position == 0 && open
    {
      this.node, this.mode, position, open := node, mode, 0, true;
    }

    ghost function Abstract(): State
      requires node.Valid()
      reads this, node, node.contents
    {
      State(node.View(), position, open)
    }

    /** FS.llseek with the one of MEMFS */
    method Llseek(offset: int, whence: int) returns (r: Reply)
      requires node.Valid()
      modifies `position
      ensures node.Valid() && (Abstract(), r) == Apply(old(Abstract()), SeekOp(offset, whence), mode)
    {
      if !open {
        return Error(EBADF);
      }
      if !mode.seekable {
        return Error(ESPIPE);
      }
      if whence != 0 && whence != 1 && whence != 2 {
        return Error(EINVAL);
      }
      var target := offset;
      if whence == 1 {
        target := target + position;
      } else if whence == 2 {
        target := target + if mode.directory then 0 else node.usedBytes;
      }
      if target < 0 {
        return Error(EINVAL);
      }
      position := target;
      r := Position(position);
    }

    /** FS.write */
    method Write(data: Bytes, at: Option<int>) returns (r: Reply)
      requires node.Valid()
      modifies `position, node, node.contents
      ensures node.Valid() && (Abstract(), r) == Apply(old(Abstract()), WriteOp(data, at), mode)
      ensures node.contents == old(node.contents) || node.contents == null || fresh(node.contents)
    {
      if at.Some? && at.value < 0 {
        return Error(EINVAL);
      }
      if !open {
        return Error(EBADF);
      }
      if !mode.writable {
        return Error(EBADF);
      }
      if mode.directory {
        return Error(EISDIR);
      }
      if mode.seekable && mode.append {
        r := Llseek(0, 2);
      }
      if at.Some? && !mode.seekable {
        return Error(ESPIPE);
      }
      var pos := if at.Some? then at.value else position;
      var n := node.Write(data, pos);
      if at.None? {
        position := position + n;
      }
      r := Written(n);
    }

    /** FS.read */
    method Read(count: int, at: Option<int>) returns (r: Reply)
      requires node.Valid()
      modifies `position
      ensures node.Valid() && (Abstract(), r) == Apply(old(Abstract()), ReadOp(count, at), mode)
    {
      if count < 0 || (at.Some? && at.value < 0) {
        return Error(EINVAL);
      }
      if !open {
        return Error(EBADF);
      }
      if !mode.readable {
        return Error(EBADF);
      }
      if mode.directory {
        return Error(EISDIR);
      }
      if at.Some? && !mode.seekable {
        return Error(ESPIPE);
      }
      var pos := if at.Some? then at.value else position;
      var b := node.Read(pos, count);
      if at.None? {
        position := position + |b|;
      }
      r := Data(b);
    }

    /** FS.ftruncate */
    method Truncate(size: int) returns (r: Reply)
      requires node.Valid()
      modifies node
      ensures node.Valid() && (Abstract(), r) == Apply(old(Abstract()), TruncateOp(size), mode)
      ensures node.contents == old(node.contents) || node.contents == null || fresh(node.contents)
    {
      if !open {
        return Error(EBADF);
      }
      if size < 0 || !mode.writable {
        return Error(EINVAL);
      }
      if mode.directory {
        return Error(EISDIR);
      }
      if !mode.permitted {
        return Error(EACCES);
      }
      node.ResizeFileStorage(size);
      r := Done;
    }

    /** FS.close */
    method Close() returns (r: Reply)
      requires node.Valid()
      modifies `open
      ensures node.Valid() && (Abstract(), r) == Apply(old(Abstract()), CloseOp, mode)
    {
      if !open {
        return Error(EBADF);
      }
      open := false;
      r := Done;
    }

    method Perform(op: Op) returns (r: Reply)
      requires node.Valid()
      modifies this, node, node.contents
      ensures node.Valid() && (Abstract(), r) == Apply(old(Abstract()), op, mode)
      ensures node.contents == old(node.contents) || node.contents == null || fresh(node.contents)
    {
      match op
      case WriteOp(data, at) => r := Write(data, at);
      case ReadOp(count, at) => r := Read(count, at);
      case SeekOp(offset, whence) => r := Llseek(offset, whence);
      case TruncateOp(size) => r := Truncate(size);
      case CloseOp => r := Close();
    }
  }

  // ----- several streams on one file -----

  datatype Place = Place(position: nat, open: bool)

  /** One content, and a place of its own for every stream. */
  datatype Shared = Shared(view: Bytes, places: seq<Place>)
  {
    function Of(i: nat): State
      requires i < |places|
    {
      State(view, places[i].position, places[i].open)
    }
  }

  /** An operation on stream number `on`. */
  datatype Call = Call(on: nat, op: Op)

  function ApplyCall(s: Shared, c: Call, modes: seq<Mode>): (Shared, Reply)
    requires c.on < |s.places| == |modes|
  {
    var (t, r) := Apply(s.Of(c.on), c.op, modes[c.on]);
    (Shared(t.view, s.places[c.on := Place(t.position, t.open)]), r)
  }

  predicate InRange(calls: seq<Call>, n: nat) {
    forall k: nat :: k < |calls| ==> calls[k].on < n
  }

  function ApplyCalls(s: Shared, calls: seq<Call>, modes: seq<Mode>): (r: (Shared, seq<Reply>))
    requires |s.places| == |modes| && InRange(calls, |modes|)
    ensures |r.0.places| == |modes|
    decreases |calls|
  {
    if calls == [] then (s, [])
    else
      var (s1, replies) := ApplyCalls(s, calls[..|calls| - 1], modes);
      var (s2, reply) := ApplyCall(s1, calls[|calls| - 1], modes);
      (s2, replies + [reply])
  }

  /** Different streams, all on the same file. */
  ghost predicate OnOneNode(streams: seq<Stream>, node: MemFile) {
    && (forall i: nat :: i < |streams| ==> streams[i].node == node)
    && (forall i: nat, j: nat :: i < j < |streams| ==> streams[i] != streams[j])
  }

  ghost function Places(streams: seq<Stream>): seq<Place>
    reads streams
  {
    seq(|streams|, i requires 0 <= i < |streams| reads streams => Place(streams[i].position, streams[i].open))
  }

  ghost function Modes(streams: seq<Stream>): seq<Mode> {
    seq(|streams|, i requires 0 <= i < |streams| => streams[i].mode)
  }

  ghost function SharedState(streams: seq<Stream>, node: MemFile): Shared
    requires node.Valid()
    reads streams, node, node.contents
  {
    Shared(node.View(), Places(streams))
  }

  method PerformCall(streams: seq<Stream>, node: MemFile, c: Call) returns (r: Reply)
    requires node.Valid() && OnOneNode(streams, node) && c.on < |streams|
    modifies streams, node, node.contents
    ensures node.Valid()
    ensures (SharedState(streams, node), r) == ApplyCall(old(SharedState(streams, node)), c, Modes(streams))
    ensures node.contents == old(node.contents) || node.contents == null || fresh(node.contents)
  {
    ghost var before := Places(streams);
    r := streams[c.on].Perform(c.op);
    assert Places(streams) == before[c.on := Place(streams[c.on].position, streams[c.on].open)];
  }

  /** Any interleaving of operations on streams of one file gives the replies and the
      final content and positions of the sparse byte file. */
  method Run(streams: seq<Stream>, node: MemFile, calls: seq<Call>) returns (replies: seq<Reply>)
    requires node.Valid() && OnOneNode(streams, node) && InRange(calls, |streams|)
    modifies streams, node, node.contents
    ensures node.Valid()
    ensures (SharedState(streams, node), replies) == ApplyCalls(old(SharedState(streams, node)), calls, Modes(streams))
  {
    replies := [];
    ghost var start := SharedState(streams, node);
    for k := 0 to |calls|
      invariant node.Valid()
      invariant node.contents == old(node.contents) || node.contents == null || fresh(node.contents)
      invariant (SharedState(streams, node), replies) == ApplyCalls(start, calls[..k], Modes(streams))
    {
      var r := PerformCall(streams, node, calls[k]);
      assert calls[..k + 1][..k] == calls[..k];
      replies := replies + [r];
    }
    assert calls[..|calls|] == calls;
  }

  // ----- what the sparse byte file promises -----

  /** A read after a write at the same place gives the data back; a write past the end
      leaves zeros in between; other bytes stay. */
  lemma {:induction false} ReadAfterWrite(view: Bytes, pos: nat, b: Bytes, at: nat, n: nat)
    requires b != []
    ensures ReadAt(WriteAt(view, pos, b), pos, |b|) == b
    ensures at + n <= pos && at + n <= |view| ==> ReadAt(WriteAt(view, pos, b), at, n) == ReadAt(view, at, n)
    ensures |view| <= at && at + n <= pos ==> ReadAt(WriteAt(view, pos, b), at, n) == Zeros(n)
  {
    WriteAtLength(view, pos, b);
    var w := WriteAt(view, pos, b);
    assert forall i :: 0 <= i < |w| ==> w[i] == ByteAfter(view, pos, b, i);
    if at + n <= pos && at + n <= |view| && at < |view| {
      assert w[at..at + n] == view[at..at + n];
    }
    if |view| <= at && at + n <= pos && at < |w| {
      assert w[at..at + n] == Zeros(n);
    }
  }

  /** Cutting a file and extending it again leaves zeros where data was cut off. */
  lemma {:induction false} TruncateForgets(view: Bytes, n: nat, m: nat)
    requires n <= |view| && n <= m
    ensures Resized(Resized(view, n), m) == view[..n] + Zeros(m - n)
  {
  }

  /** A call that can only add to the end: a write without a position of its own through a
      stream in append mode, a read or a seek. */
  predicate AddsOnly(c: Call, modes: seq<Mode>)
    requires c.on < |modes|
  {
    match c.op
    case WriteOp(_, at) =>
      var mode := modes[c.on];
      at.None? && mode.append && mode.writable && mode.seekable && !mode.directory
    case ReadOp(_, _) => true
    case SeekOp(_, _) => true
    case _ => false
  }

  function WrittenData(c: Call): Bytes {
    match c.op
    case WriteOp(data, _) => data
    case _ => []
  }

  /** What the calls write, one after the other. */
  function AllWritten(calls: seq<Call>): Bytes {
    if calls == [] then [] else AllWritten(calls[..|calls| - 1]) + WrittenData(calls[|calls| - 1])
  }

  predicate AllOpen(s: Shared) {
    forall i: nat :: i < |s.places| ==> s.places[i].open
  }

  lemma {:induction false} AddsAtEnd(s: Shared, c: Call, modes: seq<Mode>)
    requires c.on < |s.places| == |modes| && AllOpen(s) && AddsOnly(c, modes)
    ensures var t := ApplyCall(s, c, modes).0; AllOpen(t) && t.view == s.view + WrittenData(c)
  {
    if c.op.WriteOp? { WriteAtEnd(s.view, c.op.data); }
  }

  lemma {:induction false} WriteAtEnd(view: Bytes, b: Bytes)
    ensures WriteAt(view, |view|, b) == view + b
  {
    if b != [] {
      var w := WriteAt(view, |view|, b);
      assert forall i :: 0 <= i < |w| ==> w[i] == ByteAfter(view, |view|, b, i);
    }
  }

  /** Appends from any number of streams are lined up in the order of the calls, wherever
      the positions are moved in between: none of them overwrites another. */
  lemma {:induction false} AppendsConcatenate(s: Shared, calls: seq<Call>, modes: seq<Mode>)
    requires |s.places| == |modes| && InRange(calls, |modes|) && AllOpen(s)
    requires forall k: nat :: k < |calls| ==> AddsOnly(calls[k], modes)
    ensures var t := ApplyCalls(s, calls, modes).0; AllOpen(t) && t.view == s.view + AllWritten(calls)
    decreases |calls|
  {
    if calls != [] {
      var n := |calls| - 1;
      AppendsConcatenate(s, calls[..n], modes);
      AddsAtEnd(ApplyCalls(s, calls[..n], modes).0, calls[n], modes);
      Assoc(s.view, AllWritten(calls[..n]), WrittenData(calls[n]));
    }
  }
}
