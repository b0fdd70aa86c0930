/**
 * What a run of calls on the streams of one file delivers and leaves behind: reads and
 * writes at the position of a stream continue where the last one ended, and calls with
 * a position of their own do not disturb them.
 */
module MemStreams {
  import opened Words
  import opened ByteFile
  import opened MemFile

  /** `b` is what `view` has from `p` on, at most `n` bytes. */
  predicate IsPart(b: Bytes, view: Bytes, p: nat, n: nat) {
    && |b| == (if p >= |view| then 0 else if p + n <= |view| then n else |view| - p)
    && forall k: nat :: k < |b| ==> p + k < |view| && b[k] == view[p + k]
  }

  predicate ReadsOn(c: Call, i: nat) {
    c.on == i && c.op.ReadOp? && c.op.at == None && c.op.count >= 0
  }

  predicate WritesOn(c: Call, i: nat) {
    c.on == i && c.op.WriteOp? && c.op.at == None
  }

  /** Leaves the content and the position of stream `i` alone: any read, seek or close of
      another stream, and a read with a position of its own. */
  predicate Quiet(c: Call, i: nat) {
    (c.on != i && (c.op.ReadOp? || c.op.SeekOp? || c.op.CloseOp?)) || (c.op.ReadOp? && c.op.at.Some?)
  }

  /** A write with a position of its own that stays out of the range. */
  predicate Elsewhere(c: Call, lo: nat, hi: nat) {
    && c.op.WriteOp? && c.op.at.Some?
    && (c.op.at.value < 0 || c.op.at.value + |c.op.data| <= lo || hi <= c.op.at.value)
  }

  /** The bytes that the reads of stream `i` deliver, one after the other. */
  function Delivered(calls: seq<Call>, replies: seq<Reply>, i: nat): Bytes
    requires |replies| == |calls|
    decreases |calls|
  {
    if calls == [] then []
    else
      var n := |calls| - 1;
      Delivered(calls[..n], replies[..n], i)
      + if ReadsOn(calls[n], i) && replies[n].Data? then replies[n].bytes else []
  }

  function Asked(calls: seq<Call>, i: nat): nat
    decreases |calls|
  {
    if calls == [] then 0
    else
      var n := |calls| - 1;
      Asked(calls[..n], i) + if ReadsOn(calls[n], i) then calls[n].op.count else 0
  }

  function Sent(calls: seq<Call>, i: nat): Bytes
    decreases |calls|
  {
    if calls == [] then []
    else
      var n := |calls| - 1;
      Sent(calls[..n], i) + if WritesOn(calls[n], i) then calls[n].op.data else []
  }

  predicate OnFile(s: Shared, calls: seq<Call>, modes: seq<Mode>, i: nat) {
    && i < |s.places| == |modes| && s.places[i].open && !modes[i].directory
    && forall k: nat :: k < |calls| ==> calls[k].on < |modes|
  }

  lemma {:induction false} FrontOnFile(s: Shared, calls: seq<Call>, modes: seq<Mode>, i: nat)
    requires OnFile(s, calls, modes, i) && calls != []
    ensures var n := |calls| - 1;
            && OnFile(s, calls[..n], modes, i) && InRange(calls, |modes|) && InRange(calls[..n], |modes|)
            && |ApplyCalls(s, calls[..n], modes).1| == n && |ApplyCalls(s, calls, modes).1| == n + 1
            && ApplyCalls(s, calls, modes).1[..n] == ApplyCalls(s, calls[..n], modes).1
  {
    OneReplyEach(s, calls[..|calls| - 1], modes);
  }

  lemma {:induction false} OneReplyEach(s: Shared, calls: seq<Call>, modes: seq<Mode>)
    requires |s.places| == |modes| && InRange(calls, |modes|)
    ensures |ApplyCalls(s, calls, modes).1| == |calls|
    decreases |calls|
  {
    if calls != [] { OneReplyEach(s, calls[..|calls| - 1], modes); }
  }

  // ----- reads -----

  lemma {:induction false} QuietCall(s: Shared, c: Call, modes: seq<Mode>, i: nat)
    requires c.on < |s.places| == |modes| && i < |modes| && Quiet(c, i)
    ensures var t := ApplyCall(s, c, modes).0; t.view == s.view && t.places[i] == s.places[i]
  {
  }

  lemma {:induction false} OneRead(s: Shared, c: Call, modes: seq<Mode>, i: nat)
    requires c.on < |s.places| == |modes| && ReadsOn(c, i)
    requires s.places[i].open && modes[i].readable && !modes[i].directory
    ensures var (t, r) := ApplyCall(s, c, modes);
            && t.view == s.view && t.places[i].open && r.Data?
            && IsPart(r.bytes, s.view, s.places[i].position, c.op.count)
            && t.places[i].position == s.places[i].position + |r.bytes|
  {
  }

  lemma {:induction false} JoinParts(a: Bytes, b: Bytes, view: Bytes, p: nat, m: nat, n: nat)
    requires IsPart(a, view, p, m) && IsPart(b, view, p + |a|, n)
    ensures IsPart(a + b, view, p, m + n)
  {
    forall k: nat | k < |a + b| ensures p + k < |view| && (a + b)[k] == view[p + k] {
      if k >= |a| { assert b[k - |a|] == view[p + |a| + (k - |a|)]; }
    }
  }

  /** Reads without a position of their own deliver, put together, the bytes from the
      position of the stream on, up to the sum of the counts or the end of the file. */
  lemma {:induction false} ReadsInOrder(s: Shared, calls: seq<Call>, modes: seq<Mode>, i: nat)
    requires OnFile(s, calls, modes, i) && modes[i].readable
    requires forall k: nat :: k < |calls| ==> ReadsOn(calls[k], i) || Quiet(calls[k], i)
    ensures InRange(calls, |modes|) && |ApplyCalls(s, calls, modes).1| == |calls|
    ensures var (t, replies), p := ApplyCalls(s, calls, modes), s.places[i].position;
            && IsPart(Delivered(calls, replies, i), s.view, p, Asked(calls, i))
            && t.view == s.view && t.places[i] == Place(p + |Delivered(calls, replies, i)|, true)
    decreases |calls|
  {
    OneReplyEach(s, calls, modes);
    if calls != [] {
      var n := |calls| - 1;
      FrontOnFile(s, calls, modes, i);
      ReadsInOrder(s, calls[..n], modes, i);
      var (u, before) := ApplyCalls(s, calls[..n], modes);
      if ReadsOn(calls[n], i) {
        OneRead(u, calls[n], modes, i);
        var r := ApplyCall(u, calls[n], modes).1;
        JoinParts(Delivered(calls[..n], before, i), r.bytes, s.view, s.places[i].position,
                  Asked(calls[..n], i), calls[n].op.count);
      } else {
        QuietCall(u, calls[n], modes, i);
        assert Delivered(calls[..n], before, i) + [] == Delivered(calls[..n], before, i);
      }
    }
  }

  /** A seek is from the start, from the position or from the end, and the reads go on
      from there; a target before the start is an error that changes nothing. */
  lemma {:induction false} SeekThenReads(s: Shared, offset: int, whence: int, calls: seq<Call>,
                                         modes: seq<Mode>, i: nat)
    requires OnFile(s, calls, modes, i) && modes[i].readable && modes[i].seekable
    requires forall k: nat :: k < |calls| ==> ReadsOn(calls[k], i) || Quiet(calls[k], i)
    ensures var (u, r) := ApplyCall(s, Call(i, SeekOp(offset, whence)), modes);
            var target := offset + if whence == 1 then s.places[i].position else if whence == 2 then |s.view| else 0;
            if whence < 0 || whence > 2 || target < 0 then u == s && r == Error(28)
            else
              && r == Position(target) && |u.places| == |modes| && InRange(calls, |modes|)
              && |ApplyCalls(u, calls, modes).1| == |calls|
              && IsPart(Delivered(calls, ApplyCalls(u, calls, modes).1, i), s.view, target, Asked(calls, i))
  {
    var (u, r) := ApplyCall(s, Call(i, SeekOp(offset, whence)), modes);
    if r.Position? {
      ReadsInOrder(u, calls, modes, i);
    } else {
      assert u.places == s.places;
    }
  }

  // ----- writes -----

  lemma {:induction false} OneWrite(s: Shared, c: Call, modes: seq<Mode>, i: nat)
    requires c.on < |s.places| == |modes| && WritesOn(c, i)
    requires s.places[i].open && modes[i].writable && !modes[i].directory && !modes[i].append
    ensures var (t, r), p := ApplyCall(s, c, modes), s.places[i].position;
            && t.view == WriteAt(s.view, p, c.op.data) && r == Written(|c.op.data|)
            && t.places[i] == Place(p + |c.op.data|, true)
  {
  }

  /** Writes without a position of their own put their data one behind the other, from the
      position of the stream on; a gap before it is zero and all other bytes stay. */
  lemma {:induction false} WritesInOrder(s: Shared, calls: seq<Call>, modes: seq<Mode>, i: nat)
    requires OnFile(s, calls, modes, i) && modes[i].writable && !modes[i].append
    requires forall k: nat :: k < |calls| ==> WritesOn(calls[k], i) || Quiet(calls[k], i)
    ensures InRange(calls, |modes|)
    ensures var t, p, sent := ApplyCalls(s, calls, modes).0, s.places[i].position, Sent(calls, i);
            && t.places[i] == Place(p + |sent|, true)
            && |t.view| == (if sent == [] || p + |sent| <= |s.view| then |s.view| else p + |sent|)
            && forall x: nat :: x < |t.view| ==>
                 t.view[x] == if p <= x < p + |sent| then sent[x - p] else if x < |s.view| then s.view[x] else 0
  {
    WrittenAt(s, calls, modes, i);
  }

  lemma {:induction false} WrittenAt(s: Shared, calls: seq<Call>, modes: seq<Mode>, i: nat)
    requires OnFile(s, calls, modes, i) && modes[i].writable && !modes[i].append
    requires forall k: nat :: k < |calls| ==> WritesOn(calls[k], i) || Quiet(calls[k], i)
    ensures InRange(calls, |modes|)
    ensures var t, p, sent := ApplyCalls(s, calls, modes).0, s.places[i].position, Sent(calls, i);
            t.places[i] == Place(p + |sent|, true) && t.view == WriteAt(s.view, p, sent)
    decreases |calls|
  {
    if calls != [] {
      var n := |calls| - 1;
      FrontOnFile(s, calls, modes, i);
      WrittenAt(s, calls[..n], modes, i);
      var u := ApplyCalls(s, calls[..n], modes).0;
      if WritesOn(calls[n], i) {
        OneWrite(u, calls[n], modes, i);
        WriteAtAppend(s.view, s.places[i].position, Sent(calls[..n], i), calls[n].op.data);
      } else {
        QuietCall(u, calls[n], modes, i);
        assert Sent(calls[..n], i) + [] == Sent(calls[..n], i);
      }
    }
  }

  /** Writes with a position of their own, through any stream, do not disturb them either,
      as long as they stay out of the range that the data takes. */
  lemma {:induction false} WritesApart(s: Shared, calls: seq<Call>, modes: seq<Mode>, i: nat, hi: nat)
    requires OnFile(s, calls, modes, i) && modes[i].writable && !modes[i].append
    requires s.places[i].position + |Sent(calls, i)| <= hi
    requires forall k: nat :: k < |calls| ==>
               WritesOn(calls[k], i) || Quiet(calls[k], i) || Elsewhere(calls[k], s.places[i].position, hi)
    ensures InRange(calls, |modes|)
    ensures var t, p, sent := ApplyCalls(s, calls, modes).0, s.places[i].position, Sent(calls, i);
            && t.places[i] == Place(p + |sent|, true)
            && (sent != [] ==> p + |sent| <= |t.view| && t.view[p..p + |sent|] == sent)
    decreases |calls|
  {
    if calls != [] {
      var n, p := |calls| - 1, s.places[i].position;
      FrontOnFile(s, calls, modes, i);
      WritesApart(s, calls[..n], modes, i, hi);
      var u, before := ApplyCalls(s, calls[..n], modes).0, Sent(calls[..n], i);
      if WritesOn(calls[n], i) {
        OneWrite(u, calls[n], modes, i);
        MoreWritten(u.view, p, before, calls[n].op.data);
      } else {
        assert before + [] == before;
        if Quiet(calls[n], i) {
          QuietCall(u, calls[n], modes, i);
        } else {
          OtherWrite(u, calls[n], modes, i, p, before, hi);
        }
      }
    }
  }

  lemma {:induction false} MoreWritten(view: Bytes, p: nat, before: Bytes, data: Bytes)
    requires before != [] ==> Holds(view, p, before)
    ensures before + data != [] ==> Holds(WriteAt(view, p + |before|, data), p, before + data)
  {
    if data == [] {
      assert before + data == before;
    } else {
      WriteHolds(view, p + |before|, data);
      if before == [] {
        assert before + data == data;
      } else {
        WriteKeeps(view, p + |before|, data, p, before);
        HoldsConcat(WriteAt(view, p + |before|, data), p, before, data);
      }
    }
  }

  lemma {:induction false} OtherWrite(s: Shared, c: Call, modes: seq<Mode>, i: nat, p: nat, kept: Bytes, hi: nat)
    requires c.on < |s.places| == |modes| && i < |modes| && !modes[i].append && Elsewhere(c, p, hi)
    requires p + |kept| <= hi && (kept != [] ==> Holds(s.view, p, kept))
    ensures var t := ApplyCall(s, c, modes).0;
            t.places[i] == s.places[i] && (kept != [] ==> Holds(t.view, p, kept))
  {
    var at := c.op.at.value;
    if at >= 0 && kept != [] { WriteKeeps(s.view, at, c.op.data, p, kept); }
  }

  // ----- append mode, truncation, closing -----

  /** In append mode a write without a position goes to the end of the file, wherever the
      stream stands, and leaves the stream behind it; a write with a position goes there,
      but leaves the stream at the old end. */
  lemma {:induction false} AppendLeaves(s: State, data: Bytes, at: Option<int>, mode: Mode)
    requires s.open && mode.append && mode.seekable && mode.writable && !mode.directory
    requires at.Some? ==> at.value >= 0
    ensures var (t, r) := Apply(s, WriteOp(data, at), mode);
            && r == Written(|data|) && t.open
            && t.position == (if at.Some? then |s.view| else |s.view| + |data|)
            && (at.None? ==> t.view == s.view + data)
            && (at.Some? && data != [] ==> at.value + |data| <= |t.view| && t.view[at.value..at.value + |data|] == data)
  {
    if at.None? {
      WriteAtEnd(s.view, data);
    } else {
      WriteAtLength(s.view, at.value, data);
    }
  }

  /** Truncation cuts the content or fills it with zeros, and moves no stream. */
  lemma {:induction false} TruncateCuts(s: Shared, size: nat, modes: seq<Mode>, i: nat)
    requires i < |s.places| == |modes| && s.places[i].open
    requires modes[i].writable && modes[i].permitted && !modes[i].directory
    ensures var (t, r) := ApplyCall(s, Call(i, TruncateOp(size)), modes);
            && r == Done && t.places == s.places && |t.view| == size
            && forall x: nat :: x < size ==> t.view[x] == if x < |s.view| then s.view[x] else 0
  {
    assert s.places[i := s.places[i]] == s.places;
  }

  /** A closed stream stays closed and where it is, and only gives errors. */
  lemma {:induction false} ClosedStays(s: Shared, calls: seq<Call>, modes: seq<Mode>, i: nat)
    requires i < |s.places| == |modes| && InRange(calls, |modes|) && !s.places[i].open
    ensures |ApplyCalls(s, calls, modes).1| == |calls|
    ensures var (t, replies) := ApplyCalls(s, calls, modes);
            && t.places[i] == s.places[i]
            && forall k: nat :: k < |calls| && calls[k].on == i ==> replies[k] == Error(8) || replies[k] == Error(28)
    decreases |calls|
  {
    OneReplyEach(s, calls, modes);
    if calls != [] {
      var n := |calls| - 1;
      ClosedStays(s, calls[..n], modes, i);
      assert ApplyCalls(s, calls, modes).1[..n] == ApplyCalls(s, calls[..n], modes).1;
      ClosedCall(ApplyCalls(s, calls[..n], modes).0, calls[n], modes, i);
    }
  }

  lemma {:induction false} ClosedCall(s: Shared, c: Call, modes: seq<Mode>, i: nat)
    requires i < |s.places| == |modes| && c.on < |modes| && !s.places[i].open
    ensures var (t, r) := ApplyCall(s, c, modes);
            && t.places[i] == s.places[i] && (c.on == i ==> t.view == s.view && (r == Error(8) || r == Error(28)))
  {
  }

  // ----- errors -----

  /** A call that ends with an error changes nothing; the error number of every call. */
  lemma {:induction false} ErrorNumbers(s: State, op: Op, mode: Mode)
    ensures var (t, r) := Apply(s, op, mode);
            var access := op.ReadOp? || op.WriteOp?;
            var bad := access && ((op.at.Some? && op.at.value < 0) || (op.ReadOp? && op.count < 0));
            var denied := access && !if op.ReadOp? then mode.readable else mode.writable;
            var target := if !op.SeekOp? then 0
                          else if op.whence == 0 then op.offset
                          else if op.whence == 1 then s.position + op.offset
                          else op.offset + if mode.directory then 0 else |s.view|;
            var shrinks := op.TruncateOp? && op.size >= 0 && mode.writable;
            && (r.Error? ==> t == s && r.errno in {2, 8, 28, 31, 70})
            && (r == Error(8) <==> !bad && (!s.open || denied))
            && (r == Error(31) <==> s.open && !bad && !denied && (access || shrinks) && mode.directory)
            && (r == Error(70) <==> s.open && !bad && !denied && !mode.seekable
                                    && (op.SeekOp? || (access && !mode.directory && op.at.Some?)))
            && (r == Error(28) <==>
                  || bad
                  || (s.open && op.SeekOp? && mode.seekable && (op.whence < 0 || op.whence > 2 || target < 0))
                  || (s.open && op.TruncateOp? && !shrinks))
            && (r == Error(2) <==> s.open && shrinks && !mode.directory && !mode.permitted)
  {
  }
}
