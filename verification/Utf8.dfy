/**
 * The UTF-8 codec of the runtime: UTF-16 strings written as bytes into a heap, and
 * bytes read back as strings. Shifts and masks are written as division and
 * remainder; the parts never overlap, so "or" is addition.
 */
module Utf8 {
  import opened Words
  import opened ByteFile

  type Str = seq<Unit>

  predicate IsSurrogate(u: int) { 0xD800 <= u <= 0xDFFF }
  predicate IsHigh(u: int) { 0xD800 <= u <= 0xDBFF }
  predicate IsLow(u: int) { 0xDC00 <= u <= 0xDFFF }

  /** Unicode scalar values (section 3 of RFC 3629 excludes surrogates). */
  predicate IsScalar(c: int) { 0 <= c < 0x11_0000 && !IsSurrogate(c) }

  // ----- from UTF-16 to code points and back -----

  /** What the encoder makes of a surrogate and the unit behind it. */
  function Combine(u: Unit, u1: Unit): nat {
    0x1_0000 + (u % 1024) * 1024 + u1 % 1024
  }

  /** The code points that the encoder sees. A surrogate always takes the next unit
      with it, whatever it is; at the end of the string that unit reads as 0. */
  function Scan(s: Str): seq<nat> {
    if s == [] then []
    else if !IsSurrogate(s[0]) then [s[0]] + Scan(s[1..])
    else if |s| == 1 then [Combine(s[0], 0)]
    else [Combine(s[0], s[1])] + Scan(s[2..])
  }

  function Utf16(c: nat): Str
    requires IsScalar(c)
  {
    if c < 0x1_0000 then [c] else [0xD800 + (c - 0x1_0000) / 1024, 0xDC00 + (c - 0x1_0000) % 1024]
  }

  predicate AllScalars(cs: seq<nat>) {
    forall k: nat :: k < |cs| ==> IsScalar(cs[k])
  }

  function Utf16All(cs: seq<nat>): Str
    requires AllScalars(cs)
  {
    if cs == [] then [] else Utf16(cs[0]) + Utf16All(cs[1..])
  }

  /** Every surrogate is half of a high-low pair. */
  predicate WellFormed(s: Str) {
    if s == [] then true
    else if !IsSurrogate(s[0]) then WellFormed(s[1..])
    else |s| >= 2 && IsHigh(s[0]) && IsLow(s[1]) && WellFormed(s[2..])
  }

  /** A high surrogate has a low one behind it, and a low one a high one in front. */
  predicate Paired(s: Str, i: nat)
    requires i < |s|
  {
    && (0xD800 <= s[i] < 0xDC00 ==> i + 1 < |s| && 0xDC00 <= s[i + 1] < 0xE000)
    && (0xDC00 <= s[i] < 0xE000 ==> i > 0 && 0xD800 <= s[i - 1] < 0xDC00)
  }

  ghost predicate AllPaired(s: Str) {
    forall i: nat :: i < |s| ==> Paired(s, i)
  }

  /** A string is well-formed exactly when, unit by unit, its surrogates are paired. */
  lemma {:induction false} WellFormedExactly(s: Str)
    ensures WellFormed(s) <==> AllPaired(s)
  {
    if s != [] {
      var n := if IsSurrogate(s[0]) then 2 else 1;
      if n <= |s| { WellFormedExactly(s[n..]); }
      if WellFormed(s) {
        forall i: nat | i < |s| ensures Paired(s, i) {
          if i >= n { assert Paired(s[n..], i - n); }
        }
      }
      if AllPaired(s) {
        assert Paired(s, 0) && (n == 2 ==> Paired(s, 1));
        forall i: nat | i < |s[n..]| ensures Paired(s[n..], i) {
          assert Paired(s, i + n) && Paired(s, i + n - 1);
        }
      }
    }
  }

  lemma {:induction false} ScanIsScalars(s: Str)
    ensures AllScalars(Scan(s))
  {
    if s != [] {
      ScanIsScalars(s[1..]);
      if |s| >= 2 { ScanIsScalars(s[2..]); }
    }
  }

  /** Scanning loses nothing exactly on well-formed strings. */
  lemma {:induction false} ScanRoundTrip(s: Str)
    ensures AllScalars(Scan(s)) && (Utf16All(Scan(s)) == s <==> WellFormed(s))
  {
    ScanIsScalars(s);
    if s == [] {
    } else if !IsSurrogate(s[0]) {
      ScanRoundTrip(s[1..]);
      var t := Utf16All(Scan(s[1..]));
      assert Scan(s)[1..] == Scan(s[1..]);
      assert Utf16All(Scan(s)) == [s[0]] + t;
      assert s == [s[0]] + s[1..];
      assert ([s[0]] + t)[1..] == t;
    } else if |s| == 1 {
      assert Scan(s)[1..] == [];
      assert Utf16All(Scan(s)) == Utf16(Combine(s[0], 0)) + [];
    } else {
      ScanRoundTrip(s[2..]);
      PairRoundTrip(s[0], s[1]);
      var c, t := Combine(s[0], s[1]), Utf16All(Scan(s[2..]));
      assert Scan(s)[1..] == Scan(s[2..]);
      assert Utf16All(Scan(s)) == Utf16(c) + t;
      assert s == [s[0], s[1]] + s[2..];
      assert (Utf16(c) + t)[..2] == Utf16(c) && (Utf16(c) + t)[2..] == t;
    }
  }

  lemma {:induction false} PairRoundTrip(u: Unit, u1: Unit)
    requires IsSurrogate(u)
    ensures IsScalar(Combine(u, u1))
    ensures Utf16(Combine(u, u1)) == [u, u1] <==> IsHigh(u) && IsLow(u1)
  {
    var x, y := u % 1024, u1 % 1024;
    assert (x * 1024 + y) / 1024 == x && (x * 1024 + y) % 1024 == y;
    assert 0xD800 + x == u <==> IsHigh(u);
    assert 0xDC00 + y == u1 <==> IsLow(u1);
  }

  // ----- encoding -----

  function EncLength(c: nat): nat {
    if c <= 0x7F then 1 else if c <= 0x7FF then 2 else if c <= 0xFFFF then 3 else 4
  }

  /** Byte `i` of the encoding of a code point. */
  function EncByte(c: nat, i: nat): Byte
    requires IsScalar(c) && i < EncLength(c)
  {
    if c <= 0x7F then c
    else if c <= 0x7FF then [0xC0 + c / 64, 0x80 + c % 64][i]
    else if c <= 0xFFFF then [0xE0 + c / 4096, 0x80 + c / 64 % 64, 0x80 + c % 64][i]
    else [0xF0 + c / 262144, 0x80 + c / 4096 % 64, 0x80 + c / 64 % 64, 0x80 + c % 64][i]
  }

  /** The UTF-8 bytes of a code point (section 3 of RFC 3629). */
  function Enc(c: nat): (b: Bytes)
    requires IsScalar(c)
    ensures 1 <= |b| <= 4
  {
    seq(EncLength(c), i requires 0 <= i < EncLength(c) => EncByte(c, i))
  }

  /** The six bits of a byte behind the first. */
  predicate Tail(b: int, bits: int) {
    0x80 <= b < 0xC0 && bits == b - 0x80
  }

  /** The table of section 3 of RFC 3629: the first byte tells the length, and every other
      byte carries six bits. */
  lemma {:induction false} EncIs(c: nat)
    requires IsScalar(c)
    ensures var e, x, y, z := Enc(c), c / 0x1000 % 0x40, c / 0x40 % 0x40, c % 0x40;
            if c < 0x80 then e == [c]
            else if c < 0x800 then |e| == 2 && e[0] == 0xC0 + c / 0x40 < 0xE0 && Tail(e[1], z)
            else if c < 0x1_0000 then |e| == 3 && e[0] == 0xE0 + c / 0x1000 < 0xF0 && Tail(e[1], y) && Tail(e[2], z)
            else |e| == 4 && e[0] == 0xF0 + c / 0x4_0000 < 0xF8 && Tail(e[1], x) && Tail(e[2], y) && Tail(e[3], z)
  {
  }

  function EncAll(cs: seq<nat>): Bytes
    requires AllScalars(cs)
  {
    if cs == [] then [] else Enc(cs[0]) + EncAll(cs[1..])
  }

  /** How many leading code points fit into `room` bytes. */
  function FitCount(cs: seq<nat>, room: int): (k: nat)
    requires AllScalars(cs)
    ensures k <= |cs|
  {
    if cs == [] || |Enc(cs[0])| > room then 0 else 1 + FitCount(cs[1..], room - |Enc(cs[0])|)
  }

  /** The chosen prefix fits, and no longer one does. */
  lemma {:induction false} FitCountIsMaximal(cs: seq<nat>, room: nat, k: nat)
    requires AllScalars(cs) && k <= |cs|
    ensures |EncAll(cs[..k])| <= room <==> k <= FitCount(cs, room)
    decreases |cs|
  {
    if k > 0 {
      assert cs[..k][0] == cs[0] && cs[..k][1..] == cs[1..][..k - 1];
      if |Enc(cs[0])| <= room { FitCountIsMaximal(cs[1..], room - |Enc(cs[0])|, k - 1); }
    }
  }

  /** lengthBytesUTF8 */
  method LengthBytesUTF8(s: Str) returns (len: nat)
    ensures AllScalars(Scan(s)) && len == |EncAll(Scan(s))|
  {
    ScanIsScalars(s);
    len := 0;
    var i := 0;
    while i < |s|
      invariant 0 <= i
      invariant AllScalars(Scan(From(s, i)))
      invariant len + |EncAll(Scan(From(s, i)))| == |EncAll(Scan(s))|
    {
      ScanStep(s, i);
      var c := s[i];
      if c <= 0x7F {
        len := len + 1;
      } else if c <= 0x7FF {
        len := len + 2;
      } else if 0xD800 <= c <= 0xDFFF {
        len := len + 4;
        i := i + 1;
      } else {
        len := len + 3;
      }
      i := i + 1;
    }
  }

  /** The rest of a string; the index may have stepped past the end. */
  function From(s: Str, i: nat): Str {
    if i <= |s| then s[i..] else []
  }

  function PointAt(s: Str, i: nat): nat
    requires i < |s|
  {
    if IsSurrogate(s[i]) then Combine(s[i], if i + 1 < |s| then s[i + 1] else 0) else s[i]
  }

  function After(s: Str, i: nat): nat
    requires i < |s|
  {
    if IsSurrogate(s[i]) then i + 2 else i + 1
  }

  lemma {:induction false} ScanStep(s: Str, i: nat)
    requires i < |s|
    ensures Scan(From(s, i)) == [PointAt(s, i)] + Scan(From(s, After(s, i)))
    ensures AllScalars(Scan(From(s, i))) && AllScalars(Scan(From(s, After(s, i))))
    ensures EncAll(Scan(From(s, i))) == Enc(PointAt(s, i)) + EncAll(Scan(From(s, After(s, i))))
  {
    var t := s[i..];
    assert t[1..] == s[i + 1..];
    if i + 2 <= |s| { assert t[2..] == s[i + 2..]; }
    ScanIsScalars(t);
    ScanIsScalars(From(s, After(s, i)));
    assert Scan(t)[0] == PointAt(s, i) && Scan(t)[1..] == Scan(From(s, After(s, i)));
  }

  /** The bytes that the encoder writes into `room` bytes, without the terminator. */
  function Encoded(s: Str, room: nat): (b: Bytes)
    ensures |b| <= room
  {
    ScanIsScalars(s);
    var cs := Scan(s);
    var k := FitCount(cs, room);
    FitCountIsMaximal(cs, room, k);
    EncAll(cs[..k])
  }

  /** With enough room for all of it the encoder writes the whole string. */
  lemma {:induction false} EncodedWhole(s: Str, room: nat)
    requires AllScalars(Scan(s)) && |EncAll(Scan(s))| <= room
    ensures Encoded(s, room) == EncAll(Scan(s))
  {
    var cs := Scan(s);
    assert cs[..|cs|] == cs;
    FitCountIsMaximal(cs, room, |cs|);
  }

  /** With less room it writes whole code points, and one more would not have fitted. */
  lemma {:induction false} EncodedIsLongestPrefix(s: Str, room: nat) returns (k: nat)
    ensures AllScalars(Scan(s)) && k <= |Scan(s)| && Encoded(s, room) == EncAll(Scan(s)[..k])
    ensures forall j: nat :: k < j <= |Scan(s)| ==> |EncAll(Scan(s)[..j])| > room
  {
    ScanIsScalars(s);
    k := FitCount(Scan(s), room);
    forall j: nat | k < j <= |Scan(s)|
      ensures |EncAll(Scan(s)[..j])| > room
    {
      FitCountIsMaximal(Scan(s), room, j);
    }
  }

  lemma {:induction false} AllScalarsConcat(a: seq<nat>, b: seq<nat>)
    requires AllScalars(a) && AllScalars(b)
    ensures AllScalars(a + b)
  {
  }

  lemma {:induction false} EncAllConcat(a: seq<nat>, b: seq<nat>)
    requires AllScalars(a) && AllScalars(b)
    ensures AllScalars(a + b) && EncAll(a + b) == EncAll(a) + EncAll(b)
  {
    AllScalarsConcat(a, b);
    if a == [] {
      assert a + b == b;
    } else {
      EncAllConcat(a[1..], b);
      assert (a + b)[0] == a[0] && (a + b)[1..] == a[1..] + b;
      Assoc(Enc(a[0]), EncAll(a[1..]), EncAll(b));
    }
  }

  /** Consecutive stores into the heap are one write of the bytes so far. */
  method Emit(heap: array<Byte>, out: nat, b: Bytes, ghost base: Bytes, ghost start: nat, ghost done: Bytes)
    requires out + |b| <= heap.Length && out == start + |done| && heap[..] == WriteAt(base, start, done)
    requires |base| == heap.Length
    modifies heap
    ensures heap[..] == WriteAt(base, start, done + b)
  {
    WriteAtAppend(base, start, done, b);
    forall i | 0 <= i < |b| {
      heap[out + i] := b[i];
    }
    ghost var was := WriteAt(base, start, done);
    SameBytes(heap[..], WriteAt(was, out, b));
  }

  /** The four-way branch of the encoder loop: the bytes of a code point, unless they
      do not fit in front of the place for the terminator. */
  method EncodePoint(u: nat, out: nat, endIdx: nat) returns (fits: bool, b: Bytes)
    requires IsScalar(u)
    ensures fits <==> out + |Enc(u)| <= endIdx
    ensures fits ==> b == Enc(u)
  {
    fits, b := false, [];
    if u <= 0x7F {
      if out >= endIdx { return; }
      b := [u];
    } else if u <= 0x7FF {
      if out + 1 >= endIdx { return; }
      b := [0xC0 + u / 64, 0x80 + u % 64];
    } else if u <= 0xFFFF {
      if out + 2 >= endIdx { return; }
      b := [0xE0 + u / 4096, 0x80 + u / 64 % 64, 0x80 + u % 64];
    } else {
      if out + 3 >= endIdx { return; }
      b := [0xF0 + u / 262144, 0x80 + u / 4096 % 64, 0x80 + u / 64 % 64, 0x80 + u % 64];
    }
    fits := true;
  }

  /** stringToUTF8Array. At least the given number of bytes are available in the heap. */
  method StringToUTF8Array(str: Str, heap: array<Byte>, outIdx: nat, maxBytesToWrite: int) returns (written: nat)
    requires outIdx + maxBytesToWrite <= heap.Length
    modifies heap
    ensures maxBytesToWrite <= 0 ==> written == 0 && heap[..] == old(heap[..])
    ensures maxBytesToWrite > 0 ==>
              && written == |Encoded(str, maxBytesToWrite - 1)|
              && heap[..] == WriteAt(old(heap[..]), outIdx, Encoded(str, maxBytesToWrite - 1) + [0])
  {
    if maxBytesToWrite <= 0 {
      return 0;
    }
    var endIdx := outIdx + maxBytesToWrite - 1;
    ghost var base, bytes := heap[..], Encoded(str, maxBytesToWrite - 1);
    var out := EncodeLoop(str, heap, outIdx, endIdx);
    Emit(heap, out, [0], base, outIdx, bytes);
    written := out - outIdx;
  }

  /** The loop of the encoder: code points as long as they fit. */
  method EncodeLoop(str: Str, heap: array<Byte>, outIdx: nat, endIdx: nat) returns (out: nat)
    requires outIdx <= endIdx < heap.Length
    modifies heap
    ensures out == outIdx + |Encoded(str, endIdx - outIdx)|
    ensures heap[..] == WriteAt(old(heap[..]), outIdx, Encoded(str, endIdx - outIdx))
  {
    out := outIdx;
    ghost var base, room := heap[..], endIdx - outIdx;
    ghost var done: seq<nat>, bytes: Bytes := [], [];
    EncodingStarts(str, room);
    var i, fits := 0, true;
    while i < |str|
      invariant 0 <= i && fits && Encoding(str, i, done, bytes, room)
      invariant out == outIdx + |bytes| && heap.Length == |base| && heap[..] == WriteAt(base, outIdx, bytes)
      decreases |str| - i
    {
      fits, i, out, done, bytes := EncodeNext(str, i, heap, out, endIdx, base, outIdx, done, bytes);
      if !fits {
        break;
      }
    }
    if fits { EncodingEnds(str, i, done, bytes, room); }
    assert bytes == Encoded(str, room);
  }

  /** The loop body of the encoder. */
  method EncodeNext(str: Str, i: nat, heap: array<Byte>, out: nat, endIdx: nat,
                    ghost base: Bytes, ghost start: nat, ghost done: seq<nat>, ghost bytes: Bytes)
    returns (fits: bool, i': nat, out': nat, ghost done': seq<nat>, ghost bytes': Bytes)
    requires i < |str| && start <= endIdx < heap.Length && Encoding(str, i, done, bytes, endIdx - start)
    requires out == start + |bytes| && heap.Length == |base| && heap[..] == WriteAt(base, start, bytes)
    modifies heap
    ensures out' == start + |bytes'| && heap[..] == WriteAt(base, start, bytes')
    ensures fits ==> i' == After(str, i) && Encoding(str, i', done', bytes', endIdx - start)
    ensures !fits ==> bytes' == bytes && Encoded(str, endIdx - start) == bytes
  {
    out', done', bytes' := out, done, bytes;
    EncodingAdvances(str, i, done, bytes, endIdx - start);
    var u;
    u, i' := NextPoint(str, i);
    var b;
    fits, b := EncodePoint(u, out, endIdx);
    if !fits {
      return;
    }
    Emit(heap, out, b, base, start, bytes);
    out' := out + |b|;
    done', bytes' := done + [u], bytes + b;
  }

  /** Reading the next code point, with the unit behind a surrogate. */
  method NextPoint(str: Str, i: nat) returns (u: nat, i': nat)
    requires i < |str|
    ensures u == PointAt(str, i) && i' == After(str, i)
  {
    u, i' := str[i], i;
    if 0xD800 <= u <= 0xDFFF {
      i' := i' + 1;
      var u1: nat := if i' < |str| then str[i'] else 0;
      u := 0x1_0000 + (u % 1024) * 1024 + u1 % 1024;
    }
    i' := i' + 1;
  }

  /** The code points before unit `i` have been encoded into `bytes`. */
  ghost predicate Encoding(s: Str, i: nat, done: seq<nat>, bytes: Bytes, room: nat) {
    var cs, rest := Scan(s), Scan(From(s, i));
    && AllScalars(cs) && AllScalars(done) && AllScalars(rest)
    && cs == done + rest && bytes == EncAll(done) && |bytes| <= room
    && FitCount(cs, room) == |done| + FitCount(rest, room - |bytes|)
  }

  lemma {:induction false} EncodingStarts(s: Str, room: nat)
    ensures Encoding(s, 0, [], [], room)
  {
    ScanIsScalars(s);
    assert s[0..] == s;
  }

  lemma {:induction false} EncodingAdvances(s: Str, i: nat, done: seq<nat>, bytes: Bytes, room: nat)
    requires i < |s| && Encoding(s, i, done, bytes, room)
    ensures IsScalar(PointAt(s, i))
    ensures var u := PointAt(s, i);
            if |bytes| + |Enc(u)| <= room then Encoding(s, After(s, i), done + [u], bytes + Enc(u), room)
            else Encoded(s, room) == bytes
  {
    var u, later := PointAt(s, i), Scan(From(s, After(s, i)));
    ScanStep(s, i);
    EncodeOneMore(done, u, later, room - |bytes|);
    assert Scan(s)[..|done|] == done;
  }

  lemma {:induction false} EncodingEnds(s: Str, i: nat, done: seq<nat>, bytes: Bytes, room: nat)
    requires i >= |s| && Encoding(s, i, done, bytes, room)
    ensures Encoded(s, room) == bytes
  {
    assert From(s, i) == [];
    assert Scan(s)[..|done|] == done;
  }

  lemma {:induction false} EncodeOneMore(done: seq<nat>, u: nat, later: seq<nat>, room: int)
    requires AllScalars(done) && IsScalar(u) && AllScalars(later)
    ensures AllScalars(done + [u]) && EncAll(done + [u]) == EncAll(done) + Enc(u)
    ensures done + ([u] + later) == (done + [u]) + later
    ensures AllScalars([u] + later)
    ensures FitCount([u] + later, room) == if |Enc(u)| > room then 0 else 1 + FitCount(later, room - |Enc(u)|)
  {
    EncAllConcat(done, [u]);
    assert EncAll([u]) == Enc(u) + EncAll([]);
    AllScalarsConcat([u], later);
    assert ([u] + later)[1..] == later;
  }

  // ----- decoding -----

  /** Reading behind the end of the heap gives 0 once masked. */
  function ByteAt(heap: Bytes, i: nat): Byte {
    if i < |heap| then heap[i] else 0
  }

  /** Where a string ends: the first zero byte, or the limit. */
  function EndOf(heap: Bytes, idx: nat, limit: nat): (end: nat)
    ensures idx <= end
    decreases |heap| - idx
  {
    if idx < |heap| && heap[idx] != 0 && idx < limit then EndOf(heap, idx + 1, limit) else idx
  }

  /** What up to four bytes decode to: the units, and how many bytes were taken. */
  function DecodePoint(u0: Byte, b1: Byte, b2: Byte, b3: Byte): (r: (Str, nat))
    ensures 1 <= r.1 <= 4
  {
    var u1, u2, u3 := b1 % 64, b2 % 64, b3 % 64;
    if u0 < 0x80 then ([u0], 1)
    else if 0xC0 <= u0 < 0xE0 then ([u0 % 32 * 64 + u1], 2)
    else if 0xE0 <= u0 < 0xF0 then ([u0 % 16 * 4096 + u1 * 64 + u2], 3)
    else
      var c := u0 % 8 * 262144 + u1 * 4096 + u2 * 64 + u3;
      (if c < 0x1_0000 then [c] else [0xD800 + (c - 0x1_0000) / 1024, 0xDC00 + (c - 0x1_0000) % 1024], 4)
  }

  /** One step of the decoder loop: the units it appends and where it goes on. */
  function DecodeStep(heap: Bytes, idx: nat): (r: (Str, nat))
    requires idx < |heap|
    ensures r.1 > idx
  {
    var (units, n) := DecodePoint(heap[idx], ByteAt(heap, idx + 1), ByteAt(heap, idx + 2), ByteAt(heap, idx + 3));
    (units, idx + n)
  }

  /** The units that a step appends at a place, and where it goes on. */
  type Stepper = nat -> (Str, nat)

  function StepIn(heap: Bytes): Stepper {
    (i: nat) => if i < |heap| then DecodeStep(heap, i) else ([], i)
  }

  function RunSteps(step: Stepper, idx: nat, end: nat): Str
    decreases end - idx
  {
    if idx >= end || step(idx).1 <= idx then [] else step(idx).0 + RunSteps(step, step(idx).1, end)
  }

  function DecodeFrom(heap: Bytes, idx: nat, end: nat): Str {
    RunSteps(StepIn(heap), idx, end)
  }

  lemma {:induction false} EndOfInside(heap: Bytes, idx: nat, limit: nat)
    requires idx <= |heap|
    ensures EndOf(heap, idx, limit) <= |heap|
    decreases |heap| - idx
  {
    if idx < |heap| { EndOfInside(heap, idx + 1, limit); }
  }

  function Decode(heap: Bytes, idx: nat, limit: nat): Str
    requires idx <= |heap|
  {
    EndOfInside(heap, idx, limit);
    DecodeFrom(heap, idx, EndOf(heap, idx, limit))
  }

  /** UTF8ArrayToString, the loop that is used when no native decoder takes over. */
  method UTF8ArrayToString(heap: array<Byte>, start: nat, limit: nat) returns (str: Str)
    requires start <= heap.Length
    ensures str == Decode(heap[..], start, limit)
  {
    var end := start;
    while end < heap.Length && heap[end] != 0 && end < limit
      invariant start <= end <= heap.Length
      invariant EndOf(heap[..], start, limit) == EndOf(heap[..], end, limit)
    {
      end := end + 1;
    }
    str := [];
    var idx := start;
    while idx < end
      invariant start <= idx
      invariant str + DecodeFrom(heap[..], idx, end) == Decode(heap[..], start, limit)
    {
      var units, next := DecodeNext(heap, idx);
      assert StepIn(heap[..])(idx) == (units, next);
      Assoc(str, units, DecodeFrom(heap[..], next, end));
      str := str + units;
      idx := next;
    }
    assert str + [] == str;
  }

  /** The body of the decoder loop. */
  method DecodeNext(heap: array<Byte>, idx: nat) returns (units: Str, next: nat)
    requires idx < heap.Length
    ensures (units, next) == DecodeStep(heap[..], idx)
  {
    next := idx;
    var u0: nat := heap[next];
    next := next + 1;
    if u0 < 0x80 {
      return [u0], next;
    }
    var u1: nat := (if next < heap.Length then heap[next] else 0) % 64;
    next := next + 1;
    if 0xC0 <= u0 < 0xE0 {
      return [u0 % 32 * 64 + u1], next;
    }
    var u2: nat := (if next < heap.Length then heap[next] else 0) % 64;
    next := next + 1;
    if 0xE0 <= u0 < 0xF0 {
      u0 := u0 % 16 * 4096 + u1 * 64 + u2;
    } else {
      u0 := u0 % 8 * 262144 + u1 * 4096 + u2 * 64 + (if next < heap.Length then heap[next] else 0) % 64;
      next := next + 1;
    }
    if u0 < 0x1_0000 {
      units := [u0];
    } else {
      var ch := u0 - 0x1_0000;
      units := [0xD800 + ch / 1024, 0xDC00 + ch % 1024];
    }
  }

  // ----- decoding what was encoded -----

  /** The encoding of one code point decodes to its units. */
  lemma {:induction false} DecodeEncodedPoint(heap: Bytes, idx: nat, c: nat)
    requires IsScalar(c) && Holds(heap, idx, Enc(c))
    ensures DecodeStep(heap, idx) == (Utf16(c), idx + |Enc(c)|)
  {
    var b := Enc(c);
    forall i | 0 <= i < |b| ensures heap[idx + i] == b[i] {
      assert heap[idx..idx + |b|][i] == heap[idx + i];
    }
    if c <= 0x7F {
    } else if c <= 0x7FF {
      DecodeTwo(c, ByteAt(heap, idx + 2), ByteAt(heap, idx + 3));
    } else if c <= 0xFFFF {
      DecodeThree(c, ByteAt(heap, idx + 3));
    } else {
      DecodeFour(c);
    }
  }

  lemma {:induction false} DecodeTwo(c: nat, b2: Byte, b3: Byte)
    requires 0x80 <= c <= 0x7FF
    ensures DecodePoint(Enc(c)[0], Enc(c)[1], b2, b3) == ([c], 2)
  {
    Low6(c % 64);
    DivModUnique(0xC0 + c / 64, 32, 6, c / 64);
  }

  lemma {:induction false} DecodeThree(c: nat, b3: Byte)
    requires 0x800 <= c <= 0xFFFF && IsScalar(c)
    ensures DecodePoint(Enc(c)[0], Enc(c)[1], Enc(c)[2], b3) == ([c], 3)
  {
    Low6(c % 64);
    Low6(c / 64 % 64);
    Digits(c);
    DivModUnique(0xE0 + c / 4096, 16, 14, c / 4096);
  }

  lemma {:induction false} DecodeFour(c: nat)
    requires 0x1_0000 <= c <= 0x10_FFFF
    ensures DecodePoint(Enc(c)[0], Enc(c)[1], Enc(c)[2], Enc(c)[3]) == (Utf16(c), 4)
  {
    Low6(c % 64);
    Low6(c / 64 % 64);
    Low6(c / 4096 % 64);
    Digits(c);
    DivModUnique(0xF0 + c / 262144, 8, 30, c / 262144);
  }

  lemma {:induction false} Low6(x: nat)
    requires x < 64
    ensures (0x80 + x) % 64 == x
  {
    DivModUnique(0x80 + x, 64, 2, x);
  }

  /** The six-bit groups of a number put together again. */
  lemma {:induction false} Digits(c: nat)
    ensures c == c / 4096 * 4096 + c / 64 % 64 * 64 + c % 64
    ensures c == c / 262144 * 262144 + c / 4096 % 64 * 4096 + c / 64 % 64 * 64 + c % 64
  {
    var q1, q2, q3 := c / 64, c / 64 / 64, c / 64 / 64 / 64;
    assert c == q1 * 64 + c % 64;
    assert q1 == q2 * 64 + q1 % 64;
    assert q2 == q3 * 64 + q2 % 64;
    DivModUnique(c, 4096, q2, q1 % 64 * 64 + c % 64);
    DivModUnique(c, 262144, q3, q2 % 64 * 4096 + q1 % 64 * 64 + c % 64);
  }

  /** An encoding in the heap is its first point followed by the rest. */
  lemma {:induction false} HeadHolds(heap: Bytes, idx: nat, cs: seq<nat>, tail: Bytes)
    requires AllScalars(cs) && cs != [] && Holds(heap, idx, EncAll(cs) + tail)
    ensures Holds(heap, idx, Enc(cs[0])) && Holds(heap, idx + |Enc(cs[0])|, EncAll(cs[1..]) + tail)
    ensures tail == [] ==> Holds(heap, idx + |Enc(cs[0])|, EncAll(cs[1..]))
    ensures idx + |EncAll(cs)| == idx + |Enc(cs[0])| + |EncAll(cs[1..])| <= |heap|
  {
    var e, rest := Enc(cs[0]), EncAll(cs[1..]);
    Assoc(e, rest, tail);
    HoldsPart(heap, idx, e, rest + tail);
    HoldsPart(heap, idx + |e|, rest, tail);
  }

  /** Running the steps of a point and then the rest. */
  lemma {:induction false} RunFirst(step: Stepper, idx: nat, next: nat, end: nat, units: Str, rest: Str)
    requires step(idx) == (units, next) && idx < next <= end && RunSteps(step, next, end) == rest
    ensures RunSteps(step, idx, end) == units + rest
  {
  }

  /** At the encoding of a code point the step gives its units. */
  ghost predicate StepsPoints(heap: Bytes, step: Stepper) {
    forall i: nat, c: nat {:trigger StepsPoint(heap, step, i, c)} :: StepsPoint(heap, step, i, c)
  }

  ghost predicate StepsPoint(heap: Bytes, step: Stepper, i: nat, c: nat) {
    IsScalar(c) && Holds(heap, i, Enc(c)) ==> step(i) == (Utf16(c), i + |Enc(c)|)
  }

  lemma {:induction false} RunEncoded(heap: Bytes, step: Stepper, idx: nat, end: nat, cs: seq<nat>)
    requires AllScalars(cs) && Holds(heap, idx, EncAll(cs) + []) && end == idx + |EncAll(cs)|
    requires StepsPoints(heap, step)
    ensures RunSteps(step, idx, end) == Utf16All(cs)
    decreases |cs|
  {
    if cs != [] {
      var next := idx + |Enc(cs[0])|;
      HeadHolds(heap, idx, cs, []);
      RunEncoded(heap, step, next, end, cs[1..]);
      assert StepsPoint(heap, step, idx, cs[0]);
      RunFirst(step, idx, next, end, Utf16(cs[0]), Utf16All(cs[1..]));
    }
  }

  lemma {:induction false} DecodeEncoded(heap: Bytes, idx: nat, cs: seq<nat>)
    requires AllScalars(cs) && Holds(heap, idx, EncAll(cs) + [])
    ensures DecodeFrom(heap, idx, idx + |EncAll(cs)|) == Utf16All(cs)
  {
    var step := StepIn(heap);
    forall i: nat, c: nat ensures StepsPoint(heap, step, i, c) {
      if IsScalar(c) && Holds(heap, i, Enc(c)) { DecodeEncodedPoint(heap, i, c); }
    }
    RunEncoded(heap, step, idx, idx + |EncAll(cs)|, cs);
  }

  /** The code points in front of the first zero. */
  function BeforeZero(cs: seq<nat>): (r: seq<nat>)
    requires AllScalars(cs)
    ensures AllScalars(r) && |r| <= |cs| && (forall k :: 0 <= k < |r| ==> r[k] == cs[k] != 0)
    ensures |r| < |cs| ==> cs[|r|] == 0
  {
    if cs == [] || cs[0] == 0 then [] else [cs[0]] + BeforeZero(cs[1..])
  }

  lemma {:induction false} EndOfSkips(heap: Bytes, idx: nat, b: Bytes)
    requires Holds(heap, idx, b) && forall i :: 0 <= i < |b| ==> b[i] != 0
    ensures EndOf(heap, idx, |heap|) == EndOf(heap, idx + |b|, |heap|)
    decreases |b|
  {
    if b != [] {
      assert b == [b[0]] + b[1..];
      HoldsPart(heap, idx, [b[0]], b[1..]);
      assert heap[idx..idx + 1][0] == b[0];
      EndOfSkips(heap, idx + 1, b[1..]);
    }
  }

  lemma {:induction false} EncNonZero(c: nat)
    requires IsScalar(c) && c != 0
    ensures forall i :: 0 <= i < |Enc(c)| ==> Enc(c)[i] != 0
  {
  }

  lemma {:induction false} BeforeZeroStep(cs: seq<nat>)
    requires AllScalars(cs) && cs != [] && cs[0] != 0
    ensures EncAll(BeforeZero(cs)) == Enc(cs[0]) + EncAll(BeforeZero(cs[1..]))
  {
    var z := BeforeZero(cs[1..]);
    assert BeforeZero(cs) == [cs[0]] + z && BeforeZero(cs)[1..] == z;
  }

  /** A terminated encoding ends at its first zero code point, or at the terminator. */
  lemma {:induction false} EndOfEncoded(heap: Bytes, idx: nat, cs: seq<nat>)
    requires AllScalars(cs) && Holds(heap, idx, EncAll(cs) + [0])
    ensures EndOf(heap, idx, |heap|) == idx + |EncAll(BeforeZero(cs))|
    ensures Holds(heap, idx, EncAll(BeforeZero(cs)))
    decreases |cs|
  {
    if cs == [] || cs[0] == 0 {
      EndsAtZero(heap, idx, cs);
    } else {
      var e := Enc(cs[0]);
      HeadHolds(heap, idx, cs, [0]);
      EncNonZero(cs[0]);
      EndOfSkips(heap, idx, e);
      EndOfEncoded(heap, idx + |e|, cs[1..]);
      BeforeZeroStep(cs);
      HoldsConcat(heap, idx, e, EncAll(BeforeZero(cs[1..])));
    }
  }

  lemma {:induction false} EndsAtZero(heap: Bytes, idx: nat, cs: seq<nat>)
    requires AllScalars(cs) && Holds(heap, idx, EncAll(cs) + [0]) && (cs == [] || cs[0] == 0)
    ensures EndOf(heap, idx, |heap|) == idx
    ensures idx <= |heap| && BeforeZero(cs) == []
  {
    assert (EncAll(cs) + [0])[0] == 0;
    assert heap[idx..idx + |EncAll(cs) + [0]|][0] == heap[idx];
  }

  lemma {:induction false} UnitsNonZero(cs: seq<nat>)
    requires AllScalars(cs) && 0 !in cs
    ensures 0 !in Utf16All(cs)
  {
    if cs != [] {
      UnitsNonZero(cs[1..]);
      assert cs[0] != 0;
    }
  }

  lemma {:induction false} ZeroPointIsZeroUnit(s: Str)
    ensures 0 in Scan(s) ==> 0 in s
  {
    if s != [] {
      ZeroPointIsZeroUnit(s[1..]);
      if |s| >= 2 { ZeroPointIsZeroUnit(s[2..]); }
    }
  }

  /** Decoding a complete terminated encoding gives the string back exactly when it
      is well-formed UTF-16 without zero units. */
  lemma {:induction false} RoundTrip(s: Str, heap: Bytes, idx: nat, room: nat)
    requires AllScalars(Scan(s)) && |EncAll(Scan(s))| <= room
    requires Holds(heap, idx, Encoded(s, room) + [0])
    ensures Decode(heap, idx, |heap|) == s <==> WellFormed(s) && 0 !in s
  {
    DecodedScan(s, heap, idx, room);
    UnitsNonZero(BeforeZero(Scan(s)));
    ScanRoundTrip(s);
    if 0 !in s {
      ZeroPointIsZeroUnit(s);
      assert BeforeZero(Scan(s)) == Scan(s);
    }
  }

  /** What is decoded: the units of the code points before the first zero. */
  lemma {:induction false} DecodedScan(s: Str, heap: Bytes, idx: nat, room: nat)
    requires AllScalars(Scan(s)) && |EncAll(Scan(s))| <= room
    requires Holds(heap, idx, Encoded(s, room) + [0])
    ensures AllScalars(BeforeZero(Scan(s))) && Decode(heap, idx, |heap|) == Utf16All(BeforeZero(Scan(s)))
  {
    EncodedWhole(s, room);
    DecodeTerminated(heap, idx, Scan(s));
  }

  /** Decoding stops at the first zero. */
  lemma {:induction false} DecodeTerminated(heap: Bytes, idx: nat, cs: seq<nat>)
    requires AllScalars(cs) && Holds(heap, idx, EncAll(cs) + [0])
    ensures AllScalars(BeforeZero(cs)) && Decode(heap, idx, |heap|) == Utf16All(BeforeZero(cs))
  {
    var r := BeforeZero(cs);
    EndOfEncoded(heap, idx, cs);
    assert EncAll(r) + [] == EncAll(r);
    DecodeEncoded(heap, idx, r);
  }
}
