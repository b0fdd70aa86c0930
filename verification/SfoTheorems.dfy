/**
 * What the writer and the two readers of `param.sfo` promise together: the
 * readers agree on every sound file, and what is written is read back.
 */
module SfoTheorems {
  import opened Words
  import opened ByteFile
  import opened RawBytes
  import opened Sfo

  // ----- C strings -----

  /** Cutting the raw value and cutting the string it holds agree. */
  lemma {:induction false} CutCString(raw: Bytes, n: nat)
    ensures CString(Cut(raw, n) + [0], 0) == Cut(CString(raw, 0), n)
  {
    CStringEnds(raw, 0);
    var c := Cut(CString(raw, 0), n);
    var b := Cut(raw, n) + [0];
    assert b[|c|] == 0 && c == b[0..|c|];
    forall k: nat | k < |c| ensures b[k] != 0 {
      assert b[k] == c[k];
    }
    CStringScan(b, 0, |c|);
  }

  lemma {:induction false} CompareIs(file: Bytes, at: nat, key: Bytes)
    requires 0 !in key && at + |CString(file, at)| < |file|
    ensures Compare(file, at, key) == if CString(file, at) == key then Same else Different
    decreases key
  {
    var c := CString(file, at);
    if key != [] && file[at] == key[0] {
      CompareIs(file, at + 1, key[1..]);
      assert c == [file[at]] + CString(file, at + 1);
      assert key == [key[0]] + key[1..];
      assert c[1..] == CString(file, at + 1);
    } else if key != [] && file[at] != 0 {
      assert c[0] == file[at];
    }
  }

  // ----- sound files -----

  /** The key of the row is terminated inside the file, its value lies inside the file,
      and no 32-bit sum wraps. */
  predicate SoundRow(file: Bytes, i: nat)
    requires ValidHead(file) && RowInside(file, i)
  {
    var row := RowAt(file, i);
    var koff, doff := U32(file, 8) + row.keyAt, U32(file, 12) + row.dataAt;
    koff < TWO32 && koff + |KeyOf(file, i)| < |file|
    && doff + row.len < TWO32 && doff + row.len <= |file|
  }

  /** Rows may repeat a key and may have any format. */
  ghost predicate Sound(file: Bytes) {
    ValidHead(file) && forall i: nat :: i < RowCount(file) ==> SoundRow(file, i)
  }

  // ----- the rows with a key -----

  function ValueAt(file: Bytes, i: nat): Option<Sfo.Value>
    requires ValidHead(file) && RowInside(file, i)
  {
    ValueOf(RowAt(file, i).fmt, RawOf(file, i))
  }

  predicate HasKey(file: Bytes, key: Bytes, i: nat)
    requires ValidHead(file)
  {
    i < RowCount(file) && RowInside(file, i) && KeyOf(file, i) == key
  }

  /** The row has the key, and a format that the JavaScript reader knows. */
  predicate HasValue(file: Bytes, key: Bytes, i: nat)
    requires ValidHead(file)
  {
    HasKey(file, key, i) && ValueAt(file, i).Some?
  }

  ghost predicate IsFirst(file: Bytes, key: Bytes, i: nat)
    requires ValidHead(file)
  {
    HasKey(file, key, i) && forall q: nat :: q < i ==> !HasKey(file, key, q)
  }

  ghost predicate IsLast(file: Bytes, key: Bytes, i: nat)
    requires ValidHead(file)
  {
    HasValue(file, key, i) && forall q: nat :: i < q ==> !HasValue(file, key, q)
  }

  lemma {:induction false} RowRead(file: Bytes, key: Bytes, outLen: nat, i: nat)
    requires Sound(file) && 0 !in key && outLen > 0 && i < RowCount(file)
    ensures FieldFrom(file, key, outLen, i) ==
            if KeyOf(file, i) == key then Found(Cut(RawOf(file, i), outLen - 1) + [0])
            else FieldFrom(file, key, outLen, i + 1)
  {
    RowStops(file, key, outLen, i);
    SoundRowRead(file, key, i);
    var row := RowAt(file, i);
    CopiedIs(file, U32(file, 12), row, outLen);
  }

  lemma {:induction false} SoundRowRead(file: Bytes, key: Bytes, i: nat)
    requires Sound(file) && 0 !in key && i < RowCount(file)
    ensures RowInside(file, i) && SoundRow(file, i) && !KeyUnterminated(file, key, i)
    ensures KeyMatches(file, key, i) <==> KeyOf(file, i) == key
  {
    RowVisited(file, i);
    assert SoundRow(file, i);
    var koff := U32(file, 8) + RowAt(file, i).keyAt;
    assert koff % TWO32 == koff;
    CompareIs(file, koff, key);
    ComparePast(file, koff, key);
  }

  lemma {:induction false} CutSpan(file: Bytes, start: nat, len: nat, outLen: nat)
    requires start + len <= |file| && outLen > 0
    ensures var copy := if len < outLen then len else outLen - 1;
            Cut(Span(file, start, len), outLen - 1) == file[start..start + copy]
  {
    assert len >= outLen ==> file[start..start + len][..outLen - 1] == file[start..start + (outLen - 1)];
  }

  lemma {:induction false} CopiedIs(file: Bytes, dataBase: nat, row: Row, outLen: nat)
    requires outLen > 0 && dataBase + row.dataAt + row.len <= |file|
    requires dataBase + row.dataAt + row.len < TWO32
    ensures Copied(file, dataBase, row, outLen)
         == Found(Cut(Span(file, dataBase + row.dataAt, row.len), outLen - 1) + [0])
  {
    var start := dataBase + row.dataAt;
    assert start % TWO32 == start && (start + row.len) % TWO32 == start + row.len;
    CutSpan(file, start, row.len, outLen);
  }

  /** The C reader passes over row `q`. */
  predicate Skips(file: Bytes, key: Bytes, outLen: nat, q: nat)
    requires ValidHead(file) && outLen > 0
  {
    FieldFrom(file, key, outLen, q) == FieldFrom(file, key, outLen, q + 1)
  }

  /** Rows with another key are passed over. */
  lemma {:induction false} RowsSkipped(file: Bytes, key: Bytes, outLen: nat, i: nat, r: nat)
    requires ValidHead(file) && outLen > 0 && i <= r
    requires forall q: nat :: i <= q < r ==> Skips(file, key, outLen, q)
    ensures FieldFrom(file, key, outLen, i) == FieldFrom(file, key, outLen, r)
    decreases r - i
  {
    if i < r {
      assert Skips(file, key, outLen, i);
      RowsSkipped(file, key, outLen, i + 1, r);
    }
  }

  /** Either no row has the key, or one is the first. */
  lemma {:induction false} FirstRow(file: Bytes, key: Bytes, i: nat) returns (r: nat)
    requires ValidHead(file) && i <= RowCount(file) && forall q: nat :: q < i ==> !HasKey(file, key, q)
    ensures r <= RowCount(file) && (forall q: nat :: q < r ==> !HasKey(file, key, q))
    ensures r < RowCount(file) ==> IsFirst(file, key, r)
    decreases RowCount(file) - i
  {
    r := i;
    if i < RowCount(file) && !HasKey(file, key, i) { r := FirstRow(file, key, i + 1); }
    RowVisited(file, r);
  }

  /** The C reader takes the first row with the key. */
  lemma {:induction false} CReadsFirst(file: Bytes, key: Bytes, outLen: nat, r: nat)
    requires Sound(file) && 0 !in key && outLen > 0 && r <= RowCount(file)
    requires forall q: nat :: q < r ==> !HasKey(file, key, q)
    ensures r == RowCount(file) ==> FieldOf(file, key, outLen) == NotFound
    ensures HasKey(file, key, r) ==> FieldOf(file, key, outLen) == Found(Cut(RawOf(file, r), outLen - 1) + [0])
  {
    forall q: nat | q < r ensures Skips(file, key, outLen, q) {
      RowRead(file, key, outLen, q);
      assert !HasKey(file, key, q);
      RowVisited(file, q);
    }
    RowsSkipped(file, key, outLen, 0, r);
    if HasKey(file, key, r) { RowRead(file, key, outLen, r); }
  }

  lemma {:induction false} LastWinsAt(key: nat -> Bytes, value: nat -> Option<Sfo.Value>, n: nat, r: nat)
    requires r < n && value(r).Some?
    requires forall q: nat :: r < q < n && value(q).Some? ==> key(q) != key(r)
    ensures key(r) in LastWins(key, value, n) && Some(LastWins(key, value, n)[key(r)]) == value(r)
  {
    if r < n - 1 { LastWinsAt(key, value, n - 1, r); }
  }

  /** A collected key is that of some row with a value, the last one. */
  lemma {:induction false} LastWinsOnly(key: nat -> Bytes, value: nat -> Option<Sfo.Value>, n: nat, k: Bytes)
    returns (r: nat)
    requires k in LastWins(key, value, n)
    ensures r < n && key(r) == k && value(r).Some?
    ensures forall q: nat :: r < q < n && value(q).Some? ==> key(q) != k
  {
    if key(n - 1) == k && value(n - 1).Some? {
      r := n - 1;
    } else {
      r := LastWinsOnly(key, value, n - 1, k);
    }
  }

  lemma {:induction false} RowOf(file: Bytes, i: nat)
    requires ValidHead(file) && i < RowCount(file)
    ensures RowInside(file, i) && RowKey(file)(i) == KeyOf(file, i)
    ensures RowValue(file)(i) == ValueAt(file, i)
  {
    RowVisited(file, i);
  }

  /** The JavaScript reader takes the last row with the key and a known format. */
  lemma {:induction false} JsReadsLast(file: Bytes, key: Bytes, r: nat)
    requires ValidHead(file) && IsLast(file, key, r)
    ensures var js := Collected(file, RowCount(file)); key in js && Some(js[key]) == ValueAt(file, r)
  {
    var n := RowCount(file);
    RowOf(file, r);
    forall q: nat | r < q < n && RowValue(file)(q).Some? ensures RowKey(file)(q) != key {
      RowOf(file, q);
      assert !HasValue(file, key, q);
    }
    LastWinsAt(RowKey(file), RowValue(file), n, r);
  }

  lemma {:induction false} JsReadsSome(file: Bytes, key: Bytes) returns (r: nat)
    requires ValidHead(file) && key in Collected(file, RowCount(file))
    ensures IsLast(file, key, r)
  {
    r := LastWinsOnly(RowKey(file), RowValue(file), RowCount(file), key);
    RowOf(file, r);
    forall q: nat | r < q ensures !HasValue(file, key, q) {
      if q < RowCount(file) { RowOf(file, q); }
    }
  }

  lemma {:induction false} JsReadsAll(file: Bytes, key: Bytes, r: nat)
    requires ValidHead(file) && HasValue(file, key, r)
    ensures key in Collected(file, RowCount(file))
    decreases RowCount(file) - r
  {
    if q: nat :| r < q && HasValue(file, key, q) {
      JsReadsAll(file, key, q);
    } else {
      JsReadsLast(file, key, r);
    }
  }

  // ----- when the readers agree -----

  /** The C text is the text of the other reader, cut to the buffer. */
  predicate SameText(out: Bytes, text: Bytes, outLen: nat)
    requires outLen > 0
  {
    CString(out, 0) == Cut(text, outLen - 1)
  }

  /** The C bytes start with those of the number, as far as the buffer takes them. */
  predicate SameNumber(out: Bytes, n: int, outLen: nat)
    requires outLen > 0
  {
    var m := Min(4, outLen - 1);
    n >= 0 && m < |out| && out[..m] == LE(n, 4)[..m]
  }

  predicate SameValue(out: Bytes, v: Sfo.Value, outLen: nat)
    requires outLen > 0
  {
    match v
    case Text(text) => SameText(out, text, outLen)
    case Num(n) => SameNumber(out, n, outLen)
  }

  /** What the readers see of two rows is the same: the cut texts, or the first four
      bytes, by the format of the second. */
  predicate SameRows(file: Bytes, first: nat, last: nat, outLen: nat)
    requires ValidHead(file) && RowInside(file, first) && RowInside(file, last) && ValueAt(file, last).Some?
    requires outLen > 0
  {
    var a, b := RawOf(file, first), RawOf(file, last);
    if ValueAt(file, last).value.Text? then Cut(CString(a, 0), outLen - 1) == Cut(CString(b, 0), outLen - 1)
    else Cut(a, Min(4, outLen - 1)) == Cut(b, Min(4, outLen - 1))
  }

  /** On every sound file, for every key: the C reader finds the key exactly when some row
      has it, the JavaScript reader exactly when some row with a known format has it; the
      one takes the first of these rows, the other the last; and they agree on the value
      exactly when those two rows agree. */
  lemma {:induction false} ReadersAgree(file: Bytes, key: Bytes, outLen: nat)
    requires Sound(file) && 0 !in key && outLen > 0
    ensures var js, c := Collected(file, RowCount(file)), FieldOf(file, key, outLen);
            && !c.Beyond? && (c.Found? <==> exists i: nat :: HasKey(file, key, i))
            && (key in js <==> exists i: nat :: HasValue(file, key, i))
    ensures forall first: nat, last: nat :: IsFirst(file, key, first) && IsLast(file, key, last) ==>
              OnRows(file, key, outLen, first, last)
  {
    CFindsKeys(file, key, outLen);
    JsFindsValues(file, key);
    forall first: nat, last: nat | IsFirst(file, key, first) && IsLast(file, key, last)
      ensures OnRows(file, key, outLen, first, last)
    {
      RowsAgree(file, key, outLen, first, last);
    }
  }

  /** The C reader gives the bytes of the first row, the JavaScript reader the value of
      the last one, and they agree exactly when the rows do. */
  ghost predicate OnRows(file: Bytes, key: Bytes, outLen: nat, first: nat, last: nat)
    requires ValidHead(file) && outLen > 0 && IsFirst(file, key, first) && IsLast(file, key, last)
  {
    var js, c := Collected(file, RowCount(file)), FieldOf(file, key, outLen);
    && c == Found(Cut(RawOf(file, first), outLen - 1) + [0])
    && key in js && Some(js[key]) == ValueAt(file, last)
    && (SameValue(c.out, js[key], outLen) <==> SameRows(file, first, last, outLen))
  }

  lemma {:induction false} RowsAgree(file: Bytes, key: Bytes, outLen: nat, first: nat, last: nat)
    requires Sound(file) && 0 !in key && outLen > 0 && IsFirst(file, key, first) && IsLast(file, key, last)
    ensures OnRows(file, key, outLen, first, last)
  {
    CReadsFirst(file, key, outLen, first);
    JsReadsLast(file, key, last);
    AgreeOnRows(file, first, last, outLen);
  }

  lemma {:induction false} CFindsKeys(file: Bytes, key: Bytes, outLen: nat)
    requires Sound(file) && 0 !in key && outLen > 0
    ensures var c := FieldOf(file, key, outLen);
            !c.Beyond? && (c.Found? <==> exists i: nat :: HasKey(file, key, i))
  {
    var r := FirstRow(file, key, 0);
    CReadsFirst(file, key, outLen, r);
    if r < RowCount(file) { assert HasKey(file, key, r); }
  }

  lemma {:induction false} JsFindsValues(file: Bytes, key: Bytes)
    requires ValidHead(file)
    ensures key in Collected(file, RowCount(file)) <==> exists i: nat :: HasValue(file, key, i)
  {
    if i: nat :| HasValue(file, key, i) { JsReadsAll(file, key, i); }
    if key in Collected(file, RowCount(file)) { var last := JsReadsSome(file, key); }
  }

  lemma {:induction false} AgreeOnRows(file: Bytes, first: nat, last: nat, outLen: nat)
    requires ValidHead(file) && RowInside(file, first) && RowInside(file, last) && ValueAt(file, last).Some?
    requires outLen > 0
    ensures SameValue(Cut(RawOf(file, first), outLen - 1) + [0], ValueAt(file, last).value, outLen)
            <==> SameRows(file, first, last, outLen)
  {
    var a, b := RawOf(file, first), RawOf(file, last);
    CutCString(a, outLen - 1);
    if ValueAt(file, last).value.Num? {
      NumberCopied(a, b, outLen);
    }
  }

  lemma {:induction false} NumberCopied(a: Bytes, b: Bytes, outLen: nat)
    requires outLen > 0 && |b| >= 4
    ensures SameNumber(Cut(a, outLen - 1) + [0], U32(b, 0), outLen)
            <==> Cut(a, Min(4, outLen - 1)) == Cut(b, Min(4, outLen - 1))
  {
    var m := Min(4, outLen - 1);
    ReadBackLE(b[0..4]);
    assert LE(U32(b, 0), 4)[..m] == b[..m];
    assert Cut(b, m) == b[..m];
    var out := Cut(a, outLen - 1) + [0];
    if |a| >= m {
      assert out[..m] == a[..m] == Cut(a, m);
    }
  }

  /** Storing the value of four bytes gives the bytes back. */
  lemma {:induction false} ReadBackLE(b: Bytes)
    ensures LE(Words.Value(b), |b|) == b
  {
    if b != [] {
      var rest := Words.Value(b[1..]);
      DivModUnique(b[0] + 0x100 * rest, 0x100, rest, b[0]);
      ReadBackLE(b[1..]);
      assert b == [b[0]] + b[1..];
    }
  }

  /** No key is repeated, and every row has a known format. */
  ghost predicate OnePerKey(file: Bytes)
    requires ValidHead(file)
  {
    && (forall i: nat :: i < RowCount(file) ==> RowInside(file, i) && ValueAt(file, i).Some?)
    && (forall i: nat, j: nat :: i < j < RowCount(file) ==> KeyOf(file, i) != KeyOf(file, j))
  }

  /** Then the readers agree on every key. */
  lemma {:induction false} DistinctKeysAgree(file: Bytes, key: Bytes, outLen: nat)
    requires Sound(file) && OnePerKey(file) && 0 !in key && outLen > 0
    ensures var js, c := Collected(file, RowCount(file)), FieldOf(file, key, outLen);
            (key in js <==> c.Found?) && (key !in js <==> c.NotFound?)
            && (key in js ==> SameValue(c.out, js[key], outLen))
  {
    CFindsKeys(file, key, outLen);
    JsFindsValues(file, key);
    if i: nat :| HasKey(file, key, i) {
      OnlyRows(file, key, i);
      RowsAgree(file, key, outLen, i, i);
    }
  }

  lemma {:induction false} OnlyRows(file: Bytes, key: Bytes, i: nat)
    requires ValidHead(file) && OnePerKey(file) && HasKey(file, key, i)
    ensures HasValue(file, key, i) && IsFirst(file, key, i) && IsLast(file, key, i)
  {
    forall q: nat | q != i ensures !HasKey(file, key, q) {
      OnlyRow(file, key, i, q);
    }
  }

  lemma {:induction false} OnlyRow(file: Bytes, key: Bytes, i: nat, q: nat)
    requires ValidHead(file) && OnePerKey(file) && HasKey(file, key, i) && q != i
    ensures !HasKey(file, key, q)
  {
    if q < i { assert q < RowCount(file); }
  }

  // ----- files that lead the C reader past their end -----

  /** The comparison runs past the file exactly when the rest of the file is what the
      key starts with. */
  lemma {:induction false} ComparePast(file: Bytes, at: nat, key: Bytes)
    requires at <= |file|
    ensures Compare(file, at, key) == Past <==> file[at..] <= key
    decreases key
  {
    if at < |file| && key != [] {
      ComparePast(file, at + 1, key[1..]);
      assert file[at..] == [file[at]] + file[at + 1..];
      assert key == [key[0]] + key[1..];
    }
  }

  function KeyPlace(file: Bytes, i: nat): nat
    requires ValidHead(file) && 20 + 16 * i + 16 <= |file|
  {
    (U32(file, 8) + RowAt(file, i).keyAt) % TWO32
  }

  /** The key of the row is inside the file, but the file ends before it does and before
      it differs from the wanted key. */
  predicate KeyUnterminated(file: Bytes, key: Bytes, i: nat)
    requires ValidHead(file) && 20 + 16 * i + 16 <= |file|
  {
    KeyPlace(file, i) < |file| && file[KeyPlace(file, i)..] <= key
  }

  predicate KeyMatches(file: Bytes, key: Bytes, i: nat)
    requires ValidHead(file) && 20 + 16 * i + 16 <= |file|
  {
    KeyPlace(file, i) < |file| && Compare(file, KeyPlace(file, i), key) == Same
  }

  /** The 32-bit end of the value wrapped round to a place inside the file. */
  predicate ValueWraps(file: Bytes, i: nat, outLen: nat)
    requires ValidHead(file) && 20 + 16 * i + 16 <= |file| && outLen > 0
  {
    var row := RowAt(file, i);
    var doff := (U32(file, 12) + row.dataAt) % TWO32;
    && doff + row.len >= TWO32 && doff + row.len - TWO32 <= |file|
    && doff + Min(row.len, outLen - 1) > |file|
  }

  /** What stops the search at a row, and with which result. */
  lemma {:induction false} RowStops(file: Bytes, key: Bytes, outLen: nat, i: nat)
    requires ValidHead(file) && outLen > 0 && i < RowCount(file)
    ensures RowInside(file, i)
    ensures !KeyUnterminated(file, key, i) && !KeyMatches(file, key, i) ==>
              FieldFrom(file, key, outLen, i) == FieldFrom(file, key, outLen, i + 1)
    ensures KeyUnterminated(file, key, i) ==> FieldFrom(file, key, outLen, i) == Beyond
    ensures KeyMatches(file, key, i) ==>
              !KeyUnterminated(file, key, i)
              && FieldFrom(file, key, outLen, i) == Copied(file, U32(file, 12), RowAt(file, i), outLen)
  {
    RowVisited(file, i);
    if KeyPlace(file, i) < |file| { ComparePast(file, KeyPlace(file, i), key); }
  }

  lemma {:induction false} CopiedBeyond(file: Bytes, i: nat, outLen: nat)
    requires ValidHead(file) && 20 + 16 * i + 16 <= |file| && outLen > 0
    ensures Copied(file, U32(file, 12), RowAt(file, i), outLen) == Beyond <==> ValueWraps(file, i, outLen)
  {
    var row := RowAt(file, i);
    var doff := (U32(file, 12) + row.dataAt) % TWO32;
    LengthInWidth(file, i);
    WrapOnce(doff + row.len);
  }

  lemma {:induction false} LengthInWidth(file: Bytes, i: nat)
    requires 20 + 16 * i + 16 <= |file|
    ensures RowAt(file, i).len < TWO32
  {
    ValueBelow(file[20 + 16 * i + 4..20 + 16 * i + 8]);
    Pow256Values();
  }

  lemma {:induction false} WrapOnce(v: nat)
    requires v < 2 * TWO32
    ensures v % TWO32 == if v < TWO32 then v else v - TWO32
  {
  }

  /** The search goes on behind the row. */
  predicate Passed(file: Bytes, key: Bytes, i: nat)
    requires ValidHead(file)
  {
    RowInside(file, i) && !KeyUnterminated(file, key, i) && !KeyMatches(file, key, i)
  }

  predicate AllPassed(file: Bytes, key: Bytes, n: nat)
    requires ValidHead(file)
  {
    forall q: nat :: q < n ==> Passed(file, key, q)
  }

  /** The first row that is not passed has a key that the file does not end, or the
      wanted key and a value that wraps round. */
  predicate LeadsBeyond(file: Bytes, key: Bytes, outLen: nat, i: nat)
    requires ValidHead(file) && outLen > 0
  {
    && i < RowCount(file) && RowInside(file, i) && AllPassed(file, key, i)
    && (KeyUnterminated(file, key, i) || (KeyMatches(file, key, i) && ValueWraps(file, i, outLen)))
  }

  /** The C reader reads past the end of the file exactly when the first row that is not
      passed over has an unterminated key at the end of the file, or the wanted key and
      a value whose end wraps round. */
  lemma {:induction false} BeyondExactly(file: Bytes, key: Bytes, outLen: nat)
    requires ValidHead(file) && outLen > 0
    ensures FieldOf(file, key, outLen) == Beyond <==> exists i: nat :: LeadsBeyond(file, key, outLen, i)
  {
    var i := FirstNotPassed(file, key, outLen, 0);
    if i < RowCount(file) {
      RowStops(file, key, outLen, i);
      CopiedBeyond(file, i, outLen);
    }
    forall k: nat | LeadsBeyond(file, key, outLen, k) ensures k == i {
      NotPassed(file, key, outLen, k);
    }
    assert FieldOf(file, key, outLen) == Beyond <==> LeadsBeyond(file, key, outLen, i);
  }

  lemma {:induction false} NotPassed(file: Bytes, key: Bytes, outLen: nat, k: nat)
    requires ValidHead(file) && outLen > 0 && LeadsBeyond(file, key, outLen, k)
    ensures k < RowCount(file) && AllPassed(file, key, k) && !Passed(file, key, k)
  {
  }

  /** Where the search stops. */
  lemma {:induction false} FirstNotPassed(file: Bytes, key: Bytes, outLen: nat, from: nat) returns (i: nat)
    requires ValidHead(file) && outLen > 0 && from <= RowCount(file) && AllPassed(file, key, from)
    ensures i <= RowCount(file) && AllPassed(file, key, i) && (i < RowCount(file) ==> !Passed(file, key, i))
    ensures FieldFrom(file, key, outLen, from) == FieldFrom(file, key, outLen, i)
    decreases RowCount(file) - from
  {
    i := from;
    if from < RowCount(file) && Passed(file, key, from) {
      RowStops(file, key, outLen, from);
      i := FirstNotPassed(file, key, outLen, from + 1);
    }
  }

  /** One row whose key "A" is the last byte of the file: looking for "AB" reads on. */
  function OpenKeyFile(): Bytes {
    Head(36, 36, 1) + (IndexRow(Entry([0x41], FMT_UTF8, 0, 0, []), 0, 0) + [0x41])
  }

  lemma {:induction false} OpenKeyReadsBeyond(outLen: nat)
    requires outLen > 0
    ensures FieldOf(OpenKeyFile(), [0x41, 0x42], outLen) == Beyond
  {
    var file, key, e := OpenKeyFile(), [0x41, 0x42], Entry([0x41], FMT_UTF8, 0, 0, []);
    HoldsPart(file, 0, Head(36, 36, 1), IndexRow(e, 0, 0) + [0x41]);
    HoldsPart(file, 20, IndexRow(e, 0, 0), [0x41]);
    ReadsHead(file, 36, 36, 1);
    ReadsRow(file, 0, e, 0, 0);
    RowVisited(file, 0);
    assert file[36..] == [0x41] && [0x41] <= key;
    RowStops(file, key, outLen, 0);
  }

  // ----- written files -----

  /** The parts of a written file, each at its place, and its numbers in range. */
  ghost predicate Laid(file: Bytes, es: seq<Entry>, keyBase: nat, dataBase: nat) {
    Holds(file, 0, Head(keyBase, dataBase, |es|))
    && Holds(file, 20, Index(es))
    && Holds(file, keyBase, KeyTable(es))
    && Holds(file, dataBase, DataTable(es))
    && keyBase < TWO32 && dataBase < TWO32 && |es| < TWO32
    && RowsPackable(es, |es|)
  }

  lemma {:induction false} FileLaid(es: seq<Entry>)
    requires Packable(es)
    ensures Laid(FileOf(es), es, KeyBase(es), DataBase(es))
  {
    FileParts(FileOf(es), Head(KeyBase(es), DataBase(es), |es|), Index(es), Padded(KeyTable(es)), DataTable(es));
    HoldsPart(FileOf(es), KeyBase(es), KeyTable(es), Zeros(|Padded(KeyTable(es))| - |KeyTable(es)|));
  }

  lemma {:induction false} FileParts(file: Bytes, head: Bytes, index: Bytes, keys: Bytes, data: Bytes)
    requires file == head + (index + (keys + data))
    ensures Holds(file, 0, head) && Holds(file, |head|, index)
    ensures Holds(file, |head| + |index|, keys) && Holds(file, |head| + |index| + |keys|, data)
  {
    assert Holds(file, 0, head + (index + (keys + data)));
    HoldsPart(file, 0, head, index + (keys + data));
    HoldsPart(file, |head|, index, keys + data);
    HoldsPart(file, |head| + |index|, keys, data);
  }

  lemma {:induction false} HoldsIndex(b: Bytes, lo: nat, es: seq<Entry>, i: nat)
    requires Holds(b, lo, Index(es)) && i < |es|
    ensures Holds(b, lo + 16 * i, IndexRow(es[i], |KeyTable(es[..i])|, |DataTable(es[..i])|))
    decreases |es|
  {
    var front := es[..|es| - 1];
    HoldsPart(b, lo, Index(front), IndexRow(es[|es| - 1], |KeyTable(front)|, |DataTable(front)|));
    if i < |es| - 1 {
      HoldsIndex(b, lo, front, i);
      assert front[..i] == es[..i];
    }
  }

  lemma {:induction false} HoldsKey(b: Bytes, lo: nat, es: seq<Entry>, i: nat)
    requires Holds(b, lo, KeyTable(es)) && i < |es|
    ensures Holds(b, lo + |KeyTable(es[..i])|, es[i].key + [0])
    decreases |es|
  {
    var front := es[..|es| - 1];
    HoldsPart(b, lo, KeyTable(front), es[|es| - 1].key + [0]);
    if i < |es| - 1 {
      HoldsKey(b, lo, front, i);
      assert front[..i] == es[..i];
    }
  }

  lemma {:induction false} HoldsData(b: Bytes, lo: nat, es: seq<Entry>, i: nat)
    requires Holds(b, lo, DataTable(es)) && i < |es|
    ensures Holds(b, lo + |DataTable(es[..i])|, es[i].data)
    decreases |es|
  {
    var front := es[..|es| - 1];
    HoldsPart(b, lo, DataTable(front), es[|es| - 1].data);
    if i < |es| - 1 {
      HoldsData(b, lo, front, i);
      assert front[..i] == es[..i];
    }
  }

  /** Four 32-bit fields in a row, the first of which may be anything. */
  lemma {:induction false} ReadsHead(b: Bytes, keyBase: nat, dataBase: nat, n: nat)
    requires Holds(b, 0, Head(keyBase, dataBase, n)) && keyBase < TWO32 && dataBase < TWO32 && n < TWO32
    ensures ValidHead(b) && U32(b, 8) == keyBase && U32(b, 12) == dataBase && U32(b, 16) == n
  {
    var tail3 := LE(dataBase, 4) + LE(n, 4);
    var tail2 := LE(keyBase, 4) + tail3;
    HoldsPart(b, 0, LE(MAGIC, 4), LE(VERSION, 4) + tail2);
    HoldsPart(b, 4, LE(VERSION, 4), tail2);
    HoldsPart(b, 8, LE(keyBase, 4), tail3);
    HoldsPart(b, 12, LE(dataBase, 4), LE(n, 4));
    ReadsU32(b, 0, MAGIC);
    ReadsU32(b, 8, keyBase);
    ReadsU32(b, 12, dataBase);
    ReadsU32(b, 16, n);
  }

  lemma {:induction false} ReadsRow(b: Bytes, i: nat, e: Entry, keyAt: nat, dataAt: nat)
    requires Holds(b, 20 + 16 * i, IndexRow(e, keyAt, dataAt))
    requires keyAt < 0x1_0000 && e.fmt < 0x1_0000 && e.dataLen < TWO32 && dataAt < TWO32
    ensures RowAt(b, i) == Row(keyAt, e.fmt, e.dataLen, dataAt)
  {
    var at := 20 + 16 * i;
    var tail3 := LE(e.dataMax, 4) + LE(dataAt, 4);
    var tail2 := LE(e.dataLen, 4) + tail3;
    HoldsPart(b, at, LE(keyAt, 2), LE(e.fmt, 2) + tail2);
    HoldsPart(b, at + 2, LE(e.fmt, 2), tail2);
    HoldsPart(b, at + 4, LE(e.dataLen, 4), tail3);
    HoldsPart(b, at + 8, LE(e.dataMax, 4), LE(dataAt, 4));
    ReadsU16(b, at, keyAt);
    ReadsU16(b, at + 2, e.fmt);
    ReadsU32(b, at + 4, e.dataLen);
    ReadsU32(b, at + 12, dataAt);
  }

  predicate GoodEntry(e: Entry) {
    0 !in e.key && e.dataLen <= |e.data| && ValueOf(e.fmt, e.data[..e.dataLen]).Some?
  }

  predicate GoodEntries(es: seq<Entry>) {
    forall i: nat :: i < |es| ==> GoodEntry(es[i])
  }

  lemma {:induction false} WrittenHead(file: Bytes, es: seq<Entry>, keyBase: nat, dataBase: nat)
    requires Laid(file, es, keyBase, dataBase)
    ensures ValidHead(file) && RowCount(file) == |es|
    ensures U32(file, 8) == keyBase && U32(file, 12) == dataBase
  {
    ReadsHead(file, keyBase, dataBase, |es|);
    RowVisited(file, |es|);
  }

  lemma {:induction false} WrittenIndex(file: Bytes, es: seq<Entry>, keyBase: nat, dataBase: nat, i: nat)
    requires Laid(file, es, keyBase, dataBase) && i < |es|
    ensures ValidHead(file) && 20 + 16 * i + 16 <= |file|
    ensures U32(file, 8) == keyBase && U32(file, 12) == dataBase
    ensures RowAt(file, i) == Row(|KeyTable(es[..i])|, es[i].fmt, es[i].dataLen, |DataTable(es[..i])|)
  {
    WrittenHead(file, es, keyBase, dataBase);
    HoldsIndex(file, 20, es, i);
    assert RowPackable(es, i);
    ReadsRow(file, i, es[i], |KeyTable(es[..i])|, |DataTable(es[..i])|);
  }

  lemma {:induction false} WrittenKey(file: Bytes, keyBase: nat, es: seq<Entry>, i: nat)
    requires Holds(file, keyBase, KeyTable(es)) && i < |es| && 0 !in es[i].key
    ensures CString(file, keyBase + |KeyTable(es[..i])|) == es[i].key
    ensures |KeyTable(es[..i])| + |es[i].key| < |KeyTable(es)|
  {
    HoldsKey(file, keyBase, es, i);
    CStringIs(file, keyBase + |KeyTable(es[..i])|, es[i].key);
    HoldsKey(KeyTable(es), 0, es, i);
  }

  lemma {:induction false} WrittenData(file: Bytes, dataBase: nat, es: seq<Entry>, i: nat)
    requires Holds(file, dataBase, DataTable(es)) && i < |es| && es[i].dataLen <= |es[i].data|
    ensures dataBase + |DataTable(es[..i])| + es[i].dataLen <= |file|
    ensures Span(file, dataBase + |DataTable(es[..i])|, es[i].dataLen) == es[i].data[..es[i].dataLen]
  {
    HoldsData(file, dataBase, es, i);
    WrittenRaw(file, dataBase + |DataTable(es[..i])|, es[i]);
  }

  lemma {:induction false} KeyIs(file: Bytes, i: nat, keyBase: nat, keyAt: nat)
    requires |file| >= 20 && 20 + 16 * i + 16 <= |file|
    requires U32(file, 8) == keyBase && RowAt(file, i).keyAt == keyAt
    ensures KeyOf(file, i) == CString(file, keyBase + keyAt)
  {
  }

  lemma {:induction false} RawIs(file: Bytes, i: nat, dataBase: nat, dataAt: nat, len: nat)
    requires |file| >= 20 && 20 + 16 * i + 16 <= |file|
    requires U32(file, 12) == dataBase && RowAt(file, i).dataAt == dataAt && RowAt(file, i).len == len
    ensures RawOf(file, i) == Span(file, dataBase + dataAt, len)
  {
  }

  lemma {:induction false} WrittenKeyOf(file: Bytes, es: seq<Entry>, keyBase: nat, dataBase: nat, i: nat)
    requires Laid(file, es, keyBase, dataBase) && i < |es| && 0 !in es[i].key
    requires ValidHead(file) && 20 + 16 * i + 16 <= |file|
    ensures KeyOf(file, i) == es[i].key
    ensures U32(file, 8) + RowAt(file, i).keyAt + |es[i].key| < |file|
  {
    var keyAt := |KeyTable(es[..i])|;
    WrittenIndex(file, es, keyBase, dataBase, i);
    KeyIs(file, i, keyBase, keyAt);
    WrittenKey(file, keyBase, es, i);
  }

  lemma {:induction false} WrittenRawOf(file: Bytes, es: seq<Entry>, keyBase: nat, dataBase: nat, i: nat)
    requires Laid(file, es, keyBase, dataBase) && i < |es| && es[i].dataLen <= |es[i].data|
    requires ValidHead(file) && 20 + 16 * i + 16 <= |file|
    ensures RawOf(file, i) == es[i].data[..es[i].dataLen]
    ensures U32(file, 12) + RowAt(file, i).dataAt + es[i].dataLen <= |file|
  {
    var dataAt, len := |DataTable(es[..i])|, es[i].dataLen;
    WrittenIndex(file, es, keyBase, dataBase, i);
    RawIs(file, i, dataBase, dataAt, len);
    WrittenData(file, dataBase, es, i);
    assert RawOf(file, i) == Span(file, dataBase + dataAt, len);
  }

  /** Row `i` of the written file: its key and its value are those of entry `i`. */
  lemma {:induction false} WrittenRow(file: Bytes, es: seq<Entry>, keyBase: nat, dataBase: nat, i: nat)
    requires Laid(file, es, keyBase, dataBase) && GoodEntries(es) && i < |es|
    ensures ValidHead(file) && 20 + 16 * i + 16 <= |file|
    ensures RowAt(file, i).fmt == es[i].fmt && RowAt(file, i).len == es[i].dataLen
    ensures KeyOf(file, i) == es[i].key
    ensures RawOf(file, i) == es[i].data[..es[i].dataLen]
    ensures U32(file, 8) + RowAt(file, i).keyAt + |es[i].key| < |file|
    ensures U32(file, 12) + RowAt(file, i).dataAt + es[i].dataLen <= |file|
  {
    assert GoodEntry(es[i]);
    WrittenIndex(file, es, keyBase, dataBase, i);
    WrittenKeyOf(file, es, keyBase, dataBase, i);
    WrittenRawOf(file, es, keyBase, dataBase, i);
  }

  lemma {:induction false} WrittenRaw(file: Bytes, at: nat, e: Entry)
    requires Holds(file, at, e.data) && e.dataLen <= |e.data|
    ensures at + e.dataLen <= |file| && Span(file, at, e.dataLen) == e.data[..e.dataLen]
  {
    assert file[at..at + |e.data|][..e.dataLen] == file[at..at + e.dataLen];
  }

  /** Last entry wins, as in the JavaScript object. */
  function MapOf(es: seq<Entry>): map<Bytes, Sfo.Value>
    requires GoodEntries(es)
    decreases |es|
  {
    if es == [] then map[]
    else
      var e := es[|es| - 1];
      MapOf(es[..|es| - 1])[e.key := ValueOf(e.fmt, e.data[..e.dataLen]).value]
  }

  lemma {:induction false} CollectedWritten(file: Bytes, es: seq<Entry>, keyBase: nat, dataBase: nat, n: nat)
    requires Laid(file, es, keyBase, dataBase) && GoodEntries(es) && n <= |es|
    ensures ValidHead(file) && RowCount(file) == |es|
    ensures Collected(file, n) == MapOf(es[..n])
  {
    WrittenHead(file, es, keyBase, dataBase);
    if n > 0 {
      CollectedWritten(file, es, keyBase, dataBase, n - 1);
      RowCollected(file, es, keyBase, dataBase, n - 1);
      MapStep(es, n);
    }
  }

  /** What the JavaScript reader takes from row `i`. */
  lemma {:induction false} RowCollected(file: Bytes, es: seq<Entry>, keyBase: nat, dataBase: nat, i: nat)
    requires Laid(file, es, keyBase, dataBase) && GoodEntries(es) && i < |es|
    ensures ValidHead(file) && RowKey(file)(i) == es[i].key
    ensures RowValue(file)(i) == ValueOf(es[i].fmt, es[i].data[..es[i].dataLen])
  {
    WrittenHead(file, es, keyBase, dataBase);
    WrittenRow(file, es, keyBase, dataBase, i);
    RowOf(file, i);
  }

  lemma {:induction false} MapStep(es: seq<Entry>, n: nat)
    requires GoodEntries(es) && 0 < n <= |es|
    ensures var e := es[n - 1];
            GoodEntry(e) && MapOf(es[..n]) == MapOf(es[..n - 1])[e.key := ValueOf(e.fmt, e.data[..e.dataLen]).value]
  {
    assert es[..n][..n - 1] == es[..n - 1];
  }

  lemma {:induction false} WrittenIsSound(file: Bytes, es: seq<Entry>, keyBase: nat, dataBase: nat)
    requires Laid(file, es, keyBase, dataBase) && GoodEntries(es) && |file| < TWO32
    ensures Sound(file) && RowCount(file) == |es|
    ensures forall i: nat :: i < |es| ==> RowInside(file, i) && KeyOf(file, i) == es[i].key && ValueAt(file, i).Some?
  {
    WrittenHead(file, es, keyBase, dataBase);
    forall i: nat | i < |es|
      ensures RowInside(file, i) && SoundRow(file, i) && KeyOf(file, i) == es[i].key && ValueAt(file, i).Some?
    {
      WrittenRow(file, es, keyBase, dataBase, i);
      assert GoodEntry(es[i]);
    }
  }

  /** An entry with the key "A" and a text of one byte. */
  function LetterEntry(x: Byte): Entry {
    Entry([0x41], FMT_UTF8, 2, 2, [x, 0])
  }

  predicate IsLetter(e: Entry) {
    exists x: Byte :: e == LetterEntry(x)
  }

  /** On a file of two rows with the same key the C reader gives the value of the first
      and the JavaScript reader that of the second. */
  lemma {:induction false} RepeatedKeyDiffers(es: seq<Entry>, x: Byte, y: Byte, outLen: nat)
    requires es == [LetterEntry(x), LetterEntry(y)] && x != 0 && y != 0 && x != y && outLen > 1
    ensures Packable(es) && Sound(FileOf(es)) && TakeFirstAndLast(FileOf(es), [0x41], [x], [y], outLen)
  {
    TwoLetters(es, x, y);
    FileLaid(es);
    TwoRows(FileOf(es), es, KeyBase(es), DataBase(es), x, y, outLen);
  }

  /** The one reader gives the text `a`, the other `b`, and they are not the same. */
  ghost predicate TakeFirstAndLast(file: Bytes, key: Bytes, a: Bytes, b: Bytes, outLen: nat)
    requires ValidHead(file) && outLen > 0
  {
    var js, c := Collected(file, RowCount(file)), FieldOf(file, key, outLen);
    && key in js && js[key] == Sfo.Text(b)
    && c.Found? && SameText(c.out, a, outLen) && !SameText(c.out, b, outLen)
  }

  lemma {:induction false} TwoRows(file: Bytes, es: seq<Entry>, keyBase: nat, dataBase: nat, x: Byte, y: Byte,
                                   outLen: nat)
    requires Laid(file, es, keyBase, dataBase) && GoodEntries(es) && |file| < TWO32 && |es| == 2
    requires es[0].key == es[1].key == [0x41] && es[0].fmt == es[1].fmt == FMT_UTF8 && x != y && outLen > 1
    requires es[0].data[..es[0].dataLen] == [x, 0] && es[1].data[..es[1].dataLen] == [y, 0]
    requires CString([x, 0], 0) == [x] && CString([y, 0], 0) == [y]
    ensures Sound(file) && TakeFirstAndLast(file, [0x41], [x], [y], outLen)
  {
    WrittenIsSound(file, es, keyBase, dataBase);
    WrittenRow(file, es, keyBase, dataBase, 0);
    WrittenRow(file, es, keyBase, dataBase, 1);
    CReadsFirst(file, [0x41], outLen, 0);
    JsReadsLast(file, [0x41], 1);
    CutCString([x, 0], outLen - 1);
  }

  lemma {:induction false} TwoLetters(es: seq<Entry>, x: Byte, y: Byte)
    requires es == [LetterEntry(x), LetterEntry(y)] && x != 0 && y != 0
    ensures Packable(es) && GoodEntries(es) && |FileOf(es)| < TWO32
    ensures CString([x, 0], 0) == [x] && CString([y, 0], 0) == [y]
  {
    LetterText(x);
    LetterText(y);
    TableLengths(es, 0);
    TableLengths(es, 1);
    TableLengths(es, 2);
    RoundUpBounds(4, 4);
    assert es[..2] == es;
  }

  lemma {:induction false} LetterText(x: Byte)
    requires x != 0
    ensures CString([x, 0], 0) == [x]
  {
  }

  /** Every letter adds two bytes to each table. */
  lemma {:induction false} TableLengths(es: seq<Entry>, i: nat)
    requires i <= |es| && forall k: nat :: k < |es| ==> IsLetter(es[k])
    ensures |KeyTable(es[..i])| == |DataTable(es[..i])| == 2 * i
  {
    if i > 0 {
      TableLengths(es, i - 1);
      assert es[..i][..i - 1] == es[..i - 1];
    }
  }

  // ----- configurations -----

  predicate KnownFormat(fmt: nat) {
    fmt == FMT_UTF8 || fmt == FMT_UTF8_S || fmt == FMT_INT32
  }

  predicate GoodFields(fields: seq<Field>) {
    forall i: nat :: i < |fields| ==> KnownFormat(fields[i].fmt) && 0 !in fields[i].key
  }

  predicate DistinctFields(fields: seq<Field>) {
    forall i: nat, j: nat :: i < j < |fields| ==> fields[i].key != fields[j].key
  }

  /** The text values contain no zero byte. */
  predicate NulFree(config: Config) {
    forall name :: name in config && config[name].Text? ==> 0 !in config[name].bytes
  }

  /** The configuration restricted to the fields, under their file keys. */
  function Expected(fields: seq<Field>, config: Config): map<Bytes, Sfo.Value>
    decreases |fields|
  {
    if fields == [] then map[]
    else
      var m, f := Expected(fields[..|fields| - 1], config), fields[|fields| - 1];
      if f.name in config then m[f.key := config[f.name]] else m
  }

  /** What one entry reads back as: the very value of the configuration. */
  lemma {:induction false} EntryReadsBack(f: Field, v: Sfo.Value)
    requires Encodable(f, v) && KnownFormat(f.fmt) && 0 !in f.key && (v.Text? ==> 0 !in v.bytes)
    ensures GoodEntry(EntryOf(f, v))
    ensures var e := EntryOf(f, v); ValueOf(e.fmt, e.data[..e.dataLen]) == Some(v)
  {
    var e := EntryOf(f, v);
    var raw := e.data[..e.dataLen];
    if f.fmt == FMT_INT32 {
      assert raw == LE(v.n, 4) && Holds(raw, 0, LE(v.n, 4));
      ReadsU32(raw, 0, v.n);
    } else {
      assert raw == v.bytes + [0] && Holds(raw, 0, v.bytes + [0]);
      CStringIs(raw, 0, v.bytes);
    }
  }

  lemma {:induction false} MapMore(es: seq<Entry>, e: Entry, v: Sfo.Value)
    requires GoodEntries(es) && GoodEntry(e) && ValueOf(e.fmt, e.data[..e.dataLen]) == Some(v)
    ensures GoodEntries(es + [e]) && MapOf(es + [e]) == MapOf(es)[e.key := v]
  {
    var more := es + [e];
    assert more[..|es|] == es && more[|es|] == e;
    forall i: nat | i < |more| ensures GoodEntry(more[i]) {
      assert i < |es| ==> more[i] == es[i];
    }
  }

  lemma {:induction false} EntriesReadBack(fields: seq<Field>, config: Config)
    requires AllEncodable(fields, config) && GoodFields(fields) && NulFree(config)
    ensures GoodEntries(Entries(fields, config))
    ensures MapOf(Entries(fields, config)) == Expected(fields, config)
    decreases |fields|
  {
    if fields != [] {
      var n := |fields| - 1;
      var front, f := fields[..n], fields[n];
      EntriesReadBack(front, config);
      FieldReadsBack(fields, config, n);
      if f.name in config {
        var e := EntryOf(f, config[f.name]);
        MapMore(Entries(front, config), e, config[f.name]);
        assert Entries(fields, config) == Entries(front, config) + [e];
      } else {
        assert Entries(fields, config) == Entries(front, config);
      }
    }
  }

  lemma {:induction false} FieldReadsBack(fields: seq<Field>, config: Config, n: nat)
    requires AllEncodable(fields, config) && GoodFields(fields) && NulFree(config) && n < |fields|
    ensures var f := fields[n];
            f.name in config ==>
              Encodable(f, config[f.name])
              && var e := EntryOf(f, config[f.name]);
                 e.key == f.key && GoodEntry(e) && ValueOf(e.fmt, e.data[..e.dataLen]) == Some(config[f.name])
  {
    var f := fields[n];
    if f.name in config { EntryReadsBack(f, config[f.name]); }
  }

  /** The JavaScript reader gives back what the Python writer was given. */
  lemma {:induction false} WriteThenParse(fields: seq<Field>, config: Config)
    requires Writable(fields, config) && GoodFields(fields) && NulFree(config)
    ensures var file := FileOf(Entries(fields, config));
            ValidHead(file) && Collected(file, RowCount(file)) == Expected(fields, config)
  {
    var es := Entries(fields, config);
    EntriesReadBack(fields, config);
    FileLaid(es);
    CollectedWritten(FileOf(es), es, KeyBase(es), DataBase(es), |es|);
    assert es[..|es|] == es;
  }

  /** With distinct keys nothing of the configuration is lost or invented. */
  lemma {:induction false} ExpectedIsConfig(fields: seq<Field>, config: Config, k: nat)
    requires DistinctFields(fields) && k < |fields|
    ensures var f := fields[k];
            (f.key in Expected(fields, config) <==> f.name in config)
            && (f.name in config ==> Expected(fields, config)[f.key] == config[f.name])
    decreases |fields|
  {
    var last := |fields| - 1;
    if k < last {
      ExpectedIsConfig(fields[..last], config, k);
    } else {
      if fields[k].key in Expected(fields[..last], config) { ExpectedOnly(fields[..last], config, fields[k].key); }
    }
  }

  lemma {:induction false} ExpectedOnly(fields: seq<Field>, config: Config, key: Bytes)
    requires key in Expected(fields, config)
    ensures exists k: nat :: k < |fields| && fields[k].key == key && fields[k].name in config
    decreases |fields|
  {
    var last := |fields| - 1;
    if !(fields[last].key == key && fields[last].name in config) {
      ExpectedOnly(fields[..last], config, key);
      var k: nat :| k < last && fields[..last][k].key == key && fields[..last][k].name in config;
      assert fields[k] == fields[..last][k];
    }
  }

  lemma {:induction false} EntriesKeys(fields: seq<Field>, config: Config, i: nat)
    requires AllEncodable(fields, config) && i < |Entries(fields, config)|
    ensures exists k: nat :: k < |fields| && fields[k].key == Entries(fields, config)[i].key
    decreases |fields|
  {
    var last := |fields| - 1;
    var front := Entries(fields[..last], config);
    if i < |front| {
      EntriesKeys(fields[..last], config, i);
      var k: nat :| k < last && fields[..last][k].key == front[i].key;
      assert fields[k] == fields[..last][k];
    } else {
      assert fields[last].key == Entries(fields, config)[i].key;
    }
  }

  lemma {:induction false} EntriesDistinct(fields: seq<Field>, config: Config)
    requires AllEncodable(fields, config) && DistinctFields(fields)
    ensures var es := Entries(fields, config);
            forall i: nat, j: nat :: i < j < |es| ==> es[i].key != es[j].key
    decreases |fields|
  {
    if fields != [] {
      var last := |fields| - 1;
      var front, es := Entries(fields[..last], config), Entries(fields, config);
      EntriesDistinct(fields[..last], config);
      forall i: nat, j: nat | i < j < |es| ensures es[i].key != es[j].key {
        EntriesKeys(fields[..last], config, i);
        var k: nat :| k < last && fields[..last][k].key == front[i].key;
        assert fields[k] == fields[..last][k];
      }
    }
  }

  /** The C reader on a written file: it fails exactly on the keys that the
      configuration does not have, and gives text values cut to its buffer. */
  lemma {:induction false} WriteThenReadField(fields: seq<Field>, config: Config, key: Bytes, outLen: nat)
    requires Writable(fields, config) && GoodFields(fields) && DistinctFields(fields) && NulFree(config)
    requires |FileOf(Entries(fields, config))| < TWO32 && 0 !in key && outLen > 0
    ensures var m, r := Expected(fields, config), FieldOf(FileOf(Entries(fields, config)), key, outLen);
            (key in m <==> r.Found?) && (key !in m <==> r.NotFound?)
            && (key in m ==> SameValue(r.out, m[key], outLen))
  {
    var es := Entries(fields, config);
    EntriesReadBack(fields, config);
    EntriesDistinct(fields, config);
    FileLaid(es);
    WrittenIsSound(FileOf(es), es, KeyBase(es), DataBase(es));
    DistinctKeysAgree(FileOf(es), key, outLen);
    WriteThenParse(fields, config);
  }

  // ----- the table of fields -----

  /** A field whose file key is its configuration name. */
  function FieldNamed(name: string, fmt: nat, maxLen: nat): Field {
    Field(name, Ascii(name), fmt, maxLen)
  }

  const FIELDS: seq<Field> := [
    FieldNamed("APP_TYPE", FMT_INT32, 4),
    FieldNamed("APP_VER", FMT_UTF8_S, 8),
    FieldNamed("CATEGORY", FMT_UTF8_S, 4),
    FieldNamed("CONTENT_ID", FMT_UTF8_S, 48),
    FieldNamed("PUBTOOLINFO", FMT_UTF8, 512),
    FieldNamed("SYSTEM_VER", FMT_INT32, 4),
    FieldNamed("TITLE", FMT_UTF8, 128),
    FieldNamed("TITLE_ID", FMT_UTF8_S, 12),
    FieldNamed("VERSION", FMT_UTF8_S, 8)
  ]

  lemma {:induction false} TableIsGood()
    ensures GoodFields(FIELDS) && DistinctFields(FIELDS)
  {
    TableIsKnown();
    TableIsDistinct();
  }

  lemma {:induction false} TableIsKnown()
    ensures GoodFields(FIELDS)
  {
  }

  lemma {:induction false} TableIsDistinct()
    ensures DistinctFields(FIELDS)
  {
    forall i: nat, j: nat | i < j < |FIELDS| ensures FIELDS[i].key != FIELDS[j].key {
      assert |FIELDS[i].key| != |FIELDS[j].key| || FIELDS[i].key[0] != FIELDS[j].key[0];
    }
  }
}
