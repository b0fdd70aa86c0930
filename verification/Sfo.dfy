/**
 * The `param.sfo` file: the Python writer `build_sfo`, the C reader
 * `sfo_read_field` and the JavaScript reader `parseParamSfo`. Keys and text
 * values are byte strings; encoding them is not modelled.
 */
module Sfo {
  import opened Words
  import opened ByteFile
  import opened RawBytes

  const MAGIC: nat := 0x46535000
  const VERSION: nat := 0x101
  const FMT_UTF8_S: nat := 0x0004
  const FMT_UTF8: nat := 0x0204
  const FMT_INT32: nat := 0x0404

  datatype Value = Text(bytes: Bytes) | Num(n: int)

  type Config = map<string, Value>

  /** One row of the writer's table of fields. */
  datatype Field = Field(name: string, key: Bytes, fmt: nat, maxLen: nat)

  // ----- the writer -----

  datatype Entry = Entry(key: Bytes, fmt: nat, dataLen: nat, dataMax: nat, data: Bytes)

  /** `int` has no text form here and text has no integer form: such a value is
      an error of the writer, like an integer outside 32 bits. */
  predicate Encodable(f: Field, v: Value) {
    if f.fmt == FMT_INT32 then v.Num? && 0 <= v.n < TWO32 else v.Text?
  }

  function EntryOf(f: Field, v: Value): Entry
    requires Encodable(f, v)
  {
    if f.fmt == FMT_INT32 then Entry(f.key, f.fmt, 4, 4, LE(v.n, 4))
    else
      var enc := v.bytes + [0];
      Entry(f.key, f.fmt, |enc|, f.maxLen, enc + Zeros(Max(0, f.maxLen - |enc|)))
  }

  predicate AllEncodable(fields: seq<Field>, config: Config) {
    forall i :: 0 <= i < |fields| && fields[i].name in config ==> Encodable(fields[i], config[fields[i].name])
  }

  /** The fields that the configuration has, in table order. */
  function Entries(fields: seq<Field>, config: Config): seq<Entry>
    requires AllEncodable(fields, config)
    decreases |fields|
  {
    if fields == [] then []
    else
      var front, f := fields[..|fields| - 1], fields[|fields| - 1];
      Entries(front, config) + if f.name in config then [EntryOf(f, config[f.name])] else []
  }

  function KeyTable(es: seq<Entry>): Bytes
    decreases |es|
  {
    if es == [] then [] else KeyTable(es[..|es| - 1]) + (es[|es| - 1].key + [0])
  }

  function DataTable(es: seq<Entry>): Bytes
    decreases |es|
  {
    if es == [] then [] else DataTable(es[..|es| - 1]) + es[|es| - 1].data
  }

  /** "<HHIII" */
  function IndexRow(e: Entry, keyAt: nat, dataAt: nat): (b: Bytes)
    ensures |b| == 16
  {
    LE(keyAt, 2) + (LE(e.fmt, 2) + (LE(e.dataLen, 4) + (LE(e.dataMax, 4) + LE(dataAt, 4))))
  }

  function Index(es: seq<Entry>): (b: Bytes)
    ensures |b| == 16 * |es|
    decreases |es|
  {
    if es == [] then []
    else
      var front := es[..|es| - 1];
      Index(front) + IndexRow(es[|es| - 1], |KeyTable(front)|, |DataTable(front)|)
  }

  function Padded(keys: Bytes): Bytes {
    RoundUpBounds(|keys|, 4);
    keys + Zeros(RoundUp(|keys|, 4) - |keys|)
  }

  function Head(keyBase: nat, dataBase: nat, n: nat): (b: Bytes)
    ensures |b| == 20
  {
    LE(MAGIC, 4) + (LE(VERSION, 4) + (LE(keyBase, 4) + (LE(dataBase, 4) + LE(n, 4))))
  }

  function KeyBase(es: seq<Entry>): nat {
    20 + 16 * |es|
  }

  function DataBase(es: seq<Entry>): nat {
    KeyBase(es) + |Padded(KeyTable(es))|
  }

  function FileOf(es: seq<Entry>): Bytes {
    Head(KeyBase(es), DataBase(es), |es|) + (Index(es) + (Padded(KeyTable(es)) + DataTable(es)))
  }

  /** Every number fits the field `struct.pack` puts it in. */
  predicate RowPackable(es: seq<Entry>, i: nat)
    requires i < |es|
  {
    |KeyTable(es[..i])| < 0x1_0000 && es[i].fmt < 0x1_0000
    && es[i].dataLen < TWO32 && es[i].dataMax < TWO32 && |DataTable(es[..i])| < TWO32
  }

  predicate Packable(es: seq<Entry>) {
    DataBase(es) < TWO32 && RowsPackable(es, |es|)
  }

  predicate RowsPackable(es: seq<Entry>, n: nat)
    requires n <= |es|
  {
    forall i: nat :: i < n ==> RowPackable(es, i)
  }

  ghost predicate Writable(fields: seq<Field>, config: Config) {
    AllEncodable(fields, config) && Packable(Entries(fields, config))
  }

  /** `build_sfo`; `None` is an exception. */
  method BuildSfo(fields: seq<Field>, config: Config) returns (file: Option<Bytes>)
    ensures file == if Writable(fields, config) then Some(FileOf(Entries(fields, config))) else None
  {
    var entries: seq<Entry> := [];
    var keyTable: Bytes, dataTable: Bytes := [], [];
    var keyOffsets: seq<nat>, dataOffsets: seq<nat> := [], [];
    for j := 0 to |fields|
      invariant AllEncodable(fields[..j], config)
      invariant entries == Entries(fields[..j], config)
      invariant Gathered(entries, keyTable, dataTable, keyOffsets, dataOffsets)
    {
      var f := fields[j];
      assert fields[..j + 1][..j] == fields[..j] && fields[..j + 1][j] == f;
      if f.name in config {
        if !Encodable(f, config[f.name]) {
          return None;
        }
        var e := EntryOf(f, config[f.name]);
        GatherMore(entries, e, keyTable, dataTable, keyOffsets, dataOffsets);
        keyOffsets := keyOffsets + [|keyTable|];
        keyTable := keyTable + (e.key + [0]);
        dataOffsets := dataOffsets + [|dataTable|];
        dataTable := dataTable + e.data;
        entries := entries + [e];
      }
    }
    assert fields[..|fields|] == fields;
    file := Pack(entries, keyTable, dataTable, keyOffsets, dataOffsets);
  }

  /** What the gathering loop has built for the entries so far. */
  predicate Gathered(es: seq<Entry>, keyTable: Bytes, dataTable: Bytes, keyOffsets: seq<nat>, dataOffsets: seq<nat>) {
    keyTable == KeyTable(es) && dataTable == DataTable(es)
    && |keyOffsets| == |es| && |dataOffsets| == |es|
    && forall i: nat :: i < |es| ==> keyOffsets[i] == |KeyTable(es[..i])| && dataOffsets[i] == |DataTable(es[..i])|
  }

  lemma {:induction false} GatherMore(es: seq<Entry>, e: Entry, keyTable: Bytes, dataTable: Bytes,
                                      keyOffsets: seq<nat>, dataOffsets: seq<nat>)
    requires Gathered(es, keyTable, dataTable, keyOffsets, dataOffsets)
    ensures Gathered(es + [e], keyTable + (e.key + [0]), dataTable + e.data,
                     keyOffsets + [|keyTable|], dataOffsets + [|dataTable|])
  {
    var more := es + [e];
    assert more[..|es|] == es;
    forall i: nat | i < |more|
      ensures (keyOffsets + [|keyTable|])[i] == |KeyTable(more[..i])|
      ensures (dataOffsets + [|dataTable|])[i] == |DataTable(more[..i])|
    {
      if i < |es| { assert more[..i] == es[..i]; }
    }
  }

  /** The second half of `build_sfo`: header, index and the two tables. */
  method Pack(es: seq<Entry>, keyTable: Bytes, dataTable: Bytes, keyOffsets: seq<nat>, dataOffsets: seq<nat>)
    returns (file: Option<Bytes>)
    requires Gathered(es, keyTable, dataTable, keyOffsets, dataOffsets)
    ensures file == if Packable(es) then Some(FileOf(es)) else None
  {
    var aligned := Padded(keyTable);
    var n := |es|;
    var keyTableOffset := 20 + n * 16;
    var dataTableOffset := keyTableOffset + |aligned|;
    if dataTableOffset >= TWO32 {
      return None;
    }
    var idx := PackIndex(es, keyTable, dataTable, keyOffsets, dataOffsets);
    file := if idx.None? then None
            else Some(Head(keyTableOffset, dataTableOffset, n) + (idx.value + (aligned + dataTable)));
  }

  method PackIndex(es: seq<Entry>, ghost keyTable: Bytes, ghost dataTable: Bytes,
                   keyOffsets: seq<nat>, dataOffsets: seq<nat>)
    returns (idx: Option<Bytes>)
    requires Gathered(es, keyTable, dataTable, keyOffsets, dataOffsets)
    ensures idx == if RowsPackable(es, |es|) then Some(Index(es)) else None
  {
    var rows: Bytes := [];
    for i := 0 to |es|
      invariant rows == Index(es[..i]) && RowsPackable(es, i)
    {
      var row := PackRow(es, i, keyOffsets[i], dataOffsets[i]);
      if row.None? {
        assert !RowPackable(es, i);
        return None;
      }
      rows := rows + row.value;
    }
    assert es[..|es|] == es;
    idx := Some(rows);
  }

  method PackRow(es: seq<Entry>, i: nat, keyOffset: nat, dataOffset: nat) returns (row: Option<Bytes>)
    requires i < |es| && keyOffset == |KeyTable(es[..i])| && dataOffset == |DataTable(es[..i])|
    ensures row.Some? <==> RowPackable(es, i)
    ensures row.Some? ==> Index(es[..i + 1]) == Index(es[..i]) + row.value
  {
    var e := es[i];
    IndexMore(es, i);
    if keyOffset >= 0x1_0000 || e.fmt >= 0x1_0000 || e.dataLen >= TWO32 || e.dataMax >= TWO32 || dataOffset >= TWO32 {
      row := None;
    } else {
      row := Some(IndexRow(e, keyOffset, dataOffset));
    }
  }

  lemma {:induction false} IndexMore(es: seq<Entry>, i: nat)
    requires i < |es|
    ensures Index(es[..i + 1]) == Index(es[..i]) + IndexRow(es[i], |KeyTable(es[..i])|, |DataTable(es[..i])|)
    ensures es[..|es|] == es
  {
    assert es[..i + 1][..i] == es[..i];
  }

  // ----- the rows of a file -----

  predicate ValidHead(file: Bytes) {
    |file| >= 20 && U32(file, 0) == MAGIC
  }

  /** The rows both readers visit: those that lie inside the file. */
  function RowCount(file: Bytes): nat
    requires ValidHead(file)
  {
    Min(U32(file, 16), (|file| - 20) / 16)
  }

  datatype Row = Row(keyAt: nat, fmt: nat, len: nat, dataAt: nat)

  function RowAt(file: Bytes, i: nat): Row
    requires 20 + 16 * i + 16 <= |file|
  {
    var at := 20 + 16 * i;
    Row(U16(file, at), U16(file, at + 2), U32(file, at + 4), U32(file, at + 12))
  }

  // ----- the JavaScript reader -----

  /** The key of a row: it ends at a zero or at the end of the file. */
  function KeyOf(file: Bytes, i: nat): Bytes
    requires |file| >= 20 && 20 + 16 * i + 16 <= |file|
  {
    CString(file, U32(file, 8) + RowAt(file, i).keyAt)
  }

  /** The slice from `lo` to `hi`, cut at the end of the bytes. */
  function Sliced(file: Bytes, lo: nat, hi: nat): Bytes {
    if lo <= Min(hi, |file|) then file[lo..Min(hi, |file|)] else []
  }

  /** The value bytes of a row, as far as the file has them. */
  function Span(file: Bytes, start: nat, len: nat): Bytes {
    Sliced(file, start, start + len)
  }

  function RawOf(file: Bytes, i: nat): Bytes
    requires |file| >= 20 && 20 + 16 * i + 16 <= |file|
  {
    var row := RowAt(file, i);
    Span(file, U32(file, 12) + row.dataAt, row.len)
  }

  function ValueOf(fmt: nat, raw: Bytes): Option<Value> {
    if fmt == FMT_UTF8 || fmt == FMT_UTF8_S then Some(Text(CString(raw, 0)))
    else if fmt == FMT_INT32 && |raw| >= 4 then Some(Num(U32(raw, 0)))
    else None
  }

  /** The map that assigning row after row builds: the last row with a key wins. */
  function LastWins(key: nat -> Bytes, value: nat -> Option<Value>, n: nat): map<Bytes, Value> {
    if n == 0 then map[]
    else
      var m, v := LastWins(key, value, n - 1), value(n - 1);
      if v.Some? then m[key(n - 1) := v.value] else m
  }

  predicate RowInside(file: Bytes, i: nat) {
    20 + 16 * i + 16 <= |file|
  }

  function RowKey(file: Bytes): nat -> Bytes {
    (i: nat) => if RowInside(file, i) then KeyOf(file, i) else []
  }

  function RowValue(file: Bytes): nat -> Option<Value> {
    (i: nat) => if RowInside(file, i) then ValueOf(RowAt(file, i).fmt, RawOf(file, i)) else None
  }

  function Collected(file: Bytes, n: nat): map<Bytes, Value> {
    LastWins(RowKey(file), RowValue(file), n)
  }

  method ReadKey(bytes: Bytes, keyStart: nat) returns (key: Bytes)
    ensures key == CString(bytes, keyStart)
  {
    var keyEnd := keyStart;
    while keyEnd < |bytes| && bytes[keyEnd] != 0
      invariant keyStart <= keyEnd && (keyStart <= |bytes| ==> keyEnd <= |bytes|)
      invariant keyStart <= |bytes| ==> forall k :: keyStart <= k < keyEnd ==> bytes[k] != 0
    {
      keyEnd := keyEnd + 1;
    }
    if keyStart <= |bytes| { CStringScan(bytes, keyStart, keyEnd); }
    key := Sliced(bytes, keyStart, keyEnd);
  }

  /** `parseParamSfo`. */
  method ParseParamSfo(buffer: Bytes) returns (result: Option<map<Bytes, Value>>)
    ensures result == if ValidHead(buffer) then Some(Collected(buffer, RowCount(buffer))) else None
  {
    if |buffer| < 20 || U32(buffer, 0) != MAGIC {
      return None;
    }
    var entryCount := U32(buffer, 16);
    var m: map<Bytes, Value> := map[];
    var i := 0;
    RowVisited(buffer, i);
    while i < entryCount
      invariant i <= RowCount(buffer) && m == Collected(buffer, i)
      invariant i < RowCount(buffer) <==> i < entryCount && 20 + 16 * i + 16 <= |buffer|
    {
      var entryOffset := 20 + i * 16;
      if entryOffset + 16 > |buffer| {
        break;
      }
      m := ParseRow(buffer, i, m);
      i := i + 1;
      RowVisited(buffer, i);
    }
    result := Some(m);
  }

  lemma {:induction false} RowVisited(file: Bytes, i: nat)
    requires ValidHead(file)
    ensures i < RowCount(file) <==> i < U32(file, 16) && 20 + 16 * i + 16 <= |file|
    ensures i <= RowCount(file) ==> 20 + 16 * i <= |file|
  {
  }

  /** One round of the loop of `parseParamSfo`. */
  method ParseRow(buffer: Bytes, i: nat, given: map<Bytes, Value>) returns (m: map<Bytes, Value>)
    requires |buffer| >= 20 && 20 + 16 * i + 16 <= |buffer| && given == Collected(buffer, i)
    ensures m == Collected(buffer, i + 1)
  {
    var row := RowAt(buffer, i);
    var key := ReadKey(buffer, U32(buffer, 8) + row.keyAt);
    var valStart := U32(buffer, 12) + row.dataAt;
    var raw := Span(buffer, valStart, row.len);
    assert RowKey(buffer)(i) == key && RowValue(buffer)(i) == ValueOf(row.fmt, raw);
    m := given;
    if row.fmt == 0x0204 || row.fmt == 0x0004 {
      m := m[key := Text(CString(raw, 0))];
    } else if row.fmt == 0x0404 && |raw| >= 4 {
      m := m[key := Num(U32(raw, 0))];
    }
  }

  // ----- the C reader -----

  /** `Beyond`: the reader looks at memory past the end of the file. */
  datatype Read = NotFound | Found(out: Bytes) | Beyond

  datatype Order = Same | Different | Past

  /** `strcmp` of the bytes at `at` with a C string. */
  function Compare(file: Bytes, at: nat, key: Bytes): Order
    decreases key
  {
    if at >= |file| then Past
    else if key == [] then (if file[at] == 0 then Same else Different)
    else if file[at] != key[0] then Different
    else Compare(file, at + 1, key[1..])
  }

  function Copied(file: Bytes, dataBase: nat, row: Row, outLen: nat): Read
    requires outLen > 0
  {
    var doff := (dataBase + row.dataAt) % TWO32;
    if (doff + row.len) % TWO32 > |file| then NotFound
    else
      var copy := if row.len < outLen then row.len else outLen - 1;
      if doff + copy > |file| then Beyond else Found(file[doff..doff + copy] + [0])
  }

  /** The search from row `i` on; offsets are added in 32 bits. */
  function FieldFrom(file: Bytes, key: Bytes, outLen: nat, i: nat): Read
    requires ValidHead(file) && outLen > 0
    decreases RowCount(file) - i
  {
    if i >= RowCount(file) then NotFound
    else
      var row := RowAt(file, i);
      var koff := (U32(file, 8) + row.keyAt) % TWO32;
      if koff >= |file| then FieldFrom(file, key, outLen, i + 1)
      else match Compare(file, koff, key)
        case Past => Beyond
        case Different => FieldFrom(file, key, outLen, i + 1)
        case Same => Copied(file, U32(file, 12), row, outLen)
  }

  function FieldOf(file: Bytes, key: Bytes, outLen: nat): Read
    requires outLen > 0
  {
    if ValidHead(file) then FieldFrom(file, key, outLen, 0) else NotFound
  }

  method StrCmp(file: Bytes, at: nat, key: Bytes) returns (r: Order)
    ensures r == Compare(file, at, key)
  {
    var j := 0;
    while at + j < |file| && j < |key| && file[at + j] == key[j]
      invariant j <= |key| && Compare(file, at, key) == Compare(file, at + j, key[j..])
    {
      assert key[j..][1..] == key[j + 1..];
      j := j + 1;
    }
    if at + j >= |file| {
      r := Past;
    } else if j == |key| {
      r := if file[at + j] == 0 then Same else Different;
    } else {
      r := Different;
    }
  }

  /** `sfo_read_field` on the content of the file. */
  method SfoReadField(file: Bytes, key: Bytes, outLen: nat) returns (r: Read)
    requires outLen > 0
    ensures r == FieldOf(file, key, outLen)
  {
    if |file| < 20 || U32(file, 0) != MAGIC {
      return NotFound;
    }
    var n := U32(file, 16);
    var i := 0;
    RowVisited(file, i);
    while i < n
      invariant i <= RowCount(file)
      invariant i < RowCount(file) <==> i < n && 20 + 16 * i + 16 <= |file|
      invariant FieldFrom(file, key, outLen, 0) == FieldFrom(file, key, outLen, i)
    {
      if 20 + i * 16 + 16 > |file| {
        break;
      }
      var stop, result := ReadRow(file, i, key, outLen);
      if stop {
        return result;
      }
      i := i + 1;
      RowVisited(file, i);
    }
    r := NotFound;
  }

  /** One round of the loop of `sfo_read_field`: `stop` when it leaves the loop. */
  method ReadRow(file: Bytes, i: nat, key: Bytes, outLen: nat) returns (stop: bool, r: Read)
    requires ValidHead(file) && outLen > 0 && i < RowCount(file)
    ensures FieldFrom(file, key, outLen, i) == if stop then r else FieldFrom(file, key, outLen, i + 1)
  {
    RowVisited(file, i);
    var row := RowAt(file, i);
    var koff := (U32(file, 8) + row.keyAt) % TWO32;
    if koff >= |file| {
      return false, NotFound;
    }
    var c := StrCmp(file, koff, key);
    if c == Past {
      return true, Beyond;
    }
    if c != Same {
      return false, NotFound;
    }
    var doff := (U32(file, 12) + row.dataAt) % TWO32;
    if (doff + row.len) % TWO32 > |file| {
      return true, NotFound;
    }
    var copy := if row.len < outLen then row.len else outLen - 1;
    if doff + copy > |file| {
      return true, Beyond;
    }
    return true, Found(file[doff..doff + copy] + [0]);
  }
}
