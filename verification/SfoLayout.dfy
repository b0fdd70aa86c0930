/**
 * What is where in a written `param.sfo` file: header, rows, keys, and values padded to
 * the room that the table of fields reserves for them.
 */
module SfoLayout {
  import opened Words
  import opened ByteFile
  import opened RawBytes
  import opened Sfo
  import opened SfoTheorems

  /** The fields that the configuration has, in the order of the table. */
  function Present(fields: seq<Field>, config: Config): (ps: seq<Field>)
    ensures forall p :: p in ps ==> p in fields && p.name in config
    decreases |fields|
  {
    if fields == [] then []
    else
      var ps, f := Present(fields[..|fields| - 1], config), fields[|fields| - 1];
      if f.name in config then ps + [f] else ps
  }

  /** A number for an integer field and a text for any other. */
  predicate HasType(f: Field, v: Sfo.Value) {
    if f.fmt == 0x0404 then v.Num? && 0 <= v.n <= 0xFFFF_FFFF else v.Text?
  }

  predicate AllTyped(ps: seq<Field>, config: Config)
    requires forall p :: p in ps ==> p.name in config
  {
    forall p :: p in ps ==> HasType(p, config[p.name])
  }

  /** The bytes that a value has, and those that it takes. */
  function Length(f: Field, v: Sfo.Value): nat {
    if v.Num? then 4 else |v.bytes| + 1
  }

  function Width(f: Field, v: Sfo.Value): nat {
    if v.Num? || Length(f, v) >= f.maxLen then Length(f, v) else f.maxLen
  }

  function KeyRoom(ps: seq<Field>): nat
    decreases |ps|
  {
    if ps == [] then 0 else KeyRoom(ps[..|ps| - 1]) + |ps[|ps| - 1].key| + 1
  }

  function DataRoom(ps: seq<Field>, config: Config): nat
    requires forall p :: p in ps ==> p.name in config
    decreases |ps|
  {
    if ps == [] then 0
    else
      var f := ps[|ps| - 1];
      DataRoom(ps[..|ps| - 1], config) + Width(f, config[f.name])
  }

  function Word(b0: int, b1: int, b2: int, b3: int): int {
    b0 + 0x100 * b1 + 0x1_0000 * b2 + 0x100_0000 * b3
  }

  /** The value of a field, then a zero for a text, then zeros up to the end of its room. */
  predicate ValueStands(file: Bytes, at: nat, f: Field, v: Sfo.Value) {
    at + Width(f, v) <= |file| &&
    match v
    case Num(n) => n == Word(file[at], file[at + 1], file[at + 2], file[at + 3])
    case Text(bytes) =>
      && file[at..at + |bytes|] == bytes
      && forall x: nat :: at + |bytes| <= x < at + Width(f, v) ==> file[x] == 0
  }

  predicate KeyStands(file: Bytes, at: nat, key: Bytes) {
    at + |key| < |file| && file[at..at + |key|] == key && file[at + |key|] == 0
  }

  // ----- entries and fields -----

  ghost predicate Matches(es: seq<Entry>, ps: seq<Field>, config: Config) {
    && |es| == |ps|
    && forall i: nat :: i < |ps| ==> ps[i].name in config && Encodable(ps[i], config[ps[i].name])
                                     && es[i] == EntryOf(ps[i], config[ps[i].name])
  }

  lemma {:induction false} EntriesMatch(fields: seq<Field>, config: Config)
    requires AllEncodable(fields, config)
    ensures Matches(Entries(fields, config), Present(fields, config), config)
    decreases |fields|
  {
    if fields != [] {
      var n := |fields| - 1;
      EntriesMatch(fields[..n], config);
      assert fields[n].name in config ==> Encodable(fields[n], config[fields[n].name]);
    }
  }

  lemma {:induction false} TypedIsEncodable(fields: seq<Field>, config: Config)
    ensures AllEncodable(fields, config) <==> AllTyped(Present(fields, config), config)
    decreases |fields|
  {
    if fields != [] {
      var n := |fields| - 1;
      var front, f := fields[..n], fields[n];
      TypedIsEncodable(front, config);
      assert AllEncodable(fields, config) <==>
        AllEncodable(front, config) && (f.name in config ==> Encodable(f, config[f.name])) by {
        assert forall i: nat :: i < n ==> fields[i] == front[i];
      }
    }
  }

  lemma {:induction false} EntryRoom(f: Field, v: Sfo.Value)
    requires Encodable(f, v)
    ensures var e := EntryOf(f, v);
            && e.key == f.key && e.fmt == f.fmt && |e.data| == Width(f, v) && e.dataLen == Length(f, v)
            && e.dataMax == if f.fmt == 0x0404 then 4 else f.maxLen
    ensures ValueStands(EntryOf(f, v).data, 0, f, v)
  {
    var e := EntryOf(f, v);
    if f.fmt == FMT_INT32 {
      ReadU32(v.n);
      FourBytes(e.data);
    }
  }

  lemma {:induction false} FourBytes(b: Bytes)
    requires |b| == 4
    ensures Words.Value(b) == Word(b[0], b[1], b[2], b[3])
  {
    assert b[1..][1..] == b[2..] && b[2..][1..] == b[3..] && b[3..][1..] == [];
    assert Words.Value(b[3..]) == b[3];
    assert Words.Value(b[2..]) == b[2] + 256 * Words.Value(b[3..]);
    assert Words.Value(b[1..]) == b[1] + 256 * Words.Value(b[2..]);
  }

  lemma {:induction false} Rooms(es: seq<Entry>, ps: seq<Field>, config: Config)
    requires Matches(es, ps, config)
    ensures |KeyTable(es)| == KeyRoom(ps)
    ensures (forall p :: p in ps ==> p.name in config) && |DataTable(es)| == DataRoom(ps, config)
    decreases |ps|
  {
    if ps != [] {
      var n := |ps| - 1;
      assert es[n] == EntryOf(ps[n], config[ps[n].name]);
      Rooms(es[..n], ps[..n], config);
      EntryRoom(ps[n], config[ps[n].name]);
    }
  }

  // ----- when there is a file -----

  /** Every number fits the field of the row or of the header that holds it. */
  predicate Fits(ps: seq<Field>, config: Config)
    requires forall p :: p in ps ==> p.name in config
  {
    && 20 + 16 * |ps| + RoundUp(KeyRoom(ps), 4) <= 0xFFFF_FFFF
    && forall i: nat :: i < |ps| ==> RowFits(ps, config, i)
  }

  predicate RowFits(ps: seq<Field>, config: Config, i: nat)
    requires i < |ps| && forall p :: p in ps ==> p.name in config
  {
    && KeyRoom(ps[..i]) <= 0xFFFF && ps[i].fmt <= 0xFFFF && Length(ps[i], config[ps[i].name]) <= 0xFFFF_FFFF
    && (ps[i].fmt != 0x0404 ==> ps[i].maxLen <= 0xFFFF_FFFF) && DataRoom(ps[..i], config) <= 0xFFFF_FFFF
  }

  /** The writer gives a file exactly when every value has the type of its field and every
      offset and length fits its field. */
  lemma {:induction false} WritableExactly(fields: seq<Field>, config: Config)
    ensures var ps := Present(fields, config);
            Writable(fields, config) <==> AllTyped(ps, config) && Fits(ps, config)
  {
    TypedIsEncodable(fields, config);
    if AllEncodable(fields, config) {
      var es, ps := Entries(fields, config), Present(fields, config);
      EntriesMatch(fields, config);
      Rooms(es, ps, config);
      RoundUpBounds(KeyRoom(ps), 4);
      forall i: nat | i < |ps| ensures RowPackable(es, i) <==> RowFits(ps, config, i) {
        assert es[i] == EntryOf(ps[i], config[ps[i].name]);
        Rooms(es[..i], ps[..i], config);
        EntryRoom(ps[i], config[ps[i].name]);
      }
    }
  }

  // ----- the bytes -----

  /** The five words of the header, the magic and the version among them. */
  predicate HeadIs(file: Bytes, keyBase: nat, dataBase: nat, n: nat) {
    && |file| >= 20 && U32(file, 0) == 0x46535000 && U32(file, 4) == 0x101
    && U32(file, 8) == keyBase && U32(file, 12) == dataBase && U32(file, 16) == n
  }

  /** The five fields of the row at `at`. */
  predicate RowIs(file: Bytes, at: nat, keyAt: nat, fmt: nat, len: nat, max: nat, dataAt: nat) {
    && at + 16 <= |file| && U16(file, at) == keyAt && U16(file, at + 2) == fmt
    && U32(file, at + 4) == len && U32(file, at + 8) == max && U32(file, at + 12) == dataAt
  }

  lemma {:induction false} HeadStands(file: Bytes, keyBase: nat, dataBase: nat, n: nat)
    requires Holds(file, 0, Head(keyBase, dataBase, n)) && keyBase < TWO32 && dataBase < TWO32 && n < TWO32
    ensures HeadIs(file, keyBase, dataBase, n)
  {
    ReadsHead(file, keyBase, dataBase, n);
    HoldsPart(file, 0, LE(MAGIC, 4), LE(VERSION, 4) + (LE(keyBase, 4) + (LE(dataBase, 4) + LE(n, 4))));
    HoldsPart(file, 4, LE(VERSION, 4), LE(keyBase, 4) + (LE(dataBase, 4) + LE(n, 4)));
    ReadsU32(file, 4, VERSION);
  }

  lemma {:induction false} RowStands(file: Bytes, at: nat, e: Entry, keyAt: nat, dataAt: nat)
    requires Holds(file, at, IndexRow(e, keyAt, dataAt)) && keyAt < 0x1_0000 && e.fmt < 0x1_0000
    requires e.dataLen < TWO32 && e.dataMax < TWO32 && dataAt < TWO32
    ensures RowIs(file, at, keyAt, e.fmt, e.dataLen, e.dataMax, dataAt)
  {
    var tail := LE(e.dataMax, 4) + LE(dataAt, 4);
    HoldsPart(file, at, LE(keyAt, 2), LE(e.fmt, 2) + (LE(e.dataLen, 4) + tail));
    HoldsPart(file, at + 2, LE(e.fmt, 2), LE(e.dataLen, 4) + tail);
    HoldsPart(file, at + 4, LE(e.dataLen, 4), tail);
    HoldsPart(file, at + 8, LE(e.dataMax, 4), LE(dataAt, 4));
    ReadsU16(file, at, keyAt);
    ReadsU16(file, at + 2, e.fmt);
    ReadsU32(file, at + 4, e.dataLen);
    ReadsU32(file, at + 8, e.dataMax);
    ReadsU32(file, at + 12, dataAt);
  }

  lemma {:induction false} ValueMoves(file: Bytes, at: nat, f: Field, v: Sfo.Value, data: Bytes)
    requires Holds(file, at, data) && ValueStands(data, 0, f, v) && |data| == Width(f, v)
    ensures ValueStands(file, at, f, v)
  {
    forall k: nat | k < |data| ensures file[at + k] == data[k] {
      HoldsByte(file, at, data, k);
    }
    if v.Text? {
      assert file[at..at + |v.bytes|] == data[0..0 + |v.bytes|];
    } else {
      assert file[at + 0] == data[0];
    }
  }

  lemma {:induction false} KeyMoves(file: Bytes, at: nat, key: Bytes)
    requires Holds(file, at, key + [0])
    ensures KeyStands(file, at, key)
  {
    HoldsPart(file, at, key, [0]);
    HoldsByte(file, at, key + [0], |key|);
  }

  /** Where the data table starts: the first multiple of 4 behind the keys. */
  ghost predicate DataStarts(ps: seq<Field>, at: nat) {
    var keyEnd := 20 + 16 * |ps| + KeyRoom(ps);
    at % 4 == 0 && keyEnd <= at < keyEnd + 4
  }

  /** Magic, version 0x101, the tables and the number of rows; the keys start behind the
      rows, and the data table behind zeros at a multiple of 4 fills the rest of the file. */
  lemma {:induction false} HeaderBytes(fields: seq<Field>, config: Config, dataBase: nat)
    requires Writable(fields, config) && DataStarts(Present(fields, config), dataBase)
    ensures var file, ps := FileOf(Entries(fields, config)), Present(fields, config);
            && HeadIs(file, 20 + 16 * |ps|, dataBase, |ps|) && |file| == dataBase + DataRoom(ps, config)
            && forall x: nat :: 20 + 16 * |ps| + KeyRoom(ps) <= x < dataBase ==> file[x] == 0
  {
    var es, ps := Entries(fields, config), Present(fields, config);
    EntriesMatch(fields, config);
    Rooms(es, ps, config);
    FileLaid(es);
    TablePlaces(es, ps, dataBase);
    HeadStands(FileOf(es), KeyBase(es), DataBase(es), |es|);
    FileEnds(es);
  }

  /** Behind the keys there are zeros up to the data table, and nothing behind that. */
  lemma {:induction false} FileEnds(es: seq<Entry>)
    ensures |FileOf(es)| == DataBase(es) + |DataTable(es)|
    ensures forall x: nat :: KeyBase(es) + |KeyTable(es)| <= x < DataBase(es) ==> FileOf(es)[x] == 0
  {
    var file, keys := FileOf(es), KeyTable(es);
    RoundUpBounds(|keys|, 4);
    var zeros := Zeros(|Padded(keys)| - |keys|);
    FileParts(file, Head(KeyBase(es), DataBase(es), |es|), Index(es), Padded(keys), DataTable(es));
    HoldsPart(file, KeyBase(es), keys, zeros);
    forall x: nat | KeyBase(es) + |keys| <= x < DataBase(es) ensures file[x] == 0 {
      HoldsByte(file, KeyBase(es) + |keys|, zeros, x - KeyBase(es) - |keys|);
    }
  }

  lemma {:induction false} TablePlaces(es: seq<Entry>, ps: seq<Field>, dataBase: nat)
    requires |es| == |ps| && |KeyTable(es)| == KeyRoom(ps) && DataStarts(ps, dataBase)
    ensures KeyBase(es) == 20 + 16 * |ps| && DataBase(es) == dataBase
  {
    RoundUpBounds(KeyRoom(ps), 4);
    assert DataBase(es) == 20 + 16 * |ps| + RoundUp(KeyRoom(ps), 4);
  }

  /** Row `i` is that of the `i`-th present field: format, length and room; the key stands
      in the key table with a zero behind it, and the value in the data table with zeros
      up to its room. Keys and values follow each other without gaps. */
  lemma {:induction false} RowBytes(fields: seq<Field>, config: Config, dataBase: nat, i: nat)
    requires Writable(fields, config) && DataStarts(Present(fields, config), dataBase)
    requires i < |Present(fields, config)|
    ensures RowStandsFor(FileOf(Entries(fields, config)), Present(fields, config), config, dataBase, i)
  {
    var es, ps := Entries(fields, config), Present(fields, config);
    EntriesMatch(fields, config);
    FileLaid(es);
    Rooms(es, ps, config);
    TablePlaces(es, ps, dataBase);
    LaidRow(FileOf(es), es, ps, config, dataBase, i);
  }

  predicate RowStandsFor(file: Bytes, ps: seq<Field>, config: Config, dataBase: nat, i: nat)
    requires i < |ps| && forall p :: p in ps ==> p.name in config
  {
    var f, keyAt, dataAt := ps[i], KeyRoom(ps[..i]), DataRoom(ps[..i], config);
    var v, max := config[f.name], if f.fmt == 0x0404 then 4 else f.maxLen;
    && RowIs(file, 20 + 16 * i, keyAt, f.fmt, Length(f, v), max, dataAt)
    && KeyStands(file, 20 + 16 * |ps| + keyAt, f.key) && ValueStands(file, dataBase + dataAt, f, v)
  }

  lemma {:induction false} LaidRow(file: Bytes, es: seq<Entry>, ps: seq<Field>, config: Config, dataBase: nat, i: nat)
    requires Matches(es, ps, config) && i < |ps| && RowsPackable(es, |es|)
    requires Holds(file, 20, Index(es)) && Holds(file, 20 + 16 * |ps|, KeyTable(es))
    requires Holds(file, dataBase, DataTable(es))
    ensures (forall p :: p in ps ==> p.name in config) && RowStandsFor(file, ps, config, dataBase, i)
  {
    Rooms(es, ps, config);
    LaidWords(file, es, ps, config, i);
    LaidKey(file, es, ps, config, i);
    LaidValue(file, es, ps, config, dataBase, i);
  }

  lemma {:induction false} LaidWords(file: Bytes, es: seq<Entry>, ps: seq<Field>, config: Config, i: nat)
    requires Matches(es, ps, config) && i < |ps| && RowsPackable(es, |es|) && Holds(file, 20, Index(es))
    requires forall p :: p in ps ==> p.name in config
    ensures var f := ps[i];
            RowIs(file, 20 + 16 * i, KeyRoom(ps[..i]), f.fmt, Length(f, config[f.name]),
                  if f.fmt == 0x0404 then 4 else f.maxLen, DataRoom(ps[..i], config))
  {
    assert es[i] == EntryOf(ps[i], config[ps[i].name]) && RowPackable(es, i);
    Rooms(es[..i], ps[..i], config);
    EntryRoom(ps[i], config[ps[i].name]);
    RowWords(file, es, i);
  }

  lemma {:induction false} LaidKey(file: Bytes, es: seq<Entry>, ps: seq<Field>, config: Config, i: nat)
    requires Matches(es, ps, config) && i < |ps| && Holds(file, 20 + 16 * |ps|, KeyTable(es))
    ensures KeyStands(file, 20 + 16 * |ps| + KeyRoom(ps[..i]), ps[i].key)
  {
    assert es[i] == EntryOf(ps[i], config[ps[i].name]);
    Rooms(es[..i], ps[..i], config);
    EntryRoom(ps[i], config[ps[i].name]);
    KeyBytes(file, 20 + 16 * |ps|, es, i);
  }

  lemma {:induction false} LaidValue(file: Bytes, es: seq<Entry>, ps: seq<Field>, config: Config, dataBase: nat, i: nat)
    requires Matches(es, ps, config) && i < |ps| && Holds(file, dataBase, DataTable(es))
    requires forall p :: p in ps ==> p.name in config
    ensures ValueStands(file, dataBase + DataRoom(ps[..i], config), ps[i], config[ps[i].name])
  {
    assert es[i] == EntryOf(ps[i], config[ps[i].name]);
    Rooms(es[..i], ps[..i], config);
    ValueBytes(file, dataBase, es, i, ps[i], config[ps[i].name]);
  }

  lemma {:induction false} RowWords(file: Bytes, es: seq<Entry>, i: nat)
    requires Holds(file, 20, Index(es)) && i < |es| && RowPackable(es, i)
    ensures var e := es[i];
            RowIs(file, 20 + 16 * i, |KeyTable(es[..i])|, e.fmt, e.dataLen, e.dataMax, |DataTable(es[..i])|)
  {
    HoldsIndex(file, 20, es, i);
    RowStands(file, 20 + 16 * i, es[i], |KeyTable(es[..i])|, |DataTable(es[..i])|);
  }

  lemma {:induction false} KeyBytes(file: Bytes, keyBase: nat, es: seq<Entry>, i: nat)
    requires Holds(file, keyBase, KeyTable(es)) && i < |es|
    ensures KeyStands(file, keyBase + |KeyTable(es[..i])|, es[i].key)
  {
    HoldsKey(file, keyBase, es, i);
    KeyMoves(file, keyBase + |KeyTable(es[..i])|, es[i].key);
  }

  lemma {:induction false} ValueBytes(file: Bytes, dataBase: nat, es: seq<Entry>, i: nat, f: Field, v: Sfo.Value)
    requires Holds(file, dataBase, DataTable(es)) && i < |es| && Encodable(f, v) && es[i] == EntryOf(f, v)
    ensures ValueStands(file, dataBase + |DataTable(es[..i])|, f, v)
  {
    HoldsData(file, dataBase, es, i);
    EntryRoom(f, v);
    ValueMoves(file, dataBase + |DataTable(es[..i])|, f, v, es[i].data);
  }

  /** The formats and the room of the nine fields. */
  lemma {:induction false} FieldValues()
    ensures |FIELDS| == 9
    ensures forall i: nat :: i < 9 ==>
              && FIELDS[i].fmt == [0x404, 4, 4, 4, 0x204, 0x404, 0x204, 4, 4][i]
              && FIELDS[i].maxLen == [4, 8, 4, 48, 512, 4, 128, 12, 8][i]
  {
  }

  // ----- one file -----

  function Title(): Field {
    FieldNamed("TITLE", FMT_UTF8, 128)
  }

  /** A title alone: 20 bytes of header, one row, the key and 128 bytes for the text. */
  ghost predicate TitleStands(file: Bytes, title: Bytes) {
    && |file| == 172 && HeadIs(file, 36, 44, 1) && RowIs(file, 20, 0, 0x204, |title| + 1, 128, 0)
    && file[36..41] == [0x54, 0x49, 0x54, 0x4C, 0x45] && file[41] == file[42] == file[43] == 0
    && 44 + |title| < 172 && file[44..44 + |title|] == title
    && forall x: nat :: 44 + |title| <= x < 172 ==> file[x] == 0
  }

  lemma {:induction false} TitleFile(title: Bytes)
    requires |title| < 128
    ensures var config: Config := map["TITLE" := Text(title)];
            Writable(FIELDS, config) && TitleStands(FileOf(Entries(FIELDS, config)), title)
  {
    var config: Config := map["TITLE" := Text(title)];
    TitleRooms(config, title);
    WritableExactly(FIELDS, config);
    HeaderBytes(FIELDS, config, 44);
    RowBytes(FIELDS, config, 44, 0);
    TitleBytes(FileOf(Entries(FIELDS, config)), config, title);
  }

  lemma {:induction false} TitleRooms(config: Config, title: Bytes)
    requires config == map["TITLE" := Text(title)] && |title| < 128
    ensures Present(FIELDS, config) == [Title()] && [Title()][..0] == []
    ensures KeyRoom([Title()]) == 6 && DataRoom([Title()], config) == 128
    ensures AllTyped([Title()], config) && Fits([Title()], config) && DataStarts([Title()], 44)
  {
    OnlyTitle(config);
    assert RoundUp(6, 4) == 8 by { RoundUpBounds(6, 4); }
    forall i: nat | i < |[Title()]| ensures RowFits([Title()], config, i) {}
  }

  lemma {:induction false} TitleBytes(file: Bytes, config: Config, title: Bytes)
    requires config == map["TITLE" := Text(title)] && |title| < 128 && |file| == 172 && HeadIs(file, 36, 44, 1)
    requires RowStandsFor(file, [Title()], config, 44, 0) && forall x: nat :: 42 <= x < 44 ==> file[x] == 0
    ensures TitleStands(file, title)
  {
    assert [Title()][..0] == [] && Title().key == [0x54, 0x49, 0x54, 0x4C, 0x45];
  }

  lemma {:induction false} OnlyTitle(config: Config)
    requires config.Keys == {"TITLE"}
    ensures Present(FIELDS, config) == [Title()]
  {
    AbsentFields(FIELDS, config, 6);
    PresentStep(FIELDS, config, 6);
    AbsentLater(FIELDS, config, 7, 9);
    assert FIELDS[..9] == FIELDS;
  }

  lemma {:induction false} PresentStep(fields: seq<Field>, config: Config, n: nat)
    requires n < |fields|
    ensures Present(fields[..n + 1], config) ==
            Present(fields[..n], config) + if fields[n].name in config then [fields[n]] else []
  {
    assert fields[..n + 1][..n] == fields[..n];
  }

  lemma {:induction false} AbsentFields(fields: seq<Field>, config: Config, n: nat)
    requires n <= |fields| && forall i: nat :: i < n ==> fields[i].name !in config
    ensures Present(fields[..n], config) == []
  {
    if n > 0 {
      AbsentFields(fields, config, n - 1);
      PresentStep(fields, config, n - 1);
    }
  }

  lemma {:induction false} AbsentLater(fields: seq<Field>, config: Config, from: nat, n: nat)
    requires from <= n <= |fields| && forall i: nat :: from <= i < n ==> fields[i].name !in config
    ensures Present(fields[..n], config) == Present(fields[..from], config)
    decreases n
  {
    if n > from {
      AbsentLater(fields, config, from, n - 1);
      PresentStep(fields, config, n - 1);
    }
  }
}
