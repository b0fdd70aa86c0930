/**
 * `rtld_load`: find the tables, relocate, open the needed libraries, bind the
 * symbols. The tables are read from the very image that the passes write to.
 */
module RtldLoad {
  import opened Words
  import opened ByteFile
  import opened RawBytes
  import opened Rtld
  import opened RtldPass

  // ----- the tables stay readable while slots are written -----

  ghost predicate Within(tables: set<nat>, lo: nat, len: nat) {
    forall a: nat :: lo <= a < lo + len ==> a in tables
  }

  ghost predicate SameTables(tables: set<nat>, a: Bytes, b: Bytes) {
    |a| == |b| && forall x: nat :: x in tables && x < |a| ==> a[x] == b[x]
  }

  lemma {:induction false} SameU64(tables: set<nat>, a: Bytes, b: Bytes, at: nat)
    requires SameTables(tables, a, b) && Within(tables, at, 8) && at + 8 <= |a|
    ensures U64(a, at) == U64(b, at)
  {
    assert a[at..at + 8] == b[at..at + 8];
  }

  lemma {:induction false} SameU32(tables: set<nat>, a: Bytes, b: Bytes, at: nat)
    requires SameTables(tables, a, b) && Within(tables, at, 4) && at + 4 <= |a|
    ensures U32(a, at) == U32(b, at)
  {
    assert a[at..at + 4] == b[at..at + 4];
  }

  /** A terminated string that lies in the tables. */
  ghost predicate GoodString(image: Bytes, tables: set<nat>, at: nat) {
    at + |CString(image, at)| < |image| && Within(tables, at, |CString(image, at)| + 1)
  }

  lemma {:induction false} SameCString(tables: set<nat>, a: Bytes, b: Bytes, at: nat)
    requires SameTables(tables, a, b) && GoodString(a, tables, at)
    ensures CString(b, at) == CString(a, at)
    decreases |a| - at
  {
    assert at in tables;
    if a[at] != 0 {
      assert CString(a, at) == [a[at]] + CString(a, at + 1);
      SameCString(tables, a, b, at + 1);
    }
  }

  // ----- the entries that the image holds -----

  function EntryAt(image: Bytes, t: Tables, i: nat): Entry
    requires t.rela + 24 * i + 24 <= |image|
  {
    var r := RelaAt(image, t, i);
    Entry(r.offset, r.kind, r.addend,
          if IsSymbolKind(r.kind) && SymAt(t, r) + 4 <= |image| then NameOf(image, t, r) else [])
  }

  function EntriesOf(image: Bytes, t: Tables, n: nat): (es: seq<Entry>)
    requires t.rela + 24 * n <= |image|
    ensures |es| == n
  {
    seq(n, i requires 0 <= i < n => EntryAt(image, t, i))
  }

  /** A dynamic entry with the name that a DT_NEEDED one gives. */
  datatype Dyn = Dyn(tag: nat, name: Bytes)
  {
    function Needed(): Option<Bytes> {
      if tag == DT_NEEDED then Some(name) else None
    }
  }

  function DynAt(image: Bytes, t: Tables, dyn: nat, i: nat): Dyn
    requires dyn + 16 * i + 16 <= |image|
  {
    var tag := TagAt(image, dyn, i);
    Dyn(tag, if tag == DT_NEEDED then CString(image, t.strtab + ValueAt(image, dyn, i)) else [])
  }

  function DynsOf(image: Bytes, t: Tables, dyn: nat, n: nat): (ds: seq<Dyn>)
    requires dyn + 16 * n <= |image|
    ensures |ds| == n
  {
    seq(n, i requires 0 <= i < n => DynAt(image, t, dyn, i))
  }

  /** The image reads as the dynamic entries `all`. */
  ghost predicate ReadsAs(image: Bytes, t: Tables, dyn: nat, all: seq<Dyn>) {
    forall i: nat {:trigger DynAt(image, t, dyn, i)} :: i < |all| ==>
      dyn + 16 * i + 16 <= |image| && DynAt(image, t, dyn, i) == all[i]
  }

  /** `all` is `ds` and then the terminator, the only one. */
  ghost predicate Ended(ds: seq<Dyn>, all: seq<Dyn>) {
    |all| == |ds| + 1 && all[|ds|].tag == DT_NULL
    && forall i: nat :: i < |ds| ==> all[i] == ds[i] && all[i].tag != DT_NULL
  }

  // ----- what the ELF file promises -----

  /** Entry `i` and all that it refers to lie in the tables. */
  ghost predicate EntryInTables(image: Bytes, t: Tables, tables: set<nat>, i: nat) {
    t.rela + 24 * i + 24 <= |image| && Within(tables, t.rela + 24 * i, 24)
    && var r := RelaAt(image, t, i);
       IsSymbolKind(r.kind) ==>
         SymAt(t, r) + 4 <= |image| && Within(tables, SymAt(t, r), 4)
         && GoodString(image, tables, t.strtab + U32(image, SymAt(t, r)))
  }

  ghost predicate DynInTables(image: Bytes, t: Tables, tables: set<nat>, dyn: nat, i: nat) {
    dyn + 16 * i + 16 <= |image| && Within(tables, dyn + 16 * i, 16)
    && (TagAt(image, dyn, i) == DT_NEEDED ==> GoodString(image, tables, t.strtab + ValueAt(image, dyn, i)))
  }

  /** The slot is in the image and touches no table. */
  ghost predicate GoodSlot(e: Entry, size: nat, tables: set<nat>) {
    e.IsRelocated() ==> e.offset + 8 <= size && forall a: nat :: e.offset <= a < e.offset + 8 ==> a !in tables
  }

  ghost predicate GoodEntries(image: Bytes, t: Tables, tables: set<nat>, es: seq<Entry>) {
    (forall i: nat :: i < |es| ==> EntryInTables(image, t, tables, i))
    && (forall i: nat :: i < |es| ==> GoodSlot(es[i], |image|, tables))
    && t.rela + 24 * |es| <= |image| && es == EntriesOf(image, t, |es|)
  }

  ghost predicate GoodDyns(image: Bytes, t: Tables, tables: set<nat>, dyn: nat, ds: seq<Dyn>) {
    (forall i: nat :: i <= |ds| ==> DynInTables(image, t, tables, dyn, i))
    && dyn + 16 * |ds| + 16 <= |image| && ds == DynsOf(image, t, dyn, |ds|)
    && DynAt(image, t, dyn, |ds|).tag == DT_NULL
    && (forall i: nat :: i < |ds| ==> ds[i].tag != DT_NULL)
  }

  /** `tables` are the addresses that hold tables; no relocated slot is among them. */
  ghost predicate WellFormed(image: Bytes, tables: set<nat>, dyn: nat, n: nat, lay: Layout) {
    Terminated(image, dyn, n)
    && var t := TablesOf(image, dyn, n);
       t.rela + 24 * Count(t) <= |image|
       && GoodEntries(image, t, tables, EntriesOf(image, t, Count(t)))
       && GoodDyns(image, t, tables, dyn, DynsOf(image, t, dyn, n))
       && GoodPointers(image, tables, EntriesOf(image, t, Count(t)), lay)
  }

  // ----- the pointer tables -----

  /** Where the search path and the table of system modules are in the image: an array
      of pointers, and an array of pointers with handles. */
  datatype Layout = Layout(paths: nat, pathCount: nat, modules: nat, moduleCount: nat)
  {
    function Path(i: nat): nat {
      paths + 8 * i
    }

    function Name(j: nat): nat {
      modules + 16 * j
    }
  }

  /** A pointer that can be followed: it holds an address inside the image. */
  predicate Points(image: Bytes, base: nat, at: nat) {
    at + 8 <= |image| && base <= U64(image, at) < base + |image|
  }

  predicate AllPoint(image: Bytes, base: nat, lay: Layout) {
    (forall i: nat :: i < lay.pathCount ==> Points(image, base, lay.Path(i)))
    && (forall j: nat :: j < lay.moduleCount ==> Points(image, base, lay.Name(j)) && lay.Name(j) + 12 <= |image|)
  }

  function TextAt(image: Bytes, base: nat, at: nat): Bytes
    requires Points(image, base, at)
  {
    CString(image, U64(image, at) - base)
  }

  /** The two tables as the code reads them through the pointers. */
  function Live(image: Bytes, base: nat, lay: Layout, calls: Calls): System
    requires AllPoint(image, base, lay)
  {
    System(seq(lay.pathCount, i requires 0 <= i < lay.pathCount => TextAt(image, base, lay.Path(i))),
           seq(lay.moduleCount, j requires 0 <= j < lay.moduleCount =>
                 Module(TextAt(image, base, lay.Name(j)), U32(image, lay.Name(j) + 8))),
           calls)
  }

  /** The addend of the last RELATIVE entry for a slot: where its pointer goes. */
  function AddendFor(es: seq<Entry>, at: nat, i: nat): nat
    requires i <= |es|
  {
    if i == 0 then 0
    else if es[i - 1].IsRelative() && es[i - 1].offset == at then es[i - 1].addend
    else AddendFor(es, at, i - 1)
  }

  /** The two tables as the relocation entries describe them. */
  function Linked(image: Bytes, es: seq<Entry>, lay: Layout, calls: Calls): System {
    System(seq(lay.pathCount, i requires 0 <= i => CString(image, AddendFor(es, lay.Path(i), |es|))),
           seq(lay.moduleCount, j requires 0 <= j =>
                 Module(CString(image, AddendFor(es, lay.Name(j), |es|)),
                        if lay.Name(j) + 12 <= |image| then U32(image, lay.Name(j) + 8) else 0)),
           calls)
  }

  /** A RELATIVE entry puts the pointer in, and no later one overlaps it. */
  ghost predicate GoodPointer(image: Bytes, tables: set<nat>, es: seq<Entry>, at: nat, k: nat) {
    k < |es| && es[k].IsRelative() && es[k].offset == at && GoodString(image, tables, es[k].addend)
    && forall j: nat :: k < j < |es| && es[j].IsRelative() ==> Disjoint(es[j], at, 8)
  }

  ghost predicate GoodPointers(image: Bytes, tables: set<nat>, es: seq<Entry>, lay: Layout) {
    (forall i: nat :: i < lay.pathCount ==> exists k: nat :: GoodPointer(image, tables, es, lay.Path(i), k))
    && (forall j: nat :: j < lay.moduleCount ==>
          (exists k: nat :: GoodPointer(image, tables, es, lay.Name(j), k))
          && lay.Name(j) + 12 <= |image| && Within(tables, lay.Name(j) + 8, 4))
  }

  lemma {:induction false} GoodSlotsInside(image: Bytes, t: Tables, tables: set<nat>, es: seq<Entry>)
    requires GoodEntries(image, t, tables, es)
    ensures SlotsInside(es, |image|)
  {
    forall k: nat | k < |es| && es[k].IsRelocated() ensures es[k].offset + 8 <= |image| {
      assert GoodSlot(es[k], |image|, tables);
    }
  }

  lemma {:induction false} AddendIs(es: seq<Entry>, at: nat, i: nat, k: nat)
    requires k < i <= |es| && es[k].IsRelative() && es[k].offset == at
    requires forall j: nat :: k < j < i && es[j].IsRelative() ==> Disjoint(es[j], at, 8)
    ensures AddendFor(es, at, i) == es[k].addend
  {
    if k < i - 1 { AddendIs(es, at, i - 1, k); }
  }

  /** After the first pass a pointer leads to the text that its entry names. */
  lemma {:induction false} PointerRelocated(image: Bytes, tables: set<nat>, es: seq<Entry>, base: nat, at: nat, k: nat)
    requires SlotsInside(es, |image|) && base + |image| <= TWO64 && GoodPointer(image, tables, es, at, k)
    requires SameTables(tables, image, Pass(image, es, RelativeWriter(base), |es|))
    ensures var mid := Pass(image, es, RelativeWriter(base), |es|);
            PointsTo(mid, base, at, CString(image, AddendFor(es, at, |es|)))
  {
    var mid, addend := Pass(image, es, RelativeWriter(base), |es|), es[k].addend;
    AddendIs(es, at, |es|, k);
    LastWord(image, es, RelativeWriter(base), k, base + addend);
    SameCString(tables, image, mid, addend);
  }

  /** The slot that no later store of a pass touches reads as its word. */
  lemma {:induction false} LastWord(image: Bytes, es: seq<Entry>, w: Writer, k: nat, word: nat)
    requires k < |es| && SlotsInside(es, |image|) && OwnSlots(w) && w(es[k]) == Some(Patch(es[k].offset, word))
    requires forall j: nat :: k < j < |es| && w(es[j]).Some? ==> Disjoint(es[j], es[k].offset, 8)
    ensures |Pass(image, es, w, |es|)| == |image| && es[k].offset + 8 <= |image|
    ensures U64(Pass(image, es, w, |es|), es[k].offset) == word % TWO64
  {
    PassWrites(image, es, w, |es|, k);
    StoredWord(Pass(image, es, w, |es|), es[k].offset, word);
  }

  /** The word that a 64-bit load reads back. */
  lemma {:induction false} StoredWord(image: Bytes, at: nat, word: nat)
    requires Holds(image, at, LE(word, 8))
    ensures U64(image, at) == word % TWO64
  {
    ReadWriteLE(word, 8);
    Pow256Values();
  }

  /** The order of the steps: after the first pass the tables can be read, and read as
      the entries describe them. */
  lemma {:induction false} TablesReady(image: Bytes, t: Tables, tables: set<nat>, es: seq<Entry>, base: nat,
                                       lay: Layout, calls: Calls)
    requires GoodEntries(image, t, tables, es) && GoodPointers(image, tables, es, lay) && base + |image| <= TWO64
    requires SameTables(tables, image, Pass(image, es, RelativeWriter(base), |es|))
    ensures var mid := Pass(image, es, RelativeWriter(base), |es|);
            AllPoint(mid, base, lay) && Live(mid, base, lay, calls) == Linked(image, es, lay, calls)
  {
    var mid := Pass(image, es, RelativeWriter(base), |es|);
    GoodSlotsInside(image, t, tables, es);
    PathsReady(image, tables, es, base, lay);
    NamesReady(image, tables, es, base, lay);
    SameTexts(image, mid, es, base, lay, calls);
  }

  lemma {:induction false} PathsReady(image: Bytes, tables: set<nat>, es: seq<Entry>, base: nat, lay: Layout)
    requires SlotsInside(es, |image|) && GoodPointers(image, tables, es, lay) && base + |image| <= TWO64
    requires SameTables(tables, image, Pass(image, es, RelativeWriter(base), |es|))
    ensures forall i: nat :: i < lay.pathCount ==>
              PointsTo(Pass(image, es, RelativeWriter(base), |es|), base, lay.Path(i),
                       CString(image, AddendFor(es, lay.Path(i), |es|)))
  {
    forall i: nat | i < lay.pathCount
      ensures PointsTo(Pass(image, es, RelativeWriter(base), |es|), base, lay.Path(i),
                       CString(image, AddendFor(es, lay.Path(i), |es|)))
    {
      var k: nat :| GoodPointer(image, tables, es, lay.Path(i), k);
      PointerRelocated(image, tables, es, base, lay.Path(i), k);
    }
  }

  lemma {:induction false} NamesReady(image: Bytes, tables: set<nat>, es: seq<Entry>, base: nat, lay: Layout)
    requires SlotsInside(es, |image|) && GoodPointers(image, tables, es, lay) && base + |image| <= TWO64
    requires SameTables(tables, image, Pass(image, es, RelativeWriter(base), |es|))
    ensures forall j: nat :: j < lay.moduleCount ==>
              PointsTo(Pass(image, es, RelativeWriter(base), |es|), base, lay.Name(j),
                       CString(image, AddendFor(es, lay.Name(j), |es|)))
              && lay.Name(j) + 12 <= |image|
              && U32(Pass(image, es, RelativeWriter(base), |es|), lay.Name(j) + 8) == U32(image, lay.Name(j) + 8)
  {
    var mid := Pass(image, es, RelativeWriter(base), |es|);
    forall j: nat | j < lay.moduleCount
      ensures PointsTo(mid, base, lay.Name(j), CString(image, AddendFor(es, lay.Name(j), |es|)))
      ensures lay.Name(j) + 12 <= |image| && U32(mid, lay.Name(j) + 8) == U32(image, lay.Name(j) + 8)
    {
      var k: nat :| GoodPointer(image, tables, es, lay.Name(j), k);
      PointerRelocated(image, tables, es, base, lay.Name(j), k);
      SameU32(tables, image, mid, lay.Name(j) + 8);
    }
  }

  /** `sys` is what the code reads. The trigger keeps the texts out of proofs that do not
      mention them. */
  ghost predicate Serves(image: Bytes, base: nat, lay: Layout, calls: Calls, sys: System) {
    && AllPoint(image, base, lay)
    && (forall b: nat {:trigger Live(image, b, lay, calls)} :: b == base ==> Live(image, b, lay, calls) == sys)
  }

  /** ... and what the relocation entries describe. */
  ghost predicate LinkedAs(image: Bytes, es: seq<Entry>, lay: Layout, calls: Calls, sys: System) {
    forall b: Bytes {:trigger Linked(b, es, lay, calls)} :: b == image ==> Linked(b, es, lay, calls) == sys
  }

  lemma {:induction false} TablesServe(image: Bytes, t: Tables, tables: set<nat>, es: seq<Entry>, base: nat,
                                       lay: Layout,
                                       calls: Calls, sys: System)
    requires GoodEntries(image, t, tables, es) && GoodPointers(image, tables, es, lay) && base + |image| <= TWO64
    requires SameTables(tables, image, Pass(image, es, RelativeWriter(base), |es|))
    requires LinkedAs(image, es, lay, calls, sys)
    ensures Serves(Pass(image, es, RelativeWriter(base), |es|), base, lay, calls, sys)
  {
    TablesReady(image, t, tables, es, base, lay, calls);
  }

  predicate PointsTo(image: Bytes, base: nat, at: nat, text: Bytes) {
    Points(image, base, at) && TextAt(image, base, at) == text
  }

  lemma {:induction false} SameTexts(image: Bytes, mid: Bytes, es: seq<Entry>, base: nat, lay: Layout, calls: Calls)
    requires |mid| == |image|
    requires forall i: nat :: i < lay.pathCount ==>
               PointsTo(mid, base, lay.Path(i), CString(image, AddendFor(es, lay.Path(i), |es|)))
    requires forall j: nat :: j < lay.moduleCount ==>
               PointsTo(mid, base, lay.Name(j), CString(image, AddendFor(es, lay.Name(j), |es|)))
               && lay.Name(j) + 12 <= |image| && U32(mid, lay.Name(j) + 8) == U32(image, lay.Name(j) + 8)
    ensures AllPoint(mid, base, lay) && Live(mid, base, lay, calls) == Linked(image, es, lay, calls)
  {
    var live, linked := Live(mid, base, lay, calls), Linked(image, es, lay, calls);
    assert live.search == linked.search;
    assert live.modules == linked.modules;
  }

  /** Before it they cannot: a pointer that still holds its link-time position is below
      every load address behind the image's size. */
  lemma {:induction false} TablesNotReady(image: Bytes, base: nat, lay: Layout, i: nat)
    requires i < lay.pathCount && lay.Path(i) + 8 <= |image| && U64(image, lay.Path(i)) < |image| <= base
    ensures !AllPoint(image, base, lay)
  {
    assert !Points(image, base, lay.Path(i));
  }

  lemma {:induction false} SameRela(tables: set<nat>, a: Bytes, b: Bytes, t: Tables, i: nat)
    requires SameTables(tables, a, b) && t.rela + 24 * i + 24 <= |a| && Within(tables, t.rela + 24 * i, 24)
    ensures RelaAt(b, t, i) == RelaAt(a, t, i)
  {
    var at := t.rela + 24 * i;
    SameU64(tables, a, b, at);
    SameU32(tables, a, b, at + 8);
    SameU32(tables, a, b, at + 12);
    SameU64(tables, a, b, at + 16);
  }

  /** An entry reads the same in every image with the same tables. */
  lemma {:induction false} SameEntry(tables: set<nat>, a: Bytes, b: Bytes, t: Tables, i: nat)
    requires SameTables(tables, a, b) && EntryInTables(a, t, tables, i)
    ensures t.rela + 24 * i + 24 <= |b| && EntryAt(b, t, i) == EntryAt(a, t, i)
    ensures var r := RelaAt(b, t, i); IsSymbolKind(r.kind) ==> SymAt(t, r) + 4 <= |b|
  {
    SameRela(tables, a, b, t, i);
    var r := RelaAt(a, t, i);
    if IsSymbolKind(r.kind) {
      SameU32(tables, a, b, SymAt(t, r));
      SameCString(tables, a, b, t.strtab + U32(a, SymAt(t, r)));
    }
  }

  lemma {:induction false} SameDyn(tables: set<nat>, a: Bytes, b: Bytes, t: Tables, dyn: nat, i: nat)
    requires SameTables(tables, a, b) && DynInTables(a, t, tables, dyn, i)
    ensures dyn + 16 * i + 16 <= |b| && DynAt(b, t, dyn, i) == DynAt(a, t, dyn, i)
  {
    var at := dyn + 16 * i;
    SameU64(tables, a, b, at);
    SameU64(tables, a, b, at + 8);
    if TagAt(a, dyn, i) == DT_NEEDED {
      SameCString(tables, a, b, t.strtab + ValueAt(a, dyn, i));
    }
  }

  lemma {:induction false} SlotKeepsTables(tables: set<nat>, a: Bytes, b: Bytes, at: nat, word: nat)
    requires SameTables(tables, a, b) && at + 8 <= |a|
    requires forall x: nat :: at <= x < at + 8 ==> x !in tables
    ensures SameTables(tables, a, WriteAt(b, at, LE(word, 8)))
  {
  }

  // ----- what the passes write -----

  /** The symbol's address in the first library of the list that exports it. */
  function Resolve(calls: Calls, libs: seq<int>, name: Bytes): nat {
    if libs == [] then 0
    else
      var v := calls.dlsym(libs[0], name);
      if v != 0 then v else Resolve(calls, libs[1..], name)
  }

  /** The second pass: the address of the symbol. */
  function SymbolWriter(calls: Calls, libs: seq<int>): Writer {
    (e: Entry) => if e.IsSymbol() then Some(Patch(e.offset, Resolve(calls, libs, e.name))) else None
  }

  /** How many of the first `i` entries name a symbol that no library exports. */
  function Unresolved(es: seq<Entry>, calls: Calls, libs: seq<int>, i: nat): nat
    requires i <= |es|
  {
    if i == 0 then 0
    else
      Unresolved(es, calls, libs, i - 1)
      + if es[i - 1].IsSymbol() && Resolve(calls, libs, es[i - 1].name) == 0 then 1 else 0
  }

  function AllPatches(es: seq<Entry>, base: nat, calls: Calls, libs: seq<int>): seq<Patch> {
    Patches(es, RelativeWriter(base), |es|) + Patches(es, SymbolWriter(calls, libs), |es|)
  }

  /** The DT_NEEDED names of the first `i` dynamic entries. */
  function NeededNames(ds: seq<Dyn>, i: nat): seq<Bytes>
    requires i <= |ds|
  {
    if i == 0 then []
    else Also(NeededNames(ds, i - 1), ds[i - 1].Needed())
  }

  /** Each library that opens is put before the ones already there. */
  function Pushed(sys: System, ready: bool, names: seq<Bytes>, libs: seq<int>): seq<int>
    decreases |names|
  {
    if names == [] then libs
    else
      var later := Pushed(sys, ready, names[..|names| - 1], libs);
      var h := Opened(sys, ready, Stem(names[|names| - 1]));
      if h.None? then later else [h.value] + later
  }

  lemma {:induction false} PushedMore(sys: System, ready: bool, names: seq<Bytes>, name: Bytes, libs: seq<int>)
    ensures var h, later := Opened(sys, ready, Stem(name)), Pushed(sys, ready, names, libs);
            Pushed(sys, ready, names + [name], libs) == if h.None? then later else [h.value] + later
  {
    assert (names + [name])[..|names|] == names;
  }

  function SysmoduleName(): Bytes {
    Ascii("libSceSysmodule.so")
  }

  function Sysmodule(sys: System): Option<int> {
    Opened(sys, false, Stem(SysmoduleName()))
  }

  /** The system module loader was found. */
  function Ready(sys: System): bool {
    Sysmodule(sys).Some? && sys.calls.dlsym(Sysmodule(sys).value, Ascii("sceSysmoduleLoadModuleInternal")) != 0
  }

  function FirstLibraries(sys: System): seq<int> {
    if Sysmodule(sys).Some? then [Sysmodule(sys).value] else []
  }

  function AllLibraries(sys: System, ds: seq<Dyn>): seq<int> {
    Pushed(sys, Ready(sys), NeededNames(ds, |ds|), FirstLibraries(sys))
  }

  class Loader {
    const base: nat
    const lay: Layout
    const calls: Calls
    var image: Bytes
    var libs: seq<int>
    var ready: bool
    var nullSyms: nat

    constructor (base: nat, lay: Layout, calls: Calls, image: Bytes)
      ensures this.base == base && this.lay == lay && this.calls == calls && this.image == image
      ensures libs == [] && !ready && nullSyms == 0
    {
      this.base, this.lay, this.calls, this.image := base, lay, calls, image;
      libs, ready, nullSyms := [], false, 0;
    }

    /** `write_got` */
    method WriteGot(loc: nat, val: nat)
      requires loc + 8 <= |image|
      modifies `image
      ensures image == WriteAt(old(image), loc, LE(val, 8))
    {
      image := WriteAt(image, loc, LE(val, 8));
    }

    /** `r_relative` */
    method RRelative(r: Rela)
      requires r.offset + 8 <= |image|
      modifies `image
      ensures image == WriteAt(old(image), r.offset, LE(base + r.addend, 8))
    {
      WriteGot(r.offset, base + r.addend);
    }

    /** The search of `r_glob_dat` through the list of libraries. */
    method FindSymbol(name: Bytes) returns (val: nat)
      ensures val == Resolve(calls, libs, name)
    {
      val := 0;
      for i := 0 to |libs|
        invariant Resolve(calls, libs, name) == Resolve(calls, libs[i..], name)
      {
        val := calls.dlsym(libs[i], name);
        if val != 0 {
          return;
        }
      }
      val := 0;
    }

    /** `r_glob_dat` and `r_jmp_slot` */
    method RGlobDat(t: Tables, r: Rela)
      requires r.offset + 8 <= |image| && SymAt(t, r) + 4 <= |image|
      modifies `image, `nullSyms
      ensures var val := Resolve(calls, libs, NameOf(old(image), t, r));
              image == WriteAt(old(image), r.offset, LE(val, 8))
              && nullSyms == old(nullSyms) + if val == 0 then 1 else 0
    {
      var name := CString(image, t.strtab + U32(image, SymAt(t, r)));
      var val := FindSymbol(name);
      if val != 0 {
        WriteGot(r.offset, val);
        return;
      }
      WriteGot(r.offset, 0);
      nullSyms := nullSyms + 1;
    }

    /** `dt_needed`. The search path and the module table are read through their pointers
        at the time of the call. */
    method DtNeeded(basename: Bytes, ghost sys: System, ghost names: seq<Bytes>, ghost first: seq<int>)
      requires Serves(image, base, lay, calls, sys) && libs == Pushed(sys, ready, names, first)
      modifies `libs
      ensures libs == Pushed(sys, ready, names + [basename], first)
    {
      PushedMore(sys, ready, names, basename, first);
      var lib := RtldOpen(Live(image, base, lay, calls), ready, basename);
      if lib.Some? {
        libs := [lib.value] + libs;
      }
    }

    /** Step 1: the tables named by the dynamic section. */
    method FindTables(dyn: nat, ghost n: nat) returns (t: Tables)
      requires Terminated(image, dyn, n)
      ensures t == TablesOf(image, dyn, n)
    {
      t := Tables(0, 0, 0, 0);
      var i := 0;
      while TagAt(image, dyn, i) != DT_NULL
        invariant i <= n && t == TablesOf(image, dyn, i)
        decreases n - i
      {
        var tag, v := TagAt(image, dyn, i), ValueAt(image, dyn, i);
        if tag == DT_SYMTAB {
          t := t.(symtab := v);
        } else if tag == DT_STRTAB {
          t := t.(strtab := v);
        } else if tag == DT_RELA {
          t := t.(rela := v);
        } else if tag == DT_RELASZ {
          t := t.(relasz := v);
        }
        i := i + 1;
      }
    }

    /** Step 2: the RELATIVE entries. */
    method RelocateRelative(t: Tables, ghost tables: set<nat>, ghost es: seq<Entry>)
      requires GoodEntries(image, t, tables, es) && |es| == Count(t)
      modifies `image
      ensures image == Apply(old(image), Patches(es, RelativeWriter(base), |es|))
      ensures SameTables(tables, old(image), image)
    {
      ghost var start := image;
      for i := 0 to Count(t)
        invariant image == Apply(start, Patches(es, RelativeWriter(base), i))
        invariant SameTables(tables, start, image)
      {
        assert EntryInTables(start, t, tables, i) && GoodSlot(es[i], |start|, tables);
        RelocateOne(t, i, tables, start, Patches(es, RelativeWriter(base), i));
      }
    }

    /** One round of the first pass. */
    method RelocateOne(t: Tables, i: nat, ghost tables: set<nat>, ghost start: Bytes, ghost ps: seq<Patch>)
      requires SameTables(tables, start, image) && image == Apply(start, ps)
      requires EntryInTables(start, t, tables, i) && GoodSlot(EntryAt(start, t, i), |start|, tables)
      modifies `image
      ensures SameTables(tables, start, image)
      ensures var e := EntryAt(start, t, i);
              image == Apply(start, Also(ps, RelativeWriter(base)(e)))
    {
      SameRela(tables, start, image, t, i);
      var r := RelaAt(image, t, i);
      ghost var p := Patch(r.offset, base + r.addend);
      assert RelativeWriter(base)(EntryAt(start, t, i)) == if r.kind == R_RELATIVE then Some(p) else None;
      if r.kind == R_RELATIVE {
        SlotKeepsTables(tables, start, image, p.at, p.word);
        ApplyMore(start, ps, p);
        RRelative(r);
        assert image == Apply(start, ps + [p]);
      }
    }

    /** Step 3: the library of system modules, and its loader. */
    method OpenSysmodule(ghost sys: System)
      requires Serves(image, base, lay, calls, sys) && !ready
      modifies `libs, `ready
      ensures libs == FirstLibraries(sys) && ready == Ready(sys)
    {
      var first := RtldOpen(Live(image, base, lay, calls), ready, SysmoduleName());
      libs := if first.Some? then [first.value] else [];
      if first.Some? {
        ready := calls.dlsym(first.value, Ascii("sceSysmoduleLoadModuleInternal")) != 0;
      }
    }

    /** Dynamic entry `i`, one of the entries `all` of the section. */
    method ReadDyn(t: Tables, dyn: nat, i: nat, ghost all: seq<Dyn>) returns (d: Dyn)
      requires ReadsAs(image, t, dyn, all) && i < |all|
      ensures d == all[i]
    {
      assert DynAt(image, t, dyn, i) == all[i];
      var tag := TagAt(image, dyn, i);
      d := Dyn(tag, if tag == DT_NEEDED then CString(image, t.strtab + ValueAt(image, dyn, i)) else []);
    }

    /** Step 4: the needed libraries, in the order of the dynamic section. */
    method LoadNeeded(t: Tables, dyn: nat, ghost sys: System, ghost ds: seq<Dyn>, ghost all: seq<Dyn>)
      requires Serves(image, base, lay, calls, sys) && ReadsAs(image, t, dyn, all) && Ended(ds, all)
      modifies `libs
      ensures libs == Pushed(sys, ready, NeededNames(ds, |ds|), old(libs))
    {
      ghost var first := libs;
      var i := 0;
      var d := ReadDyn(t, dyn, i, all);
      while d.tag != DT_NULL
        invariant i <= |ds| && d == all[i]
        invariant libs == Pushed(sys, ready, NeededNames(ds, i), first)
        decreases |ds| - i
      {
        d := LoadNext(t, dyn, i, d, sys, ds, all, first);
        i := i + 1;
      }
    }

    /** One turn of the loop: entry `i` is loaded if it is needed, and the next one read. */
    method LoadNext(t: Tables, dyn: nat, i: nat, d: Dyn, ghost sys: System, ghost ds: seq<Dyn>, ghost all: seq<Dyn>,
                    ghost first: seq<int>)
      returns (next: Dyn)
      requires Serves(image, base, lay, calls, sys) && ReadsAs(image, t, dyn, all) && Ended(ds, all)
      requires i < |ds| && d == ds[i] && libs == Pushed(sys, ready, NeededNames(ds, i), first)
      modifies `libs
      ensures next == all[i + 1] && libs == Pushed(sys, ready, NeededNames(ds, i + 1), first)
    {
      LoadOne(d.Needed(), sys, ds, i, first);
      next := ReadDyn(t, dyn, i + 1, all);
    }

    method LoadOne(name: Option<Bytes>, ghost sys: System, ghost ds: seq<Dyn>, ghost i: nat, ghost first: seq<int>)
      requires Serves(image, base, lay, calls, sys) && i < |ds| && name == ds[i].Needed()
      requires libs == Pushed(sys, ready, NeededNames(ds, i), first)
      modifies `libs
      ensures libs == Pushed(sys, ready, NeededNames(ds, i + 1), first)
    {
      if name.Some? {
        assert NeededNames(ds, i + 1) == NeededNames(ds, i) + [name.value];
        DtNeeded(name.value, sys, NeededNames(ds, i), first);
      } else {
        assert NeededNames(ds, i + 1) == NeededNames(ds, i);
      }
    }

    /** Steps 3 and 4. */
    method LoadLibraries(t: Tables, dyn: nat, ghost sys: System, ghost tables: set<nat>, ghost start: Bytes,
                         ghost ds: seq<Dyn>)
      requires Serves(image, base, lay, calls, sys)
      requires GoodDyns(start, t, tables, dyn, ds)
      requires SameTables(tables, start, image) && !ready
      modifies `libs, `ready
      ensures libs == AllLibraries(sys, ds)
    {
      ghost var all := DynsOf(start, t, dyn, |ds| + 1);
      SameDyns(tables, start, image, t, dyn, ds, all);
      OpenSysmodule(sys);
      LoadNeeded(t, dyn, sys, ds, all);
    }

    /** Step 5: the symbolic entries. */
    method BindSymbols(t: Tables, ghost tables: set<nat>, ghost start: Bytes, ghost es: seq<Entry>,
                       ghost done: seq<Patch>)
      requires GoodEntries(start, t, tables, es) && |es| == Count(t)
      requires SameTables(tables, start, image) && image == Apply(start, done)
      modifies `image, `nullSyms
      ensures image == Apply(start, done + Patches(es, SymbolWriter(calls, libs), |es|))
      ensures nullSyms == old(nullSyms) + Unresolved(es, calls, libs, |es|)
      ensures SameTables(tables, start, image)
    {
      ghost var before := nullSyms;
      assert done + [] == done;
      for i := 0 to Count(t)
        invariant SameTables(tables, start, image)
        invariant image == Apply(start, done + Patches(es, SymbolWriter(calls, libs), i))
        invariant nullSyms == before + Unresolved(es, calls, libs, i)
      {
        BindNext(t, i, tables, start, es, done, before);
      }
    }

    method BindNext(t: Tables, i: nat, ghost tables: set<nat>, ghost start: Bytes, ghost es: seq<Entry>,
                    ghost done: seq<Patch>, ghost before: nat)
      requires GoodEntries(start, t, tables, es) && i < |es| && SameTables(tables, start, image)
      requires image == Apply(start, done + Patches(es, SymbolWriter(calls, libs), i))
      requires nullSyms == before + Unresolved(es, calls, libs, i)
      modifies `image, `nullSyms
      ensures SameTables(tables, start, image)
      ensures image == Apply(start, done + Patches(es, SymbolWriter(calls, libs), i + 1))
      ensures nullSyms == before + Unresolved(es, calls, libs, i + 1)
    {
      assert EntryInTables(start, t, tables, i) && GoodSlot(es[i], |start|, tables);
      ghost var ps := Patches(es, SymbolWriter(calls, libs), i);
      BindOne(t, i, tables, start, done + ps);
      Assoc(done, ps, [Patch(es[i].offset, Resolve(calls, libs, es[i].name))]);
    }

    /** One round of the second pass. */
    method BindOne(t: Tables, i: nat, ghost tables: set<nat>, ghost start: Bytes, ghost ps: seq<Patch>)
      requires SameTables(tables, start, image) && image == Apply(start, ps)
      requires EntryInTables(start, t, tables, i) && GoodSlot(EntryAt(start, t, i), |start|, tables)
      modifies `image, `nullSyms
      ensures SameTables(tables, start, image)
      ensures var e := EntryAt(start, t, i);
              image == Apply(start, Also(ps, SymbolWriter(calls, libs)(e)))
              && nullSyms == old(nullSyms) + if e.IsSymbol() && Resolve(calls, libs, e.name) == 0 then 1 else 0
    {
      SameEntry(tables, start, image, t, i);
      var r := RelaAt(image, t, i);
      ghost var e := EntryAt(start, t, i);
      if r.kind == R_GLOB_DAT || r.kind == R_JMP_SLOT {
        assert e.name == NameOf(image, t, r) && e.offset == r.offset;
        SlotKeepsTables(tables, start, image, r.offset, Resolve(calls, libs, e.name));
        ghost var p := Patch(e.offset, Resolve(calls, libs, e.name));
        ApplyMore(start, ps, p);
        RGlobDat(t, r);
        assert image == Apply(start, ps + [p]);
      }
    }

    /** `rtld_load` */
    method RtldLoad(dyn: nat, ghost n: nat, ghost tables: set<nat>)
      requires WellFormed(image, tables, dyn, n, lay) && base + |image| <= TWO64 && !ready
      modifies this
      ensures var t := TablesOf(old(image), dyn, n);
              var es, ds := EntriesOf(old(image), t, Count(t)), DynsOf(old(image), t, dyn, n);
              libs == AllLibraries(Linked(old(image), es, lay, calls), ds)
              && image == Apply(old(image), AllPatches(es, base, calls, libs))
              && nullSyms == old(nullSyms) + Unresolved(es, calls, libs, |es|)
      ensures SameTables(tables, old(image), image)
    {
      var t := FindTables(dyn, n);
      ghost var es, ds := EntriesOf(image, t, Count(t)), DynsOf(image, t, dyn, n);
      RunPasses(t, dyn, Linked(image, es, lay, calls), tables, es, ds);
    }

    /** Steps 2 to 4. */
    method RelocateAndLoad(t: Tables, dyn: nat, ghost sys: System, ghost tables: set<nat>, ghost es: seq<Entry>,
                           ghost ds: seq<Dyn>)
      requires GoodEntries(image, t, tables, es) && |es| == Count(t) && GoodPointers(image, tables, es, lay)
      requires GoodDyns(image, t, tables, dyn, ds) && base + |image| <= TWO64 && !ready
      requires LinkedAs(image, es, lay, calls, sys)
      modifies `image, `libs, `ready
      ensures libs == AllLibraries(sys, ds)
      ensures image == Apply(old(image), Patches(es, RelativeWriter(base), |es|))
      ensures SameTables(tables, old(image), image)
    {
      ghost var start := image;
      RelocateRelative(t, tables, es);
      TablesServe(start, t, tables, es, base, lay, calls, sys);
      LoadLibraries(t, dyn, sys, tables, start, ds);
    }

    /** Steps 2 to 5. */
    method RunPasses(t: Tables, dyn: nat, ghost sys: System, ghost tables: set<nat>, ghost es: seq<Entry>,
                     ghost ds: seq<Dyn>)
      requires GoodEntries(image, t, tables, es) && |es| == Count(t) && GoodPointers(image, tables, es, lay)
      requires GoodDyns(image, t, tables, dyn, ds) && base + |image| <= TWO64 && !ready
      requires LinkedAs(image, es, lay, calls, sys)
      modifies this
      ensures libs == AllLibraries(sys, ds)
      ensures image == Apply(old(image), AllPatches(es, base, calls, libs))
      ensures nullSyms == old(nullSyms) + Unresolved(es, calls, libs, |es|)
      ensures SameTables(tables, old(image), image)
    {
      ghost var start := image;
      RelocateAndLoad(t, dyn, sys, tables, es, ds);
      BindSymbols(t, tables, start, es, Patches(es, RelativeWriter(base), |es|));
    }
  }

  lemma {:induction false} SameDyns(tables: set<nat>, a: Bytes, b: Bytes, t: Tables, dyn: nat, ds: seq<Dyn>,
                                    all: seq<Dyn>)
    requires SameTables(tables, a, b) && GoodDyns(a, t, tables, dyn, ds)
    requires all == DynsOf(a, t, dyn, |ds| + 1)
    ensures ReadsAs(b, t, dyn, all) && Ended(ds, all)
  {
    forall i: nat | i < |all| ensures dyn + 16 * i + 16 <= |b| && DynAt(b, t, dyn, i) == all[i] {
      assert DynInTables(a, t, tables, dyn, i);
      SameDyn(tables, a, b, t, dyn, i);
    }
    assert all[|ds|] == DynAt(a, t, dyn, |ds|);
  }
}
