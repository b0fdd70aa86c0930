/**
 * The tables that the loader finds, word by word: the dynamic section, the relocation
 * entries and the symbols, as the System V ABI for AMD64 lays them out.
 */
module RtldImage {
  import opened Words
  import opened ByteFile
  import opened RawBytes
  import opened Rtld
  import opened RtldPass
  import opened RtldLoad

  /** Dynamic entries are 16 bytes: a tag and a value. */
  function DynTag(image: Bytes, dyn: nat, i: nat): nat
    requires dyn + 16 * i + 16 <= |image|
  {
    U64(image, dyn + 16 * i)
  }

  function DynValue(image: Bytes, dyn: nat, i: nat): nat
    requires dyn + 16 * i + 16 <= |image|
  {
    U64(image, dyn + 16 * i + 8)
  }

  /** The value of the last dynamic entry with the tag; 0 when there is none. */
  ghost predicate LastValue(image: Bytes, dyn: nat, n: nat, tag: nat, v: nat)
    requires dyn + 16 * n <= |image|
  {
    || (exists k: nat :: k < n && DynTag(image, dyn, k) == tag && v == DynValue(image, dyn, k)
                         && forall j: nat :: k < j < n ==> DynTag(image, dyn, j) != tag)
    || (v == 0 && forall j: nat :: j < n ==> DynTag(image, dyn, j) != tag)
  }

  lemma {:induction false} LastValueMore(image: Bytes, dyn: nat, n: nat, tag: nat, v: nat)
    requires n > 0 && dyn + 16 * n <= |image|
    requires if DynTag(image, dyn, n - 1) == tag then v == DynValue(image, dyn, n - 1)
             else LastValue(image, dyn, n - 1, tag, v)
    ensures LastValue(image, dyn, n, tag, v)
  {
    if DynTag(image, dyn, n - 1) != tag {
      if k: nat :| k < n - 1 && DynTag(image, dyn, k) == tag && v == DynValue(image, dyn, k)
                   && forall j: nat :: k < j < n - 1 ==> DynTag(image, dyn, j) != tag {
        assert forall j: nat :: k < j < n ==> DynTag(image, dyn, j) != tag;
      }
    }
  }

  /** The tables are where the last entries with the tags 5, 6, 7 and 8 say, and the
      relocation table has the whole entries that fit its size. */
  lemma {:induction false} TablesAre(image: Bytes, dyn: nat, n: nat)
    requires dyn + 16 * n <= |image|
    ensures var t := TablesOf(image, dyn, n);
            && LastValue(image, dyn, n, 5, t.strtab) && LastValue(image, dyn, n, 6, t.symtab)
            && LastValue(image, dyn, n, 7, t.rela) && LastValue(image, dyn, n, 8, t.relasz)
            && if t.relasz < 0x8000_0000_0000_0000 then 24 * Count(t) <= t.relasz < 24 * Count(t) + 24
               else Count(t) == 0
  {
    if n > 0 {
      TablesAre(image, dyn, n - 1);
      var t := TablesOf(image, dyn, n);
      LastValueMore(image, dyn, n, 5, t.strtab);
      LastValueMore(image, dyn, n, 6, t.symtab);
      LastValueMore(image, dyn, n, 7, t.rela);
      LastValueMore(image, dyn, n, 8, t.relasz);
    }
  }

  /** The section ends at its first entry with tag 0. */
  lemma {:induction false} TerminatorIs(image: Bytes, dyn: nat, n: nat)
    ensures Terminated(image, dyn, n) <==>
            dyn + 16 * n + 16 <= |image| && DynTag(image, dyn, n) == 0
            && forall i: nat :: i < n ==> DynTag(image, dyn, i) != 0
  {
    if dyn + 16 * n + 16 <= |image| {
      assert forall i: nat :: i < n ==> DynTag(image, dyn, i) == TagAt(image, dyn, i);
    }
  }

  /** A relocation entry is 24 bytes: offset, kind, symbol, addend. Its name is that of
      the symbol, whose 24 bytes start with the place of the name in the string table. */
  ghost predicate EntryReads(image: Bytes, t: Tables, i: nat, e: Entry)
    requires t.rela + 24 * i + 24 <= |image|
  {
    var at := t.rela + 24 * i;
    var sym := t.symtab + 24 * U32(image, at + 12);
    && e.offset == U64(image, at) && e.kind == U32(image, at + 8) && e.addend == U64(image, at + 16)
    && (e.kind in {6, 7} && sym + 4 <= |image| ==> e.name == CString(image, t.strtab + U32(image, sym)))
    && (e.IsSymbol() <==> e.kind in {6, 7}) && (e.IsRelative() <==> e.kind == 8)
  }

  lemma {:induction false} EntriesRead(image: Bytes, t: Tables, n: nat, i: nat)
    requires t.rela + 24 * n <= |image| && i < n
    ensures EntryReads(image, t, i, EntriesOf(image, t, n)[i])
  {
    assert EntriesOf(image, t, n)[i] == EntryAt(image, t, i);
  }

  lemma {:induction false} NeededOf(ds: seq<Dyn>, i: nat) returns (at: seq<nat>)
    requires i <= |ds|
    ensures var names := NeededNames(ds, i);
            && |at| == |names|
            && (forall k: nat :: k < |at| ==> at[k] < i && ds[at[k]].tag == 1 && names[k] == ds[at[k]].name)
            && (forall j: nat, k: nat :: j < k < |at| ==> at[j] < at[k])
            && (forall j: nat :: j < i && ds[j].tag == 1 ==> j in at)
  {
    at := [];
    if i > 0 {
      at := NeededOf(ds, i - 1);
      if ds[i - 1].tag == 1 { at := at + [i - 1]; }
    }
  }

  /** The needed names are those of the entries with tag 1, in the order of the section. */
  lemma {:induction false} NeededInOrder(image: Bytes, t: Tables, dyn: nat, n: nat) returns (at: seq<nat>)
    requires dyn + 16 * n <= |image|
    ensures var names := NeededNames(DynsOf(image, t, dyn, n), n);
            && |at| == |names|
            && (forall k: nat :: k < |at| ==> at[k] < n && NeededAt(image, t, dyn, at[k], names[k]))
            && (forall j: nat, k: nat :: j < k < |at| ==> at[j] < at[k])
            && (forall j: nat :: j < n && DynTag(image, dyn, j) == 1 ==> j in at)
  {
    var ds := DynsOf(image, t, dyn, n);
    at := NeededOf(ds, n);
    forall j: nat | j < n
      ensures ds[j].tag == DynTag(image, dyn, j)
      ensures ds[j].tag == 1 ==> NeededAt(image, t, dyn, j, ds[j].name)
    {
      assert ds[j] == DynAt(image, t, dyn, j);
    }
  }

  predicate NeededAt(image: Bytes, t: Tables, dyn: nat, j: nat, name: Bytes)
    requires dyn + 16 * j + 16 <= |image|
  {
    DynTag(image, dyn, j) == 1 && name == CString(image, t.strtab + DynValue(image, dyn, j))
  }

  // ----- the search path and the module table -----

  /** The last RELATIVE entry for the 8 bytes at `at` puts a pointer to `text` there. */
  ghost predicate PutsText(image: Bytes, es: seq<Entry>, at: nat, text: Bytes) {
    exists k: nat ::
      && k < |es| && es[k].kind == 8 && es[k].offset == at && text == CString(image, es[k].addend)
      && forall j: nat :: k < j < |es| && es[j].kind == 8 ==> es[j].offset != at
  }

  /** The directories are the texts of an array of 8-byte pointers; the modules those of an
      array of 16-byte records of a pointer and a 32-bit handle. */
  lemma {:induction false} SystemIs(image: Bytes, tables: set<nat>, es: seq<Entry>, lay: Layout, calls: Calls)
    requires GoodPointers(image, tables, es, lay)
    ensures var sys := Linked(image, es, lay, calls);
            && sys.calls == calls && |sys.search| == lay.pathCount && |sys.modules| == lay.moduleCount
            && (forall i: nat :: i < lay.pathCount ==> PutsText(image, es, lay.paths + 8 * i, sys.search[i]))
            && (forall j: nat :: j < lay.moduleCount ==>
                  && PutsText(image, es, lay.modules + 16 * j, sys.modules[j].name)
                  && lay.modules + 16 * j + 12 <= |image|
                  && sys.modules[j].handle == U32(image, lay.modules + 16 * j + 8))
  {
    forall i: nat | i < lay.pathCount
      ensures PutsText(image, es, lay.paths + 8 * i, Linked(image, es, lay, calls).search[i])
    {
      assert lay.Path(i) == lay.paths + 8 * i;
      PointerIs(image, tables, es, lay.Path(i));
    }
    forall j: nat | j < lay.moduleCount
      ensures PutsText(image, es, lay.modules + 16 * j, Linked(image, es, lay, calls).modules[j].name)
    {
      assert lay.Name(j) == lay.modules + 16 * j;
      PointerIs(image, tables, es, lay.Name(j));
    }
  }

  lemma {:induction false} PointerIs(image: Bytes, tables: set<nat>, es: seq<Entry>, at: nat)
    requires exists k: nat :: GoodPointer(image, tables, es, at, k)
    ensures PutsText(image, es, at, CString(image, AddendFor(es, at, |es|)))
  {
    var k: nat :| GoodPointer(image, tables, es, at, k);
    AddendIs(es, at, |es|, k);
    assert forall j: nat :: k < j < |es| && es[j].kind == 8 ==> es[j].IsRelative() && es[j].offset != at;
  }

  // ----- the system module library -----

  const SYSMODULE: Bytes :=
    [0x6C, 0x69, 0x62, 0x53, 0x63, 0x65, 0x53, 0x79, 0x73, 0x6D, 0x6F, 0x64, 0x75, 0x6C, 0x65]

  /** The library "libSceSysmodule" is searched like any other, before its own loader is
      known; it stands in the list alone, and its loader is known when it exports it. */
  lemma {:induction false} SysmoduleOpens(sys: System, h: int)
    ensures FirstLibraries(sys) == [h] <==> LoadsFrom(sys, false, SYSMODULE, 0, h)
    ensures FirstLibraries(sys) == [] <==> forall g :: !LoadsFrom(sys, false, SYSMODULE, 0, g)
    ensures LoadsFrom(sys, false, SYSMODULE, 0, h) ==>
              (Ready(sys) <==> sys.calls.dlsym(h, Ascii("sceSysmoduleLoadModuleInternal")) != 0)
    ensures FirstLibraries(sys) == [] ==> !Ready(sys)
  {
    assert SysmoduleName() == SYSMODULE + SO;
    assert |LIBKERNEL| == 9 && |LIBKERNEL + WEB| == |LIBKERNEL + SYS| == 13 && |LIBC_INTERNAL| == 18;
    OpenedExactly(sys, false, SysmoduleName(), SYSMODULE, h);
    if Sysmodule(sys).Some? {
      OpenedExactly(sys, false, SysmoduleName(), SYSMODULE, Sysmodule(sys).value);
    }
  }
}
