/**
 * What `rtld_load` leaves behind, entry by entry: section 4.4.1 of the System V
 * AMD64 ABI supplement for the kinds the loader handles.
 */
module RtldTheorems {
  import opened Words
  import opened ByteFile
  import opened RawBytes
  import opened Rtld
  import opened RtldPass
  import opened RtldLoad

  // ----- the loaded image -----

  function LoadedImage(image: Bytes, es: seq<Entry>, base: nat, calls: Calls, libs: seq<int>): Bytes {
    Apply(image, AllPatches(es, base, calls, libs))
  }

  /** The word that belongs in the slot of an entry. */
  function WordOf(e: Entry, base: nat, calls: Calls, libs: seq<int>): nat {
    if e.IsRelative() then base + e.addend else Resolve(calls, libs, e.name)
  }

  lemma {:induction false} TwoPasses(image: Bytes, es: seq<Entry>, base: nat, calls: Calls, libs: seq<int>)
    ensures LoadedImage(image, es, base, calls, libs) ==
            Pass(Pass(image, es, RelativeWriter(base), |es|), es, SymbolWriter(calls, libs), |es|)
    ensures OwnSlots(RelativeWriter(base)) && OwnSlots(SymbolWriter(calls, libs))
  {
    ApplyConcat(image, Patches(es, RelativeWriter(base), |es|), Patches(es, SymbolWriter(calls, libs), |es|));
  }

  /** Every entry's slot ends up with the entry's word: base plus addend for a
      RELATIVE one, the symbol's address for GLOB_DAT and JMP_SLOT. */
  lemma {:induction false} EverySlotRelocated(image: Bytes, es: seq<Entry>, base: nat, calls: Calls, libs: seq<int>,
                                              k: nat)
    requires SlotsInside(es, |image|) && SlotsApart(es) && k < |es| && es[k].IsRelocated()
    ensures Holds(LoadedImage(image, es, base, calls, libs), es[k].offset, LE(WordOf(es[k], base, calls, libs), 8))
  {
    TwoPasses(image, es, base, calls, libs);
    var first, second := RelativeWriter(base), SymbolWriter(calls, libs);
    var mid := Pass(image, es, first, |es|);
    PassKeeps(image, es, first, |es|, 0, []);
    if es[k].IsRelative() {
      assert first(es[k]).Some? && first(es[k]).value.word == WordOf(es[k], base, calls, libs);
      PassWrites(image, es, first, |es|, k);
      forall j: nat | j < |es| && second(es[j]).Some? ensures Disjoint(es[j], es[k].offset, 8) {
        assert j != k;
      }
      PassKeeps(mid, es, second, |es|, es[k].offset, LE(first(es[k]).value.word, 8));
    } else {
      assert second(es[k]).Some? && second(es[k]).value.word == WordOf(es[k], base, calls, libs);
      PassWrites(mid, es, second, |es|, k);
    }
  }

  /** Memory outside the slots is untouched. */
  lemma {:induction false} NothingElseWritten(image: Bytes, es: seq<Entry>, base: nat, calls: Calls, libs: seq<int>,
                                              lo: nat, b: Bytes)
    requires SlotsInside(es, |image|) && Holds(image, lo, b)
    requires forall k: nat :: k < |es| && es[k].IsRelocated() ==> Disjoint(es[k], lo, |b|)
    ensures |LoadedImage(image, es, base, calls, libs)| == |image|
    ensures Holds(LoadedImage(image, es, base, calls, libs), lo, b)
  {
    TwoPasses(image, es, base, calls, libs);
    var first := RelativeWriter(base);
    PassKeeps(image, es, first, |es|, lo, b);
    PassKeeps(Pass(image, es, first, |es|), es, SymbolWriter(calls, libs), |es|, lo, b);
  }

  /** What the loader leaves behind when no two slots overlap: a 64-bit load from the slot
      of every relocated entry gives the entry's word, bytes outside the slots are as
      before, and the counter is the number of entries without an address. */
  method Load(loader: Loader, dyn: nat, ghost n: nat, ghost tables: set<nat>)
    requires WellFormed(loader.image, tables, dyn, n, loader.lay) && loader.base + |loader.image| <= TWO64
    requires !loader.ready && loader.nullSyms == 0
    requires var t := TablesOf(loader.image, dyn, n); SlotsApart(EntriesOf(loader.image, t, Count(t)))
    modifies loader
    ensures |loader.image| == |old(loader.image)|
    ensures var t := TablesOf(old(loader.image), dyn, n);
            var es := EntriesOf(old(loader.image), t, Count(t));
            && (forall k: nat {:trigger es[k]} :: k < |es| && es[k].IsRelocated() ==>
                  es[k].offset + 8 <= |loader.image|
                  && U64(loader.image, es[k].offset) == WordOf(es[k], loader.base, loader.calls, loader.libs) % TWO64)
            && (forall a: nat {:trigger loader.image[a]} :: a < |loader.image| && Outside(es, a) ==>
                  loader.image[a] == old(loader.image)[a])
            && loader.nullSyms == |UnresolvedEntries(es, loader.calls, loader.libs, |es|)|
    ensures var t := TablesOf(old(loader.image), dyn, n);
            var es, ds := EntriesOf(old(loader.image), t, Count(t)), DynsOf(old(loader.image), t, dyn, n);
            var sys := Linked(old(loader.image), es, loader.lay, loader.calls);
            && loader.libs == AllLibraries(sys, ds)
            && forall k: nat {:trigger es[k]} :: k < |es| && es[k].IsSymbol() ==>
                 FromSource(sys, ds, es[k].name, Resolve(loader.calls, loader.libs, es[k].name))
  {
    ghost var image, t := loader.image, TablesOf(loader.image, dyn, n);
    ghost var es := EntriesOf(image, t, Count(t));
    GoodSlotsInside(image, t, tables, es);
    loader.RtldLoad(dyn, n, tables);
    UnresolvedCounts(es, loader.calls, loader.libs, |es|);
    AllFromSource(Linked(image, es, loader.lay, loader.calls), DynsOf(image, t, dyn, n), es);
    forall k: nat | k < |es| && es[k].IsRelocated()
      ensures es[k].offset + 8 <= |loader.image|
      ensures U64(loader.image, es[k].offset) == WordOf(es[k], loader.base, loader.calls, loader.libs) % TWO64
    {
      SlotReadsBack(image, es, loader.base, loader.calls, loader.libs, k);
    }
    forall a: nat | a < |loader.image| && Outside(es, a)
      ensures loader.image[a] == image[a]
    {
      ByteUntouched(image, es, loader.base, loader.calls, loader.libs, a);
    }
  }

  /** No slot covers the byte. */
  predicate Outside(es: seq<Entry>, a: nat) {
    forall k: nat :: k < |es| && es[k].IsRelocated() ==> Disjoint(es[k], a, 1)
  }

  lemma {:induction false} SlotReadsBack(image: Bytes, es: seq<Entry>, base: nat, calls: Calls, libs: seq<int>, k: nat)
    requires SlotsInside(es, |image|) && SlotsApart(es) && k < |es| && es[k].IsRelocated()
    ensures var r := LoadedImage(image, es, base, calls, libs);
            es[k].offset + 8 <= |r| && U64(r, es[k].offset) == WordOf(es[k], base, calls, libs) % TWO64
  {
    EverySlotRelocated(image, es, base, calls, libs, k);
    StoredWord(LoadedImage(image, es, base, calls, libs), es[k].offset, WordOf(es[k], base, calls, libs));
  }

  lemma {:induction false} ByteUntouched(image: Bytes, es: seq<Entry>, base: nat, calls: Calls, libs: seq<int>, a: nat)
    requires SlotsInside(es, |image|) && a < |image| && Outside(es, a)
    ensures var r := LoadedImage(image, es, base, calls, libs); a < |r| && r[a] == image[a]
  {
    var r := LoadedImage(image, es, base, calls, libs);
    assert image[a..a + 1] == [image[a]];
    NothingElseWritten(image, es, base, calls, libs, a, [image[a]]);
    assert r[a..a + 1][0] == r[a];
  }

  // ----- where a symbol comes from -----

  /** The address a needed library gives for a symbol, 0 when it does not open. */
  function Export(sys: System, ready: bool, lib: Bytes, name: Bytes): nat {
    match Opened(sys, ready, Stem(lib))
    case None => 0
    case Some(h) => sys.calls.dlsym(h, name)
  }

  lemma {:induction false} ResolvePushed(sys: System, ready: bool, names: seq<Bytes>, first: seq<int>, name: Bytes)
    requires names != []
    ensures var v := Export(sys, ready, names[|names| - 1], name);
            Resolve(sys.calls, Pushed(sys, ready, names, first), name) ==
            if v != 0 then v else Resolve(sys.calls, Pushed(sys, ready, names[..|names| - 1], first), name)
  {
    var later := Pushed(sys, ready, names[..|names| - 1], first);
    var h := Opened(sys, ready, Stem(names[|names| - 1]));
    if h.Some? {
      assert ([h.value] + later)[1..] == later;
    }
  }

  /** A symbol is taken from the last needed library that exports it. */
  lemma {:induction false} LastLibraryWins(sys: System, ready: bool, names: seq<Bytes>, first: seq<int>, name: Bytes,
                                           j: nat)
    requires j < |names| && Export(sys, ready, names[j], name) != 0
    requires forall m: nat :: j < m < |names| ==> Export(sys, ready, names[m], name) == 0
    ensures Resolve(sys.calls, Pushed(sys, ready, names, first), name) == Export(sys, ready, names[j], name)
    decreases |names|
  {
    ResolvePushed(sys, ready, names, first, name);
    if j < |names| - 1 {
      LastLibraryWins(sys, ready, names[..|names| - 1], first, name, j);
    }
  }

  /** When none of them does, it comes from what was opened before them. */
  lemma {:induction false} NoLibraryExports(sys: System, ready: bool, names: seq<Bytes>, first: seq<int>, name: Bytes)
    requires forall m: nat :: m < |names| ==> Export(sys, ready, names[m], name) == 0
    ensures Resolve(sys.calls, Pushed(sys, ready, names, first), name) == Resolve(sys.calls, first, name)
    decreases |names|
  {
    if names != [] {
      ResolvePushed(sys, ready, names, first, name);
      NoLibraryExports(sys, ready, names[..|names| - 1], first, name);
    }
  }

  /** The search list as a whole: the last needed library that exports the
      symbol, else the system module library, else 0. */
  lemma {:induction false} SymbolSource(sys: System, ds: seq<Dyn>, name: Bytes)
    ensures FromSource(sys, ds, name, Resolve(sys.calls, AllLibraries(sys, ds), name))
  {
    var names, ready, first := NeededNames(ds, |ds|), Ready(sys), FirstLibraries(sys);
    forall j: nat | IsLastExport(sys, names, name, j)
      ensures Resolve(sys.calls, AllLibraries(sys, ds), name) == Export(sys, ready, names[j], name)
    {
      LastLibraryWins(sys, ready, names, first, name, j);
    }
    if NoneExports(sys, names, name) {
      NoLibraryExports(sys, ready, names, first, name);
      SysmoduleLast(sys, name);
    }
  }

  /** `v` is the address from the last needed library that exports the symbol, else from
      the system module library, else 0. */
  ghost predicate FromSource(sys: System, ds: seq<Dyn>, name: Bytes, v: nat) {
    var names := NeededNames(ds, |ds|);
    && (forall j: nat :: IsLastExport(sys, names, name, j) ==> v == Export(sys, Ready(sys), names[j], name))
    && (NoneExports(sys, names, name) ==> v == Export(sys, false, SysmoduleName(), name))
  }

  lemma {:induction false} AllFromSource(sys: System, ds: seq<Dyn>, es: seq<Entry>)
    ensures forall k: nat {:trigger es[k]} :: k < |es| ==>
              FromSource(sys, ds, es[k].name, Resolve(sys.calls, AllLibraries(sys, ds), es[k].name))
  {
    forall k: nat | k < |es|
      ensures FromSource(sys, ds, es[k].name, Resolve(sys.calls, AllLibraries(sys, ds), es[k].name))
    {
      SymbolSource(sys, ds, es[k].name);
    }
  }

  predicate NoneExports(sys: System, names: seq<Bytes>, name: Bytes) {
    forall m: nat :: m < |names| ==> Export(sys, Ready(sys), names[m], name) == 0
  }

  predicate IsLastExport(sys: System, names: seq<Bytes>, name: Bytes, j: nat) {
    j < |names| && Export(sys, Ready(sys), names[j], name) != 0
    && forall m: nat :: j < m < |names| ==> Export(sys, Ready(sys), names[m], name) == 0
  }

  lemma {:induction false} SysmoduleLast(sys: System, name: Bytes)
    ensures Resolve(sys.calls, FirstLibraries(sys), name) == Export(sys, false, SysmoduleName(), name)
  {
    var h := Sysmodule(sys);
    if h.Some? {
      assert FirstLibraries(sys) == [h.value] && [h.value][1..] == [];
      assert Resolve(sys.calls, [], name) == 0;
    }
  }

  /** The symbolic entries among the first `i` that no library resolves. */
  function UnresolvedEntries(es: seq<Entry>, calls: Calls, libs: seq<int>, i: nat): set<nat>
    requires i <= |es|
  {
    set k: nat | k < i && es[k].IsSymbol() && Resolve(calls, libs, es[k].name) == 0
  }

  /** The counter of the loader is the number of entries without an address. */
  lemma {:induction false} UnresolvedCounts(es: seq<Entry>, calls: Calls, libs: seq<int>, i: nat)
    requires i <= |es|
    ensures Unresolved(es, calls, libs, i) == |UnresolvedEntries(es, calls, libs, i)|
  {
    if i > 0 {
      UnresolvedCounts(es, calls, libs, i - 1);
      var front, all := UnresolvedEntries(es, calls, libs, i - 1), UnresolvedEntries(es, calls, libs, i);
      if es[i - 1].IsSymbol() && Resolve(calls, libs, es[i - 1].name) == 0 {
        assert all == front + {i - 1};
      } else {
        assert all == front;
      }
    }
  }
}
