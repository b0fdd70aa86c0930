/**
 * The dynamic linker of the payload: the order of the loaded libraries, the
 * comparison of library names, and the two relocation passes over the image.
 * Positions are relative to the start of the text; file access, module loading
 * and symbol lookup by the system are functions of their arguments.
 */
module Rtld {
  import opened Words
  import opened ByteFile
  import opened RawBytes

  const DT_NULL: nat := 0
  const DT_NEEDED: nat := 1
  const DT_STRTAB: nat := 5
  const DT_SYMTAB: nat := 6
  const DT_RELA: nat := 7
  const DT_RELASZ: nat := 8

  const R_GLOB_DAT: nat := 6
  const R_JMP_SLOT: nat := 7
  const R_RELATIVE: nat := 8

  // ----- library names -----

  predicate EndsWith(s: Bytes, ext: Bytes) {
    |s| > |ext| && s[|s| - |ext|..] == ext
  }

  /** Without the extension; a name that is only an extension is kept. */
  function Stem(s: Bytes): (r: Bytes)
    ensures |r| <= |s| && r == s[..|r|]
  {
    if EndsWith(s, Ascii(".so")) then s[..|s| - 3]
    else if EndsWith(s, Ascii(".sprx")) then s[..|s| - 5]
    else s
  }

  /** The length that is left of a name without its extension. */
  method StemLength(a: Bytes) returns (la: nat)
    ensures la == |Stem(a)|
  {
    la := |a|;
    if la > 3 && a[la - 3..] == Ascii(".so") {
      la := la - 3;
    } else if la > 5 && a[la - 5..] == Ascii(".sprx") {
      la := la - 5;
    }
  }

  /** `stem_match` */
  method StemMatch(a: Bytes, b: Bytes) returns (same: bool)
    ensures same <==> Stem(a) == Stem(b)
  {
    var la := StemLength(a);
    var lb := StemLength(b);
    if la != lb {
      return false;
    }
    for i := 0 to la
      invariant forall k :: 0 <= k < i ==> a[k] == b[k]
    {
      if a[i] != b[i] {
        assert Stem(a)[i] != Stem(b)[i];
        return false;
      }
    }
    same := true;
  }

  /** A name and the same name with either extension are one library. */
  lemma {:induction false} ExtensionsMatch(base: Bytes)
    requires base != []
    ensures Stem(base + Ascii(".so")) == base && Stem(base + Ascii(".sprx")) == base
  {
    var so, sprx := base + Ascii(".so"), base + Ascii(".sprx");
    assert so[|so| - 3..] == Ascii(".so") && so[..|so| - 3] == base;
    assert sprx[|sprx| - 5..] == Ascii(".sprx") && sprx[..|sprx| - 5] == base;
    assert sprx[|sprx| - 3..][0] == 'p' as int && Ascii(".so")[0] == '.' as int;
  }

  // ----- opening a library -----

  datatype Module = Module(name: Bytes, handle: int)

  /** What the system answers. `loadInternal` tells whether the load succeeded; `dlsym`
      gives 0 for a symbol the library does not export. */
  datatype Calls = Calls(
    libkernel: int,
    access: Bytes -> bool,
    loadInternal: int -> bool,
    loadStart: Bytes -> int,
    dlsym: (int, Bytes) -> nat)

  /** The directories of the search path in order, the table of system modules, and
      what the system answers. */
  datatype System = System(search: seq<Bytes>, modules: seq<Module>, calls: Calls)

  function FileName(dir: Bytes, stem: Bytes): Bytes {
    dir + Ascii("/") + stem + Ascii(".sprx")
  }

  /** Every system module of that name can be loaded internally. */
  function Internal(sys: System, ready: bool, stem: Bytes, j: nat): bool
    decreases |sys.modules| - j
  {
    if j >= |sys.modules| then true
    else if Stem(sys.modules[j].name) == stem && !(ready && sys.calls.loadInternal(sys.modules[j].handle)) then false
    else Internal(sys, ready, stem, j + 1)
  }

  function Searched(sys: System, ready: bool, stem: Bytes, i: nat): Option<int>
    decreases |sys.search| - i
  {
    if i >= |sys.search| then None
    else
      var file := FileName(sys.search[i], stem);
      if !sys.calls.access(file) then Searched(sys, ready, stem, i + 1)
      else if !Internal(sys, ready, stem, 0) then None
      else if sys.calls.loadStart(file) > 0 then Some(sys.calls.loadStart(file))
      else Searched(sys, ready, stem, i + 1)
  }

  const KERNELS: set<Bytes> := {Ascii("libkernel.so"), Ascii("libkernel_web.so"), Ascii("libkernel_sys.so")}

  const LIBC: Bytes := Ascii("libSceLibcInternal.so")

  predicate IsKernel(stem: Bytes) {
    exists name :: name in KERNELS && stem == Stem(name)
  }

  /** The handle of a library: only the name without its extension matters. */
  function Opened(sys: System, ready: bool, stem: Bytes): Option<int> {
    if IsKernel(stem) then Some(sys.calls.libkernel)
    else if stem == Stem(LIBC) then Some(2)
    else Searched(sys, ready, stem, 0)
  }

  /** The inner loop of `rtld_open`. */
  method LoadInternally(sys: System, ready: bool, basename: Bytes) returns (ok: bool)
    ensures ok == Internal(sys, ready, Stem(basename), 0)
  {
    for j := 0 to |sys.modules|
      invariant Internal(sys, ready, Stem(basename), 0) == Internal(sys, ready, Stem(basename), j)
    {
      var same := StemMatch(basename, sys.modules[j].name);
      if same {
        if !ready {
          return false;
        }
        if !sys.calls.loadInternal(sys.modules[j].handle) {
          return false;
        }
      }
    }
    ok := true;
  }

  method MatchesKernel(basename: Bytes) returns (same: bool)
    ensures same <==> IsKernel(Stem(basename))
  {
    assert KERNELS == {Ascii("libkernel.so"), Ascii("libkernel_web.so"), Ascii("libkernel_sys.so")};
    same := StemMatch(basename, Ascii("libkernel.so"));
    if !same {
      same := StemMatch(basename, Ascii("libkernel_web.so"));
    }
    if !same {
      same := StemMatch(basename, Ascii("libkernel_sys.so"));
    }
  }

  /** `rtld_open`; `None` when the library cannot be opened. */
  method RtldOpen(sys: System, ready: bool, basename: Bytes) returns (lib: Option<int>)
    ensures lib == Opened(sys, ready, Stem(basename))
  {
    var kernel := MatchesKernel(basename);
    if kernel {
      return Some(sys.calls.libkernel);
    }
    var libc := StemMatch(basename, LIBC);
    if libc {
      return Some(2);
    }
    var stemlen := StemLength(basename);
    var stem := basename[..stemlen];
    for i := 0 to |sys.search|
      invariant Searched(sys, ready, stem, 0) == Searched(sys, ready, stem, i)
    {
      var filename := FileName(sys.search[i], stem);
      if !sys.calls.access(filename) {
        continue;
      }
      var ok := LoadInternally(sys, ready, basename);
      if !ok {
        return None;
      }
      var handle := sys.calls.loadStart(filename);
      if handle > 0 {
        return Some(handle);
      }
    }
    lib := None;
  }

  // ----- when a library opens -----

  // ".so", ".sprx" and the names of the libraries that are always there, byte by byte.
  const SO: Bytes := [0x2E, 0x73, 0x6F]
  const SPRX: Bytes := [0x2E, 0x73, 0x70, 0x72, 0x78]
  const LIBKERNEL: Bytes := [0x6C, 0x69, 0x62, 0x6B, 0x65, 0x72, 0x6E, 0x65, 0x6C]
  const WEB: Bytes := [0x5F, 0x77, 0x65, 0x62]
  const SYS: Bytes := [0x5F, 0x73, 0x79, 0x73]
  const LIBC_INTERNAL: Bytes :=
    [0x6C, 0x69, 0x62, 0x53, 0x63, 0x65, 0x4C, 0x69, 0x62, 0x63, 0x49, 0x6E, 0x74, 0x65, 0x72, 0x6E, 0x61, 0x6C]

  ghost predicate HasStem(name: Bytes, stem: Bytes) {
    if stem != [] && (name == stem + SO || name == stem + SPRX) then true
    else name == stem && forall base :: base != [] ==> name != base + SO && name != base + SPRX
  }

  lemma {:induction false} Extensions()
    ensures Ascii(".so") == SO && Ascii(".sprx") == SPRX && Ascii("/") == [0x2F]
  {
  }

  lemma {:induction false} SpecialNames()
    ensures Stem(Ascii("libkernel.so")) == LIBKERNEL && Stem(Ascii("libkernel_web.so")) == LIBKERNEL + WEB
    ensures Stem(Ascii("libkernel_sys.so")) == LIBKERNEL + SYS && Stem(LIBC) == LIBC_INTERNAL
  {
    Extensions();
    assert Ascii("libkernel.so") == LIBKERNEL + SO && Ascii("libkernel_web.so") == LIBKERNEL + WEB + SO;
    assert Ascii("libkernel_sys.so") == LIBKERNEL + SYS + SO && LIBC == LIBC_INTERNAL + SO;
    StemIs(LIBKERNEL + SO, LIBKERNEL);
    StemIs(LIBKERNEL + WEB + SO, LIBKERNEL + WEB);
    StemIs(LIBKERNEL + SYS + SO, LIBKERNEL + SYS);
    StemIs(LIBC_INTERNAL + SO, LIBC_INTERNAL);
  }

  lemma {:induction false} StemIs(name: Bytes, stem: Bytes)
    ensures HasStem(name, stem) <==> stem == Stem(name)
  {
    Extensions();
    if EndsWith(name, SO) {
      assert name == name[..|name| - 3] + SO;
    } else if EndsWith(name, SPRX) {
      assert name == name[..|name| - 5] + SPRX;
    }
    forall base | base != []
      ensures name == base + SO ==> EndsWith(name, SO) && name[..|name| - 3] == base
      ensures name == base + SPRX ==> EndsWith(name, SPRX) && !EndsWith(name, SO) && name[..|name| - 5] == base
    {
      if name == base + SPRX && |name| > 3 { assert name[|name| - 3..][0] == SPRX[2]; }
    }
  }

  /** Directory `i` has an accessible file of the library that loads with handle `h`. */
  predicate LoadsAt(sys: System, stem: Bytes, i: nat, h: int)
    requires i < |sys.search|
  {
    var file := sys.search[i] + [0x2F] + stem + SPRX;
    sys.calls.access(file) && sys.calls.loadStart(file) == h && h > 0
  }

  predicate FailsAt(sys: System, stem: Bytes, i: nat)
    requires i < |sys.search|
  {
    var file := sys.search[i] + [0x2F] + stem + SPRX;
    sys.calls.access(file) ==> sys.calls.loadStart(file) <= 0
  }

  /** The first directory whose file loads gives the handle, when every system module of
      the library loads internally. */
  ghost predicate LoadsFrom(sys: System, ready: bool, stem: Bytes, from: nat, h: int) {
    && ModulesLoad(sys, ready, stem, 0)
    && exists i: nat :: from <= i < |sys.search| && LoadsAt(sys, stem, i, h)
                        && forall j: nat :: from <= j < i ==> FailsAt(sys, stem, j)
  }

  ghost predicate ModulesLoad(sys: System, ready: bool, stem: Bytes, from: nat) {
    forall j: nat :: from <= j < |sys.modules| && HasStem(sys.modules[j].name, stem) ==>
      ready && sys.calls.loadInternal(sys.modules[j].handle)
  }

  lemma {:induction false} InternalIs(sys: System, ready: bool, stem: Bytes, j: nat)
    ensures Internal(sys, ready, stem, j) <==> ModulesLoad(sys, ready, stem, j)
    decreases |sys.modules| - j
  {
    if j < |sys.modules| {
      StemIs(sys.modules[j].name, stem);
      InternalIs(sys, ready, stem, j + 1);
    }
  }

  lemma {:induction false} SearchedIs(sys: System, ready: bool, stem: Bytes, from: nat, h: int)
    ensures Searched(sys, ready, stem, from) == Some(h) <==> LoadsFrom(sys, ready, stem, from, h)
    decreases |sys.search| - from
  {
    if from < |sys.search| {
      Extensions();
      assert FileName(sys.search[from], stem) == sys.search[from] + [0x2F] + stem + SPRX;
      InternalIs(sys, ready, stem, 0);
      SearchedIs(sys, ready, stem, from + 1, h);
      LoadsStep(sys, ready, stem, from, h);
    }
  }

  lemma {:induction false} LoadsStep(sys: System, ready: bool, stem: Bytes, from: nat, h: int)
    requires from < |sys.search|
    ensures LoadsFrom(sys, ready, stem, from, h) <==>
            || (LoadsAt(sys, stem, from, h) && ModulesLoad(sys, ready, stem, 0))
            || (FailsAt(sys, stem, from) && LoadsFrom(sys, ready, stem, from + 1, h))
  {
    if LoadsFrom(sys, ready, stem, from, h) {
      var i: nat :| from <= i < |sys.search| && LoadsAt(sys, stem, i, h)
                    && forall j: nat :: from <= j < i ==> FailsAt(sys, stem, j);
      assert i > from ==> FailsAt(sys, stem, from);
    }
    if FailsAt(sys, stem, from) && LoadsFrom(sys, ready, stem, from + 1, h) {
      var i: nat :| from + 1 <= i < |sys.search| && LoadsAt(sys, stem, i, h)
                    && forall j: nat :: from + 1 <= j < i ==> FailsAt(sys, stem, j);
      assert forall j: nat :: from <= j < i ==> FailsAt(sys, stem, j);
    }
  }

  /** The four special names have fixed handles. Any other library opens exactly when the
      first accessible "directory/stem.sprx" that loads exists and its system modules load. */
  lemma {:induction false} OpenedExactly(sys: System, ready: bool, name: Bytes, stem: Bytes, h: int)
    requires HasStem(name, stem)
    ensures var lib, kernel := Opened(sys, ready, Stem(name)), stem in {LIBKERNEL, LIBKERNEL + WEB, LIBKERNEL + SYS};
            && (kernel ==> lib == Some(sys.calls.libkernel))
            && (stem == LIBC_INTERNAL ==> lib == Some(2))
            && (!kernel && stem != LIBC_INTERNAL ==>
                  && (lib == Some(h) <==> LoadsFrom(sys, ready, stem, 0, h))
                  && (lib == None <==> forall g :: !LoadsFrom(sys, ready, stem, 0, g)))
  {
    StemIs(name, stem);
    SpecialNames();
    KernelStems(stem);
    SearchedIs(sys, ready, stem, 0, h);
    var lib := Searched(sys, ready, stem, 0);
    if lib.Some? {
      SearchedIs(sys, ready, stem, 0, lib.value);
    } else {
      forall g ensures !LoadsFrom(sys, ready, stem, 0, g) {
        SearchedIs(sys, ready, stem, 0, g);
      }
    }
  }

  lemma {:induction false} KernelStems(stem: Bytes)
    ensures IsKernel(stem) <==> stem in {LIBKERNEL, LIBKERNEL + WEB, LIBKERNEL + SYS}
    ensures LIBC_INTERNAL !in {LIBKERNEL, LIBKERNEL + WEB, LIBKERNEL + SYS}
  {
    SpecialNames();
    assert KERNELS == {Ascii("libkernel.so"), Ascii("libkernel_web.so"), Ascii("libkernel_sys.so")};
    assert |LIBC_INTERNAL| == 18 && |LIBKERNEL| == 9 && |LIBKERNEL + WEB| == |LIBKERNEL + SYS| == 13;
  }

  // ----- tables in the image -----

  datatype Tables = Tables(rela: nat, relasz: nat, symtab: nat, strtab: nat)

  function TagAt(image: Bytes, dyn: nat, i: nat): nat
    requires dyn + 16 * i + 16 <= |image|
  {
    U64(image, dyn + 16 * i)
  }

  function ValueAt(image: Bytes, dyn: nat, i: nat): nat
    requires dyn + 16 * i + 16 <= |image|
  {
    U64(image, dyn + 16 * i + 8)
  }

  /** The dynamic section at `dyn` has `n` entries before its DT_NULL. */
  predicate Terminated(image: Bytes, dyn: nat, n: nat) {
    dyn + 16 * n + 16 <= |image| && TagAt(image, dyn, n) == DT_NULL
    && forall i: nat :: i < n ==> TagAt(image, dyn, i) != DT_NULL
  }

  /** The last entry with a tag gives its table. */
  function TablesOf(image: Bytes, dyn: nat, n: nat): Tables
    requires dyn + 16 * n <= |image|
  {
    if n == 0 then Tables(0, 0, 0, 0)
    else
      var t, tag, v := TablesOf(image, dyn, n - 1), TagAt(image, dyn, n - 1), ValueAt(image, dyn, n - 1);
      if tag == DT_SYMTAB then t.(symtab := v)
      else if tag == DT_STRTAB then t.(strtab := v)
      else if tag == DT_RELA then t.(rela := v)
      else if tag == DT_RELASZ then t.(relasz := v)
      else t
  }

  /** How many 24-byte entries fit into the table; a size that is negative as a signed
      64-bit number gives none. */
  function Count(t: Tables): nat {
    if t.relasz < TWO63 then t.relasz / 24 else 0
  }

  /** A relocation entry; `kind` and `sym` are the halves of its 64-bit `r_info`. */
  datatype Rela = Rela(offset: nat, kind: nat, sym: nat, addend: nat)

  function RelaAt(image: Bytes, t: Tables, i: nat): Rela
    requires t.rela + 24 * i + 24 <= |image|
  {
    var at := t.rela + 24 * i;
    Rela(U64(image, at), U32(image, at + 8), U32(image, at + 12), U64(image, at + 16))
  }

  /** The kind is the low half of the 64-bit info word, the symbol index the high half. */
  lemma {:induction false} InfoHalves(image: Bytes, t: Tables, i: nat)
    requires t.rela + 24 * i + 24 <= |image|
    ensures var info := U64(image, t.rela + 24 * i + 8);
            RelaAt(image, t, i).kind == info % TWO32 && RelaAt(image, t, i).sym == info / TWO32
  {
    Halves(image, t.rela + 24 * i + 8);
  }

  predicate IsSymbolKind(kind: nat) {
    kind == R_GLOB_DAT || kind == R_JMP_SLOT
  }

  function SymAt(t: Tables, r: Rela): nat {
    t.symtab + 24 * r.sym
  }

  /** The name of the symbol that an entry refers to. */
  function NameOf(image: Bytes, t: Tables, r: Rela): Bytes
    requires SymAt(t, r) + 4 <= |image|
  {
    CString(image, t.strtab + U32(image, SymAt(t, r)))
  }
}
