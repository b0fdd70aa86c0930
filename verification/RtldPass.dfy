/**
 * One relocation pass: what it writes for a list of entries, and what is in the image
 * after it. A later store wins where slots overlap.
 */
module RtldPass {
  import opened Words
  import opened ByteFile
  import opened Rtld

  // ----- patches -----

  /** A 64-bit store; it keeps the low 64 bits of `word`. */
  datatype Patch = Patch(at: nat, word: nat)

  function Apply(image: Bytes, ps: seq<Patch>): Bytes
    decreases |ps|
  {
    if ps == [] then image
    else
      var last := ps[|ps| - 1];
      WriteAt(Apply(image, ps[..|ps| - 1]), last.at, LE(last.word, 8))
  }

  lemma {:induction false} ApplyMore(image: Bytes, ps: seq<Patch>, p: Patch)
    ensures Apply(image, ps + [p]) == WriteAt(Apply(image, ps), p.at, LE(p.word, 8))
  {
    assert (ps + [p])[..|ps|] == ps;
  }

  // ----- entries and slots -----

  /** A relocation entry with the name of its symbol. */
  datatype Entry = Entry(offset: nat, kind: nat, addend: nat, name: Bytes)
  {
    predicate IsRelative() {
      kind == R_RELATIVE
    }

    predicate IsSymbol() {
      IsSymbolKind(kind)
    }

    predicate IsRelocated() {
      IsRelative() || IsSymbol()
    }
  }

  /** What a pass writes for an entry, if anything. */
  type Writer = Entry -> Option<Patch>

  /** The first pass: base plus addend. */
  function RelativeWriter(base: nat): Writer {
    (e: Entry) => if e.IsRelative() then Some(Patch(e.offset, base + e.addend)) else None
  }

  function Also<T>(s: seq<T>, x: Option<T>): seq<T> {
    if x.None? then s else s + [x.value]
  }

  /** What a pass writes for the first `i` entries. */
  function Patches(es: seq<Entry>, w: Writer, i: nat): seq<Patch>
    requires i <= |es|
  {
    if i == 0 then [] else Also(Patches(es, w, i - 1), w(es[i - 1]))
  }

  predicate Disjoint(e: Entry, lo: nat, len: nat) {
    e.offset + 8 <= lo || lo + len <= e.offset
  }

  /** Every relocated slot lies in the image. */
  ghost predicate SlotsInside(es: seq<Entry>, size: nat) {
    forall k: nat :: k < |es| && es[k].IsRelocated() ==> es[k].offset + 8 <= size
  }

  ghost predicate SlotsApart(es: seq<Entry>) {
    forall j: nat, k: nat :: j < |es| && k < |es| && j != k && es[j].IsRelocated() && es[k].IsRelocated() ==>
      Disjoint(es[j], es[k].offset, 8)
  }

  lemma {:induction false} ApplyConcat(image: Bytes, ps: seq<Patch>, qs: seq<Patch>)
    ensures Apply(image, ps + qs) == Apply(Apply(image, ps), qs)
    decreases |qs|
  {
    if qs == [] {
      assert ps + qs == ps;
    } else {
      var n := |qs| - 1;
      ApplyConcat(image, ps, qs[..n]);
      assert ps + qs == (ps + qs[..n]) + [qs[n]];
      assert qs == qs[..n] + [qs[n]];
      ApplyMore(image, ps + qs[..n], qs[n]);
      ApplyMore(Apply(image, ps), qs[..n], qs[n]);
    }
  }

  // ----- one pass -----

  /** The pass writes relocated entries only, each at its own slot. */
  ghost predicate OwnSlots(w: Writer) {
    forall e: Entry {:trigger w(e)} :: w(e).Some? ==> e.IsRelocated() && w(e).value.at == e.offset
  }

  function Pass(image: Bytes, es: seq<Entry>, w: Writer, i: nat): Bytes
    requires i <= |es|
  {
    Apply(image, Patches(es, w, i))
  }

  lemma {:induction false} PassStep(image: Bytes, es: seq<Entry>, w: Writer, i: nat)
    requires i < |es|
    ensures Pass(image, es, w, i + 1) ==
            if w(es[i]).None? then Pass(image, es, w, i)
            else WriteAt(Pass(image, es, w, i), w(es[i]).value.at, LE(w(es[i]).value.word, 8))
  {
    if w(es[i]).Some? { ApplyMore(image, Patches(es, w, i), w(es[i]).value); }
  }

  /** A pass keeps every range that none of its slots touches. */
  lemma {:induction false} PassKeeps(image: Bytes, es: seq<Entry>, w: Writer, i: nat, lo: nat, b: Bytes)
    requires i <= |es| && SlotsInside(es, |image|) && OwnSlots(w) && Holds(image, lo, b)
    requires forall k: nat :: k < i && w(es[k]).Some? ==> Disjoint(es[k], lo, |b|)
    ensures |Pass(image, es, w, i)| == |image| && Holds(Pass(image, es, w, i), lo, b)
  {
    if i > 0 {
      PassKeeps(image, es, w, i - 1, lo, b);
      PassStep(image, es, w, i - 1);
      var before, p := Pass(image, es, w, i - 1), w(es[i - 1]);
      if p.Some? {
        WriteKeeps(before, p.value.at, LE(p.value.word, 8), lo, b);
        WriteAtLength(before, p.value.at, LE(p.value.word, 8));
      }
    }
  }

  lemma {:induction false} StoreKeepsSlot(image: Bytes, p: Option<Patch>, at: nat, b: Bytes)
    requires Holds(image, at, b) && |b| == 8
    requires p.Some? ==> p.value.at + 8 <= at || at + 8 <= p.value.at
    ensures p.Some? ==> Holds(WriteAt(image, p.value.at, LE(p.value.word, 8)), at, b)
  {
    if p.Some? { WriteKeeps(image, p.value.at, LE(p.value.word, 8), at, b); }
  }

  /** A slot that no later store touches holds its word. */
  lemma {:induction false} PassWrites(image: Bytes, es: seq<Entry>, w: Writer, i: nat, k: nat)
    requires k < i <= |es| && SlotsInside(es, |image|) && OwnSlots(w) && w(es[k]).Some?
    requires forall j: nat :: k < j < i && w(es[j]).Some? ==> Disjoint(es[j], es[k].offset, 8)
    ensures |Pass(image, es, w, i)| == |image|
    ensures Holds(Pass(image, es, w, i), es[k].offset, LE(w(es[k]).value.word, 8))
  {
    PassStep(image, es, w, i - 1);
    PassKeeps(image, es, w, i, 0, []);
    if k < i - 1 {
      PassWrites(image, es, w, i - 1, k);
      StoreKeepsSlot(Pass(image, es, w, i - 1), w(es[i - 1]), es[k].offset, LE(w(es[k]).value.word, 8));
    } else {
      WriteHolds(Pass(image, es, w, i - 1), es[k].offset, LE(w(es[k]).value.word, 8));
    }
  }
}
