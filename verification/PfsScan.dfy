/**
 * Scanning a directory into the inode tree. The file system that is scanned is a
 * parameter: a finite tree of directory entries with the outcome of `stat` and
 * `opendir` for each.
 */
module PfsScan {
  import opened Words
  import opened PfsLayout
  import opened PfsTree

  datatype Stat = Failed | Other | Regular(size: nat) | Directory(opens: bool, entries: seq<DirEntry>)
  datatype DirEntry = DirEntry(name: Bytes, stat: Stat)

  const DOT: Byte := 0x2E

  predicate Accepted(e: DirEntry) {
    e.name != [DOT] && e.name != [DOT, DOT] && (e.stat.Regular? || e.stat.Directory?)
  }

  function AcceptedCount(es: seq<DirEntry>): nat {
    if es == [] then 0 else (if Accepted(es[0]) then 1 else 0) + AcceptedCount(es[1..])
  }

  /** The path buffer holds 4096 bytes, the terminator included. */
  const PATH_SIZE: nat := 4096

  function Join(path: Path, name: Bytes): Path {
    Cut(path + [SLASH] + name, PATH_SIZE - 1)
  }

  function FileRec(path: Path, e: DirEntry, ino: nat): Rec
    requires e.stat.Regular?
  {
    FreshRec(e.name, File, ino).(size := e.stat.size, src := Some(Join(path, e.name)))
  }

  function DirRec(name: Bytes, opens: bool, entries: seq<DirEntry>, ino: nat): Rec {
    FreshRec(name, Dir, ino).(nlink := if opens then AcceptedCount(entries) else 0)
  }

  /** Records that one directory entry contributes, in pre-order, numbered from `ino`. */
  function ScanOne(path: Path, e: DirEntry, ino: nat): seq<Rec>
    decreases e, 0
  {
    if !Accepted(e) then []
    else match e.stat
      case Regular(_) => [FileRec(path, e, ino)]
      case Directory(opens, es) =>
        [DirRec(e.name, opens, es, ino)] + ScanOpened(Join(path, e.name), opens, es, ino + 1)
  }

  function ScanOpened(path: Path, opens: bool, es: seq<DirEntry>, ino: nat): seq<Rec>
    decreases es, 1
  {
    if opens then ScanAll(path, es, ino) else []
  }

  function ScanAll(path: Path, es: seq<DirEntry>, ino: nat): seq<Rec>
    decreases es, 0
  {
    if es == [] then []
    else
      var first := ScanOne(path, es[0], ino);
      first + ScanAll(path, es[1..], ino + |first|)
  }

  /** The whole image: a root with the reserved number 1, then everything scanned. */
  function Scanned(path: Path, opens: bool, es: seq<DirEntry>, base: nat): seq<Rec> {
    [DirRec([], opens, es, 1)] + ScanOpened(path, opens, es, base + 1)
  }

  // ----- properties of the numbering -----

  /** Creation order is pre-order: records are numbered consecutively. */
  lemma {:induction false} ScanOneNumbers(path: Path, e: DirEntry, ino: nat, k: nat)
    requires k < |ScanOne(path, e, ino)|
    ensures ScanOne(path, e, ino)[k].ino == ino + k
    ensures ScanOne(path, e, ino)[k].HasData() ==> ScanOne(path, e, ino)[k].Streamed()
    decreases e, 0
  {
    if e.stat.Directory? && k > 0 {
      ScanAllNumbers(Join(path, e.name), e.stat.entries, ino + 1, k - 1);
    }
  }

  lemma {:induction false} ScanAllNumbers(path: Path, es: seq<DirEntry>, ino: nat, k: nat)
    requires k < |ScanAll(path, es, ino)|
    ensures ScanAll(path, es, ino)[k].ino == ino + k
    ensures ScanAll(path, es, ino)[k].HasData() ==> ScanAll(path, es, ino)[k].Streamed()
    decreases es, 0
  {
    var first := ScanOne(path, es[0], ino);
    if k < |first| {
      ScanOneNumbers(path, es[0], ino, k);
    } else {
      ScanAllNumbers(path, es[1..], ino + |first|, k - |first|);
    }
  }

  /** Record 0 is the root with number 1; record k > 0 has number base + k. The
      counter starts at 2 and only grows, so numbers are unique. Every file has a
      source. */
  lemma {:induction false} ScannedNumbers(path: Path, opens: bool, es: seq<DirEntry>, base: nat)
    ensures var rs := Scanned(path, opens, es, base);
            && (forall k: nat :: k < |rs| ==> rs[k].ino == if k == 0 then 1 else base + k)
            && (base > 0 ==> forall j: nat, k: nat :: j < k < |rs| ==> rs[j].ino != rs[k].ino)
            && AllSourced(rs)
  {
    var rs := Scanned(path, opens, es, base);
    forall k: nat | k < |rs|
      ensures rs[k].ino == if k == 0 then 1 else base + k
      ensures rs[k].HasData() ==> rs[k].Streamed()
    {
      if k > 0 { ScanAllNumbers(path, es, base + 1, k - 1); }
    }
  }

  lemma {:induction false} ScannedSourced(path: Path, opens: bool, es: seq<DirEntry>, base: nat)
    ensures AllSourced(Scanned(path, opens, es, base))
  {
    ScannedNumbers(path, opens, es, base);
  }

  // ----- the scan itself -----

  lemma {:induction false} PreAllAppend(ks: seq<Shape>, k: Shape)
    ensures PreAll(ks + [k]) == PreAll(ks) + Pre(k)
  {
    if ks == [] {
      assert PreAll([k]) == Pre(k) + PreAll([]);
    } else {
      assert (ks + [k])[1..] == ks[1..] + [k];
      PreAllAppend(ks[1..], k);
    }
  }

  lemma {:induction false} PreAllConcat(ks: seq<Shape>, more: seq<Shape>)
    requires |more| <= 1
    ensures PreAll(ks + more) == PreAll(ks) + PreAll(more)
    ensures Heads(ks + more) == Heads(ks) + Heads(more)
  {
    if more == [] {
      assert ks + more == ks;
    } else {
      PreAllAppend(ks, more[0]);
      assert more == [more[0]];
      assert PreAll(more) == Pre(more[0]) + PreAll([]);
    }
  }

  lemma {:induction false} DistinctConcat(a: seq<Shape>, b: seq<Shape>)
    requires Distinct(a) && Distinct(b) && Nodes(a) !! Nodes(b)
    ensures Distinct(a + b)
  {
    forall i: nat, j: nat | i < j < |a + b|
      ensures (a + b)[i].node != (a + b)[j].node
    {
      if i < |a| <= j {
        assert a[i].node in Nodes(a) && b[j - |a|].node in Nodes(b);
      }
    }
  }

  /** One more entry adds its records behind those of the entries before it. */
  lemma {:induction false} ScanStep(path: Path, es: seq<DirEntry>, i: nat, ino: nat)
    requires i < |es|
    ensures var before := ScanAll(path, es[..i], ino);
            ScanAll(path, es[..i + 1], ino) == before + ScanOne(path, es[i], ino + |before|)
  {
    assert es[..i + 1] == es[..i] + [es[i]];
    ScanAppend(path, es[..i], es[i], ino);
  }

  lemma {:induction false} ScanAppend(path: Path, es: seq<DirEntry>, e: DirEntry, ino: nat)
    ensures ScanAll(path, es + [e], ino) == ScanAll(path, es, ino) + ScanOne(path, e, ino + |ScanAll(path, es, ino)|)
  {
    if es == [] {
      ScanSingle(path, e, ino);
      assert [] + [e] == [e];
    } else {
      var first := ScanOne(path, es[0], ino);
      var rest := ScanAll(path, es[1..], ino + |first|);
      assert (es + [e])[0] == es[0] && (es + [e])[1..] == es[1..] + [e];
      ScanAppend(path, es[1..], e, ino + |first|);
      Assoc(first, rest, ScanOne(path, e, ino + |first| + |rest|));
    }
  }

  lemma {:induction false} ScanSingle(path: Path, e: DirEntry, ino: nat)
    ensures ScanAll(path, [e], ino) == ScanOne(path, e, ino)
  {
    assert [e][1..] == [];
  }

  lemma {:induction false} AcceptedStep(es: seq<DirEntry>, i: nat)
    requires i < |es|
    ensures AcceptedCount(es[..i + 1]) == AcceptedCount(es[..i]) + if Accepted(es[i]) then 1 else 0
    decreases i
  {
    if i > 0 {
      assert es[..i][1..] == es[1..][..i - 1] && es[..i + 1][1..] == es[1..][..i];
      AcceptedStep(es[1..], i - 1);
    }
  }

  lemma {:induction false} AddSubtrees(kids: seq<Shape>, added: seq<Shape>)
    requires |added| <= 1 && Linked(PreAll(kids)) && Linked(PreAll(added))
    requires Distinct(PreAll(kids)) && Distinct(PreAll(added)) && Nodes(PreAll(kids)) !! Nodes(PreAll(added))
    ensures var all := PreAll(kids + added);
            && Linked(all) && Distinct(all)
            && Nodes(all) == Nodes(PreAll(kids)) + Nodes(PreAll(added))
            && Snaps(all) == Snaps(PreAll(kids)) + Snaps(PreAll(added))
    ensures Heads(kids + added) == Heads(kids) + Heads(added)
  {
    PreAllConcat(kids, added);
    LinkedParts(PreAll(kids), PreAll(added));
    NodesParts(PreAll(kids), PreAll(added));
    DistinctConcat(PreAll(kids), PreAll(added));
    SnapsConcat(PreAll(kids), PreAll(added));
  }

  /** pfs_scan_directory */
  method ScanDirectory(path: Path, opens: bool, entries: seq<DirEntry>, parent: Inode, counter: InodeCounter)
    returns (ok: bool, ghost kids: seq<Shape>)
    requires parent.children == []
    modifies parent`children, parent`nlink, counter
    ensures ok == opens
    ensures parent.children == Heads(kids)
    ensures parent.nlink == old(parent.nlink) + (if opens then AcceptedCount(entries) else 0)
    ensures Linked(PreAll(kids)) && Distinct(PreAll(kids)) && fresh(Nodes(PreAll(kids))) && ParentOf(kids, parent)
    ensures Snaps(PreAll(kids)) == ScanOpened(path, opens, entries, old(counter.next))
    ensures counter.next == old(counter.next) + |PreAll(kids)|
    decreases entries, 2
  {
    kids := [];
    if !opens {
      return false, kids;
    }
    ok := true;
    kids := ReadEntries(path, entries, parent, counter, counter.next);
  }

  /** The readdir loop. */
  method ReadEntries(path: Path, entries: seq<DirEntry>, parent: Inode, counter: InodeCounter, ghost start: nat)
    returns (ghost kids: seq<Shape>)
    requires parent.children == [] && counter.next == start
    modifies parent`children, parent`nlink, counter
    ensures parent.children == Heads(kids) && ParentOf(kids, parent)
    ensures parent.nlink == old(parent.nlink) + AcceptedCount(entries)
    ensures Linked(PreAll(kids)) && Distinct(PreAll(kids)) && fresh(Nodes(PreAll(kids)))
    ensures Snaps(PreAll(kids)) == ScanAll(path, entries, start)
    ensures counter.next == start + |ScanAll(path, entries, start)|
    decreases entries, 1
  {
    kids := [];
    ghost var recs: seq<Rec> := [];
    for i := 0 to |entries|
      invariant parent.children == Heads(kids) && ParentOf(kids, parent)
      invariant parent.nlink == old(parent.nlink) + AcceptedCount(entries[..i])
      invariant Linked(PreAll(kids)) && Distinct(PreAll(kids)) && fresh(Nodes(PreAll(kids)))
      invariant Snaps(PreAll(kids)) == recs && recs == ScanAll(path, entries[..i], start)
      invariant counter.next == start + |recs|
    {
      kids, recs := NextEntry(path, entries, i, parent, counter, kids, recs, start);
    }
    assert entries[..|entries|] == entries;
  }

  /** One turn of the readdir loop. */
  method NextEntry(path: Path, entries: seq<DirEntry>, i: nat, parent: Inode, counter: InodeCounter,
                   ghost kids: seq<Shape>, ghost recs: seq<Rec>, ghost start: nat)
    returns (ghost kids': seq<Shape>, ghost recs': seq<Rec>)
    requires i < |entries| && counter.next == start + |recs| && recs == ScanAll(path, entries[..i], start)
    requires parent.children == Heads(kids) && parent !in Nodes(PreAll(kids)) && ParentOf(kids, parent)
    requires Linked(PreAll(kids)) && Distinct(PreAll(kids)) && Snaps(PreAll(kids)) == recs
    modifies parent`children, parent`nlink, counter
    ensures parent.children == Heads(kids') && ParentOf(kids', parent)
    ensures parent.nlink - old(parent.nlink) == AcceptedCount(entries[..i + 1]) - AcceptedCount(entries[..i])
    ensures Linked(PreAll(kids')) && Distinct(PreAll(kids')) && fresh(Nodes(PreAll(kids')) - Nodes(PreAll(kids)))
    ensures Snaps(PreAll(kids')) == recs' && recs' == ScanAll(path, entries[..i + 1], start)
    ensures counter.next == start + |recs'|
    decreases entries[i], 2
  {
    ScanStep(path, entries, i, start);
    AcceptedStep(entries, i);
    ghost var more := ScanOne(path, entries[i], counter.next);
    kids', recs' := ExtendWithEntry(path, entries[i], parent, counter, kids, recs, more);
  }

  /** The subtree of one entry joins those of the entries before it. */
  method ExtendWithEntry(path: Path, e: DirEntry, parent: Inode, counter: InodeCounter,
                         ghost kids: seq<Shape>, ghost recs: seq<Rec>, ghost more: seq<Rec>)
    returns (ghost kids': seq<Shape>, ghost recs': seq<Rec>)
    requires parent.children == Heads(kids) && parent !in Nodes(PreAll(kids))
    requires Linked(PreAll(kids)) && Distinct(PreAll(kids)) && Snaps(PreAll(kids)) == recs && ParentOf(kids, parent)
    requires more == ScanOne(path, e, counter.next)
    modifies parent`children, parent`nlink, counter
    ensures parent.children == Heads(kids') && ParentOf(kids', parent)
    ensures parent.nlink == old(parent.nlink) + if Accepted(e) then 1 else 0
    ensures Linked(PreAll(kids')) && Distinct(PreAll(kids')) && fresh(Nodes(PreAll(kids')) - Nodes(PreAll(kids)))
    ensures recs' == recs + more && Snaps(PreAll(kids')) == recs'
    ensures counter.next == old(counter.next) + |more|
    decreases e, 1
  {
    ghost var done := PreAll(kids);
    assert Linked(done) && Snaps(done) == recs;
    ghost var added := ScanEntry(path, e, parent, counter);
    assert Linked(done) && Snaps(done) == recs;
    AddSubtrees(kids, added);
    kids', recs' := kids + added, recs + more;
  }

  /** The body of the readdir loop. */
  method ScanEntry(path: Path, e: DirEntry, parent: Inode, counter: InodeCounter)
    returns (ghost added: seq<Shape>)
    modifies parent`children, parent`nlink, counter
    ensures |added| == (if Accepted(e) then 1 else 0) && ParentOf(added, parent)
    ensures parent.children == old(parent.children) + Heads(added)
    ensures parent.nlink == old(parent.nlink) + |added|
    ensures Linked(PreAll(added)) && Distinct(PreAll(added)) && fresh(Nodes(PreAll(added)))
    ensures Snaps(PreAll(added)) == ScanOne(path, e, old(counter.next))
    ensures counter.next == old(counter.next) + |PreAll(added)|
    decreases e, 0
  {
    added := [];
    if e.name == [DOT] || e.name == [DOT, DOT] {
      return;
    }
    var fullPath := Join(path, e.name);
    match e.stat
    case Failed =>
    case Other =>
    case Directory(opens, entries) =>
      var node, sub := CreateSubdirectory(e.name, fullPath, opens, entries, parent, counter);
      added := [sub];
    case Regular(size) =>
      var node := new Inode(e.name, File, parent, counter);
      node.size := size;
      node.srcPath := Some(fullPath);
      parent.AddChild(node);
      added := [Shape(node, [])];
      NewSubtree(added[0]);
  }

  /** The directory branch: create, attach, then scan. A failed opendir leaves the
      directory node in place without children. */
  method CreateSubdirectory(name: Bytes, fullPath: Path, opens: bool, entries: seq<DirEntry>,
                            parent: Inode, counter: InodeCounter)
    returns (node: Inode, ghost sub: Shape)
    modifies parent`children, parent`nlink, counter
    ensures node == sub.node && PreAll([sub]) == Pre(sub) && ParentOf([sub], parent)
    ensures parent.children == old(parent.children) + [node]
    ensures parent.nlink == old(parent.nlink) + 1
    ensures Linked(Pre(sub)) && Distinct(Pre(sub)) && fresh(Nodes(Pre(sub)))
    ensures Snaps(Pre(sub)) == [DirRec(name, opens, entries, old(counter.next))]
                               + ScanOpened(fullPath, opens, entries, old(counter.next) + 1)
    ensures counter.next == old(counter.next) + |Pre(sub)|
    decreases entries, 3
  {
    node := new Inode(name, Dir, parent, counter);
    parent.AddChild(node);
    var _, kids := ScanDirectory(fullPath, opens, entries, node, counter);
    sub := Shape(node, kids);
    NewSubtree(sub);
  }

  lemma {:induction false} NewSubtree(s: Shape)
    requires s.node.children == Heads(s.kids) && Linked(PreAll(s.kids)) && Distinct(PreAll(s.kids))
    requires s.node !in Nodes(PreAll(s.kids))
    ensures PreAll([s]) == Pre(s) && Linked(Pre(s)) && Distinct(Pre(s))
    ensures Nodes(Pre(s)) == {s.node} + Nodes(PreAll(s.kids))
    ensures Snaps(Pre(s)) == [s.node.Snap()] + Snaps(PreAll(s.kids))
  {
    assert PreAll([s]) == Pre(s) + PreAll([]);
    LinkedParts([s], PreAll(s.kids));
    NodesParts([s], PreAll(s.kids));
    DistinctConcat([s], PreAll(s.kids));
    SnapsConcat([s], PreAll(s.kids));
  }
}
