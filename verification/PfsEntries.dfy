/**
 * What a scan finds, said of the directory tree alone: which entries there are below a
 * directory, in which order, and under which path. The records of the scan are these.
 */
module PfsEntries {
  import opened Words
  import opened PfsLayout
  import opened PfsTree
  import opened PfsScan

  /** The text of a path in a buffer of 4096 bytes. */
  function PathText(path: Path, name: Bytes): Path {
    var text := path + [0x2F] + name;
    if |text| <= 4095 then text else text[..4095]
  }

  predicate Visible(e: DirEntry) {
    e.name != [0x2E] && e.name != [0x2E, 0x2E] && (e.stat.Regular? || e.stat.Directory?)
  }

  /** From the listing of the directory `path`, the positions in `route` lead through
      directories that open to the entry `e`, whose path is `full`. */
  predicate Reaches(path: Path, es: seq<DirEntry>, route: seq<nat>, e: DirEntry, full: Path)
    decreases |route|
  {
    && route != [] && route[0] < |es| && Visible(es[route[0]])
    && var f, text := es[route[0]], PathText(path, es[route[0]].name);
       if |route| == 1 then e == f && full == text
       else f.stat.Directory? && f.stat.opens && Reaches(text, f.stat.entries, route[1..], e, full)
  }

  /** Name, mode, size, path and number of links that the entry's record must have. */
  ghost predicate RecordFor(r: Rec, e: DirEntry, full: Path) {
    && r.name == e.name && r.flags == r.sizeCompressed == r.offset == 0
    && match e.stat
       case Regular(size) => r.kind == File && r.mode == 0x81A4 && r.nlink == 0 && r.size == size && r.src == Some(full)
       case Directory(opens, es) =>
         && r.kind == Dir && r.mode == 0x41ED && r.nlink == (if opens then |VisibleAt(es)| else 0)
         && r.size == 0 && r.src == None
       case _ => false
  }

  ghost function VisibleAt(es: seq<DirEntry>): set<nat> {
    set i: nat | i < |es| && Visible(es[i])
  }

  /** The order of a listing in which a directory comes before what is in it. */
  predicate Before(a: seq<nat>, b: seq<nat>)
    decreases |a|
  {
    b != [] && (a == [] || a[0] < b[0] || (a[0] == b[0] && Before(a[1..], b[1..])))
  }

  ghost predicate Found(path: Path, es: seq<DirEntry>, route: seq<nat>, r: Rec) {
    exists e, full :: Reaches(path, es, route, e, full) && RecordFor(r, e, full)
  }

  /** Record `k` is that of the entry at `routes[k]`. */
  ghost predicate Recorded(path: Path, es: seq<DirEntry>, routes: seq<seq<nat>>, rs: seq<Rec>) {
    |routes| == |rs| && forall k: nat :: k < |rs| ==> Found(path, es, routes[k], rs[k])
  }

  /** Every entry is at one of the routes. */
  ghost predicate Complete(path: Path, es: seq<DirEntry>, routes: seq<seq<nat>>) {
    forall route, e, full :: Reaches(path, es, route, e, full) ==> route in routes
  }

  /** The routes are in the order of the listing, so none comes twice. */
  predicate InOrder(routes: seq<seq<nat>>) {
    forall j: nat, k: nat :: j < k < |routes| ==> Before(routes[j], routes[k])
  }

  ghost predicate Covers(path: Path, es: seq<DirEntry>, routes: seq<seq<nat>>, rs: seq<Rec>) {
    Recorded(path, es, routes, rs) && Complete(path, es, routes) && InOrder(routes)
  }

  lemma {:induction false} CountVisible(es: seq<DirEntry>)
    ensures AcceptedCount(es) == |VisibleAt(es)|
  {
    if es == [] {
      assert VisibleAt(es) == {};
    } else {
      CountVisible(es[1..]);
      OneMoreVisible(es);
    }
  }

  lemma {:induction false} OneMoreVisible(es: seq<DirEntry>)
    requires es != []
    ensures |VisibleAt(es)| == |VisibleAt(es[1..])| + if Visible(es[0]) then 1 else 0
  {
    var later := set i: nat | i in VisibleAt(es[1..]) :: i + 1;
    SameSize(VisibleAt(es[1..]), later);
    forall i: nat | i in VisibleAt(es) && i > 0 ensures i in later {
      assert (i - 1) in VisibleAt(es[1..]);
    }
    assert VisibleAt(es) == later + if Visible(es[0]) then {0} else {};
  }

  lemma {:induction false} SameSize(a: set<nat>, later: set<nat>)
    requires later == set i: nat | i in a :: i + 1
    ensures |later| == |a|
    decreases a
  {
    if a != {} {
      var x :| x in a;
      var rest := set i: nat | i in a - {x} :: i + 1;
      SameSize(a - {x}, rest);
      forall y | y in later ensures y in rest + {x + 1} {
        var i :| i in a && y == i + 1;
        if i != x { assert i in a - {x}; }
      }
      assert x + 1 in later && later == rest + {x + 1};
    }
  }

  // ----- one entry, and one more -----

  function Inside(routes: seq<seq<nat>>): seq<seq<nat>> {
    seq(|routes|, i requires 0 <= i < |routes| => [0] + routes[i])
  }

  function Later(route: seq<nat>): seq<nat> {
    if route == [] then [] else [route[0] + 1] + route[1..]
  }

  function AllLater(routes: seq<seq<nat>>): seq<seq<nat>> {
    seq(|routes|, i requires 0 <= i < |routes| => Later(routes[i]))
  }

  lemma {:induction false} ReachesInside(path: Path, d: DirEntry, route: seq<nat>, e: DirEntry, full: Path)
    requires d.stat.Directory? && d.stat.opens && Visible(d)
    ensures Reaches(path, [d], [0] + route, e, full) <==>
            if route == [] then e == d && full == PathText(path, d.name)
            else Reaches(PathText(path, d.name), d.stat.entries, route, e, full)
  {
    assert ([0] + route)[1..] == route;
  }

  lemma {:induction false} ReachesLater(path: Path, es: seq<DirEntry>, route: seq<nat>, e: DirEntry, full: Path)
    requires es != []
    ensures route != [] && route[0] > 0 && Reaches(path, es, route, e, full) ==>
              Reaches(path, es[1..], [route[0] - 1] + route[1..], e, full)
              && Later([route[0] - 1] + route[1..]) == route
    ensures route != [] && route[0] == 0 && Reaches(path, es, route, e, full) ==> Reaches(path, [es[0]], route, e, full)
    ensures Reaches(path, [es[0]], route, e, full) ==> Reaches(path, es, route, e, full)
    ensures Reaches(path, es[1..], route, e, full) ==> Reaches(path, es, Later(route), e, full)
  {
    if route != [] {
      assert Later(route)[1..] == route[1..];
      if route[0] > 0 {
        var less := [route[0] - 1] + route[1..];
        assert less[1..] == route[1..];
        if route[0] < |es| { assert es[1..][route[0] - 1] == es[route[0]]; }
      }
      if route[0] < |es[1..]| { assert es[1..][route[0]] == es[Later(route)[0]]; }
    }
  }

  lemma {:induction false} BeforeLater(a: seq<nat>, b: seq<nat>)
    requires Before(a, b)
    ensures Before(Later(a), Later(b)) && Before([0] + a, [0] + b)
  {
    assert ([0] + a)[1..] == a && ([0] + b)[1..] == b;
    if a != [] { assert Later(a)[1..] == a[1..] && Later(b)[1..] == b[1..]; }
  }

  lemma {:induction false} FirstBefore(route: seq<nat>)
    requires route != []
    ensures Before([0], [0] + route)
  {
    assert [0][1..] == [] && ([0] + route)[1..] == route;
  }

  /** A directory comes first, then what is in it. */
  lemma {:induction false} CoversDirectory(path: Path, d: DirEntry, routes: seq<seq<nat>>, first: Rec, rs: seq<Rec>)
    requires Visible(d) && d.stat.Directory? && d.stat.opens && RecordFor(first, d, PathText(path, d.name))
    requires Covers(PathText(path, d.name), d.stat.entries, routes, rs)
    ensures Covers(path, [d], [[0]] + Inside(routes), [first] + rs)
  {
    RecordedInside(path, d, routes, first, rs);
    CompleteInside(path, d, routes);
    InsideInOrder(PathText(path, d.name), d.stat.entries, routes, rs);
  }

  lemma {:induction false} RecordedInside(path: Path, d: DirEntry, routes: seq<seq<nat>>, first: Rec, rs: seq<Rec>)
    requires Visible(d) && d.stat.Directory? && d.stat.opens && RecordFor(first, d, PathText(path, d.name))
    requires Recorded(PathText(path, d.name), d.stat.entries, routes, rs)
    ensures Recorded(path, [d], [[0]] + Inside(routes), [first] + rs)
  {
    var all := [[0]] + Inside(routes);
    assert [0] + [] == [0];
    ReachesInside(path, d, [], d, PathText(path, d.name));
    assert Found(path, [d], all[0], first);
    forall k: nat | k < |rs| ensures Found(path, [d], all[k + 1], rs[k]) {
      FoundInside(path, d, routes[k], rs[k]);
    }
  }

  lemma {:induction false} FoundInside(path: Path, d: DirEntry, route: seq<nat>, r: Rec)
    requires Visible(d) && d.stat.Directory? && d.stat.opens
    requires Found(PathText(path, d.name), d.stat.entries, route, r)
    ensures Found(path, [d], [0] + route, r)
  {
    var e, full :| Reaches(PathText(path, d.name), d.stat.entries, route, e, full) && RecordFor(r, e, full);
    ReachesInside(path, d, route, e, full);
  }

  lemma {:induction false} CompleteInside(path: Path, d: DirEntry, routes: seq<seq<nat>>)
    requires Visible(d) && d.stat.Directory? && d.stat.opens
    requires Complete(PathText(path, d.name), d.stat.entries, routes)
    ensures Complete(path, [d], [[0]] + Inside(routes))
  {
    forall route, e, full | Reaches(path, [d], route, e, full) ensures route in [[0]] + Inside(routes) {
      RouteInside(path, d, routes, route, e, full);
    }
  }

  lemma {:induction false} RouteInside(path: Path, d: DirEntry, routes: seq<seq<nat>>,
                                       route: seq<nat>, e: DirEntry, full: Path)
    requires Visible(d) && d.stat.Directory? && d.stat.opens
    requires Complete(PathText(path, d.name), d.stat.entries, routes) && Reaches(path, [d], route, e, full)
    ensures route in [[0]] + Inside(routes)
  {
    var rest, all := route[1..], [[0]] + Inside(routes);
    assert route == [0] + rest;
    ReachesInside(path, d, rest, e, full);
    if rest == [] {
      assert all[0] == route;
    } else {
      assert rest in routes;
      var k :| 0 <= k < |routes| && routes[k] == rest;
      assert all[k + 1] == route;
    }
  }

  lemma {:induction false} InsideInOrder(path: Path, es: seq<DirEntry>, routes: seq<seq<nat>>, rs: seq<Rec>)
    requires Recorded(path, es, routes, rs) && InOrder(routes)
    ensures InOrder([[0]] + Inside(routes))
  {
    var all := [[0]] + Inside(routes);
    forall j: nat, k: nat | j < k < |all| ensures Before(all[j], all[k]) {
      if j == 0 {
        RouteNotEmpty(path, es, routes[k - 1], rs[k - 1]);
        FirstBefore(routes[k - 1]);
      } else {
        BeforeLater(routes[j - 1], routes[k - 1]);
      }
    }
  }

  lemma {:induction false} RouteNotEmpty(path: Path, es: seq<DirEntry>, route: seq<nat>, r: Rec)
    requires Found(path, es, route, r)
    ensures route != [] && route[0] < |es|
  {
  }

  /** The records of the first entry come before those of the others. */
  lemma {:induction false} CoversMore(path: Path, es: seq<DirEntry>, a: seq<seq<nat>>, ra: seq<Rec>,
                                      b: seq<seq<nat>>, rb: seq<Rec>)
    requires es != [] && Covers(path, [es[0]], a, ra) && Covers(path, es[1..], b, rb)
    ensures Covers(path, es, a + AllLater(b), ra + rb)
  {
    RecordedMore(path, es, a, ra, b, rb);
    CompleteMore(path, es, a, b);
    MoreInOrder(path, es, a, ra, b, rb);
  }

  lemma {:induction false} RecordedMore(path: Path, es: seq<DirEntry>, a: seq<seq<nat>>, ra: seq<Rec>,
                                        b: seq<seq<nat>>, rb: seq<Rec>)
    requires es != [] && Recorded(path, [es[0]], a, ra) && Recorded(path, es[1..], b, rb)
    ensures Recorded(path, es, a + AllLater(b), ra + rb)
  {
    forall k: nat | k < |ra + rb| ensures Found(path, es, (a + AllLater(b))[k], (ra + rb)[k]) {
      if k < |a| {
        FoundFirst(path, es, a[k], ra[k]);
      } else {
        FoundLater(path, es, b[k - |a|], rb[k - |a|]);
      }
    }
  }

  lemma {:induction false} FoundFirst(path: Path, es: seq<DirEntry>, route: seq<nat>, r: Rec)
    requires es != [] && Found(path, [es[0]], route, r)
    ensures Found(path, es, route, r)
  {
    var e, full :| Reaches(path, [es[0]], route, e, full) && RecordFor(r, e, full);
    ReachesLater(path, es, route, e, full);
  }

  lemma {:induction false} FoundLater(path: Path, es: seq<DirEntry>, route: seq<nat>, r: Rec)
    requires es != [] && Found(path, es[1..], route, r)
    ensures Found(path, es, Later(route), r)
  {
    var e, full :| Reaches(path, es[1..], route, e, full) && RecordFor(r, e, full);
    ReachesLater(path, es, route, e, full);
  }

  lemma {:induction false} CompleteMore(path: Path, es: seq<DirEntry>, a: seq<seq<nat>>, b: seq<seq<nat>>)
    requires es != [] && Complete(path, [es[0]], a) && Complete(path, es[1..], b)
    ensures Complete(path, es, a + AllLater(b))
  {
    forall route, e, full | Reaches(path, es, route, e, full) ensures route in a + AllLater(b) {
      ReachesLater(path, es, route, e, full);
      if route[0] == 0 {
        assert route in a;
      } else {
        var less := [route[0] - 1] + route[1..];
        assert less in b;
        var k :| 0 <= k < |b| && b[k] == less;
        assert AllLater(b)[k] == route;
      }
    }
  }

  lemma {:induction false} MoreInOrder(path: Path, es: seq<DirEntry>, a: seq<seq<nat>>, ra: seq<Rec>,
                                       b: seq<seq<nat>>, rb: seq<Rec>)
    requires es != [] && Recorded(path, [es[0]], a, ra) && Recorded(path, es[1..], b, rb) && InOrder(a) && InOrder(b)
    ensures InOrder(a + AllLater(b))
  {
    var all := a + AllLater(b);
    forall j: nat, k: nat | j < k < |all| ensures Before(all[j], all[k]) {
      if k >= |a| {
        RouteNotEmpty(path, es[1..], b[k - |a|], rb[k - |a|]);
        if j < |a| {
          RouteNotEmpty(path, [es[0]], a[j], ra[j]);
        } else {
          BeforeLater(b[j - |a|], b[k - |a|]);
        }
      }
    }
  }

  // ----- the scan -----

  lemma {:induction false} RecordsOfEntry(path: Path, e: DirEntry, ino: nat) returns (routes: seq<seq<nat>>)
    ensures Covers(path, [e], routes, ScanOne(path, e, ino))
    decreases e, 0
  {
    routes := [];
    if Visible(e) {
      assert PathText(path, e.name) == Join(path, e.name);
      if e.stat.Directory? {
        CountVisible(e.stat.entries);
        if e.stat.opens {
          var inner := RecordsOfAll(PathText(path, e.name), e.stat.entries, ino + 1);
          var first := DirRec(e.name, e.stat.opens, e.stat.entries, ino);
          routes := [[0]] + Inside(inner);
          CoversDirectory(path, e, inner, first, ScanAll(PathText(path, e.name), e.stat.entries, ino + 1));
          return;
        }
      }
      routes := [[0]];
      assert Reaches(path, [e], [0], e, PathText(path, e.name));
      assert RecordFor(ScanOne(path, e, ino)[0], e, PathText(path, e.name));
      forall route, f, full | Reaches(path, [e], route, f, full) ensures route in routes {
        assert |route| == 1 && route[0] == 0 && route == [route[0]];
      }
    }
  }

  lemma {:induction false} RecordsOfAll(path: Path, es: seq<DirEntry>, ino: nat) returns (routes: seq<seq<nat>>)
    ensures Covers(path, es, routes, ScanAll(path, es, ino))
    decreases es, 0
  {
    routes := [];
    if es != [] {
      var first := ScanOne(path, es[0], ino);
      var a := RecordsOfEntry(path, es[0], ino);
      var b := RecordsOfAll(path, es[1..], ino + |first|);
      CoversMore(path, es, a, first, b, ScanAll(path, es[1..], ino + |first|));
      routes := a + AllLater(b);
    }
  }

  /** The image has a record for the root and one for every regular file and directory that
      opened directories lead to, in the order of the listings: no entry is left out,
      invented or repeated, and each has its own name, mode, size, path and number. */
  lemma {:induction false} RecordsAreEntries(path: Path, opens: bool, es: seq<DirEntry>, base: nat)
    returns (routes: seq<seq<nat>>)
    ensures var rs := Scanned(path, opens, es, base);
            && rs != [] && Covers(path, if opens then es else [], routes, rs[1..])
            && rs[0].name == [] && rs[0].kind == Dir && rs[0].mode == 0x41ED && rs[0].ino == 1
            && rs[0].nlink == (if opens then |VisibleAt(es)| else 0)
            && forall k: nat :: 0 < k < |rs| ==> rs[k].ino == base + k
  {
    var rs := Scanned(path, opens, es, base);
    CountVisible(es);
    ScannedNumbers(path, opens, es, base);
    if opens {
      routes := RecordsOfAll(path, es, base + 1);
      assert rs[1..] == ScanAll(path, es, base + 1);
    } else {
      routes := [];
      assert rs[1..] == [];
    }
  }

  /** In particular an entry below opened directories is packed. */
  lemma {:induction false} EntryIsPacked(path: Path, es: seq<DirEntry>, base: nat, route: seq<nat>,
                                         e: DirEntry, full: Path)
    requires Reaches(path, es, route, e, full)
    ensures var rs := Scanned(path, true, es, base);
            exists k: nat :: 0 < k < |rs| && RecordFor(rs[k], e, full)
  {
    var rs := Scanned(path, true, es, base);
    var routes := RecordsAreEntries(path, true, es, base);
    var k: nat :| k < |routes| && routes[k] == route;
    assert Found(path, es, routes[k], rs[1..][k]);
    var f, text :| Reaches(path, es, route, f, text) && RecordFor(rs[1..][k], f, text);
    ReachesOne(path, es, route, e, full, f, text);
    assert rs[1..][k] == rs[k + 1];
  }

  lemma {:induction false} ReachesOne(path: Path, es: seq<DirEntry>, route: seq<nat>,
                                      e: DirEntry, full: Path, f: DirEntry, text: Path)
    requires Reaches(path, es, route, e, full) && Reaches(path, es, route, f, text)
    ensures e == f && full == text
    decreases |route|
  {
    if |route| > 1 {
      ReachesOne(PathText(path, es[route[0]].name), es[route[0]].stat.entries, route[1..], e, full, f, text);
    }
  }
}
