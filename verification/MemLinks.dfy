/**
 * What a path means, part by part: how a name, "..", a relative and an absolute link
 * lead on, and where and with which error the way ends. Path lookup agrees with it.
 */
module MemLinks {
  import opened Words
  import opened NameTable
  import opened MemTree
  import opened MemRooted

  /** What has been reached, the parts that remain, and the number of the walk. */
  datatype Stage = Stage(at: FsNode, parts: seq<Name>, walk: nat)

  /** With slashes between them the parts are the text. */
  predicate Spells(parts: seq<Name>, text: Name)
    decreases |parts|
  {
    && parts != [] && 0x2F !in parts[0]
    && if |parts| == 1 then text == parts[0]
       else && |parts[0]| < |text| && text[..|parts[0]|] == parts[0] && text[|parts[0]|] == 0x2F
            && Spells(parts[1..], text[|parts[0]| + 1..])
  }

  predicate IsName(part: Name) {
    part != [] && part != [0x2E] && part != [0x2E, 0x2E] && part != [0x2F]
  }

  ghost predicate MaySearch(t: Tree, dir: FsNode) {
    dir.attr.kind == Dir && (t.strict ==> dir.attr.access.exec)
  }

  /** The parts of `a` lead on to `b`. A ".." at the root and every link start another
      walk: a relative text goes on from the directory of the link, an absolute one
      from the root. */
  ghost predicate Follows(t: Tree, a: Stage, b: Stage) {
    a.parts != [] &&
    var part, rest := a.parts[0], a.parts[1..];
    if part == [] || part == [0x2E] then b == Stage(a.at, rest, a.walk)
    else if part == [0x2E, 0x2E] then
      if a.at == t.root then b == Stage(t.root, rest, a.walk + 1)
      else b.parts == rest && b.walk == a.walk && IsParent(t, b.at, a.at)
    else
      MaySearch(t, a.at) && Place(a.at, part) in t.at &&
      var n := t.at[Place(a.at, part)];
      if n.attr.kind != Link then b == Stage(n, rest, a.walk)
      else
        exists parts ::
          Spells(parts, n.attr.link) && b == Stage(LinkStart(t, a.at, n.attr.link), parts + rest, a.walk + 1)
  }

  ghost predicate IsParent(t: Tree, dir: FsNode, n: FsNode) {
    exists name :: Place(dir, name) in t.at && t.at[Place(dir, name)] == n
  }

  ghost function LinkStart(t: Tree, dir: FsNode, text: Name): FsNode {
    if text != [] && text[0] == 0x2F then t.root else dir
  }

  /** The way ends here: in the 41st walk, without a part that remains, or with a name
      that cannot be looked up. */
  ghost predicate Ends(t: Tree, s: Stage, r: Result<FsNode>) {
    if s.walk > 40 then r == Err(32)
    else if s.parts == [] then r == Ok(s.at)
    else
      && IsName(s.parts[0])
      && if s.at.attr.kind != Dir then r == Err(54)
         else if !MaySearch(t, s.at) then r == Err(2)
         else Place(s.at, s.parts[0]) !in t.at && r == Err(44)
  }

  ghost predicate Journey(t: Tree, js: seq<Stage>) {
    js != [] && forall i: nat :: i + 1 < |js| ==> Follows(t, js[i], js[i + 1])
  }

  // ----- spelling -----

  /** Splitting a text is the only way to spell it. */
  lemma {:induction false} SplitSpells(parts: seq<Name>, text: Name)
    ensures Spells(parts, text) <==> parts == Split(text)
    decreases |text|
  {
    if text == [] {
      assert Spells([[]], []);
      if |parts| == 1 { assert parts == [parts[0]]; }
    } else {
      var rest := Split(text[1..]);
      SplitSpells(rest, text[1..]);
      if text[0] == 0x2F {
        SpellsSlash(rest, text);
        if Spells(parts, text) {
          FirstSpelled(parts, text);
          SplitSpells(parts[1..], text[1..]);
          assert parts == [parts[0]] + parts[1..];
        }
      } else {
        SpellsMore(rest, text);
        if Spells(parts, text) {
          SpellsLess(parts, text);
          SplitSpells([parts[0][1..]] + parts[1..], text[1..]);
          assert parts[0] == [text[0]] + parts[0][1..];
          assert parts == [parts[0]] + parts[1..];
        }
      }
    }
  }

  /** The first part is empty exactly when the text starts with a slash. */
  lemma {:induction false} FirstSpelled(parts: seq<Name>, text: Name)
    requires text != [] && Spells(parts, text)
    ensures parts[0] == [] <==> text[0] == 0x2F
    ensures parts[0] != [] ==> parts[0][0] == text[0]
  {
    if |parts| > 1 && parts[0] != [] { assert text[0] == text[..|parts[0]|][0]; }
  }

  lemma {:induction false} SpellsSlash(rest: seq<Name>, text: Name)
    requires text != [] && text[0] == 0x2F && Spells(rest, text[1..])
    ensures Spells([[]] + rest, text)
  {
    var parts := [[]] + rest;
    assert parts[1..] == rest && text[..0] == [];
  }

  lemma {:induction false} SpellsMore(rest: seq<Name>, text: Name)
    requires text != [] && text[0] != 0x2F && Spells(rest, text[1..])
    ensures Spells([[text[0]] + rest[0]] + rest[1..], text)
  {
    var first := [text[0]] + rest[0];
    var parts := [first] + rest[1..];
    assert parts[1..] == rest[1..];
    if |rest| == 1 {
      assert text == first;
    } else {
      assert text[..|first|] == [text[0]] + text[1..][..|rest[0]|];
      assert text[|first| + 1..] == text[1..][|rest[0]| + 1..];
    }
  }

  lemma {:induction false} SpellsLess(parts: seq<Name>, text: Name)
    requires text != [] && text[0] != 0x2F && Spells(parts, text)
    ensures parts[0] != [] && parts[0][0] == text[0] && Spells([parts[0][1..]] + parts[1..], text[1..])
  {
    FirstSpelled(parts, text);
    var less := [parts[0][1..]] + parts[1..];
    assert less[1..] == parts[1..];
    if |parts| > 1 {
      assert text[1..][..|less[0]|] == text[..|parts[0]|][1..];
      assert text[1..][|less[0]| + 1..] == text[|parts[0]| + 1..];
    }
  }

  // ----- the names walked so far -----

  /** The names lead from one node to the other by plain lookups. */
  ghost predicate Passes(t: Tree, from: FsNode, path: seq<Name>, d: FsNode)
    decreases |path|
  {
    if path == [] then from == d
    else
      && IsName(path[0]) && MaySearch(t, from) && Place(from, path[0]) in t.at
      && var n := t.at[Place(from, path[0])]; n.attr.kind != Link && Passes(t, n, path[1..], d)
  }

  lemma {:induction false} PassesLeads(t: Tree, from: FsNode, path: seq<Name>, d: FsNode)
    requires Passes(t, from, path, d)
    ensures Leads(t, from, path, d)
    decreases |path|
  {
    if path != [] { PassesLeads(t, t.at[Place(from, path[0])], path[1..], d); }
  }

  lemma {:induction false} PassesOn(t: Tree, from: FsNode, path: seq<Name>, d: FsNode, name: Name)
    requires Passes(t, from, path, d) && IsName(name) && MaySearch(t, d) && Place(d, name) in t.at
    requires t.at[Place(d, name)].attr.kind != Link
    ensures Passes(t, from, path + [name], t.at[Place(d, name)])
    decreases |path|
  {
    if path == [] {
      var n := t.at[Place(d, name)];
      assert [] + [name] == [name] && [name][1..] == [];
      assert Passes(t, n, [], n);
    } else {
      assert (path + [name])[1..] == path[1..] + [name];
      PassesOn(t, t.at[Place(from, path[0])], path[1..], d, name);
    }
  }

  lemma {:induction false} PassesBack(t: Tree, from: FsNode, path: seq<Name>, d: FsNode)
    requires Agree(t) && path != [] && Passes(t, from, path, d)
    ensures d in t.place && Passes(t, from, DropLast(path), t.place[d].dir)
    decreases |path|
  {
    var n := t.at[Place(from, path[0])];
    assert ListingAgrees(t, Place(from, path[0]));
    if |path| == 1 {
      assert path[1..] == [] && n == d;
    } else {
      PassesBack(t, n, path[1..], d);
      assert DropLast(path)[1..] == DropLast(path[1..]);
    }
  }

  /** Walking the names again comes to the same place. */
  lemma {:induction false} WalkAgain(t: Tree, from: FsNode, walked: seq<Name>, path: seq<Name>, d: FsNode,
                                     rest: seq<Name>, walks: nat)
    requires Agree(t) && from in t.place && Passes(t, from, path, d)
    ensures d in t.place && Walk(t, from, walked, path + rest, walks) == Walk(t, d, walked + path, rest, walks)
    decreases |path|
  {
    if path == [] {
      assert path + rest == rest && walked + path == walked;
    } else {
      var n := t.at[Place(from, path[0])];
      assert ListingAgrees(t, Place(from, path[0]));
      assert (path + rest)[0] == path[0] && (path + rest)[1..] == path[1..] + rest;
      assert walked + path == walked + [path[0]] + path[1..];
      WalkAgain(t, n, walked + [path[0]], path[1..], d, rest, walks);
    }
  }

  // ----- one step -----

  ghost predicate Arrived(t: Tree, s: Stage, walked: seq<Name>)
    requires Agree(t)
  {
    s.at in t.place && Passes(t, t.root, walked, s.at) && SLASH_NAME !in s.parts
  }

  /** What lookup gives from a stage on. */
  ghost function Outcome(t: Tree, s: Stage, walked: seq<Name>): Result<FsNode>
    requires Agree(t) && s.at in t.place
  {
    if s.walk > MAX_WALKS then Err(ELOOP) else Walk(t, s.at, walked, s.parts, MAX_WALKS - s.walk)
  }

  lemma {:induction false} EndOutcome(t: Tree, s: Stage, walked: seq<Name>, r: Result<FsNode>)
    requires Agree(t) && Arrived(t, s, walked) && Ends(t, s, r)
    ensures r == Outcome(t, s, walked)
  {
  }

  lemma {:induction false} StepOutcome(t: Tree, a: Stage, b: Stage, walked: seq<Name>) returns (next: seq<Name>)
    requires Agree(t) && Arrived(t, a, walked) && Follows(t, a, b) && a.walk <= MAX_WALKS
    ensures Arrived(t, b, next) && Outcome(t, a, walked) == Outcome(t, b, next)
  {
    var part, rest := a.parts[0], a.parts[1..];
    if part == [] || part == DOT_NAME {
      next := walked;
    } else if part == DOTDOT_NAME {
      next := UpOutcome(t, a, b, walked);
    } else if t.at[Place(a.at, part)].attr.kind != Link {
      next := walked + [part];
      assert ListingAgrees(t, Place(a.at, part));
      PassesOn(t, t.root, walked, a.at, part);
    } else {
      next := LinkOutcome(t, a, b, walked);
    }
  }

  lemma {:induction false} UpOutcome(t: Tree, a: Stage, b: Stage, walked: seq<Name>) returns (next: seq<Name>)
    requires Agree(t) && Arrived(t, a, walked) && Follows(t, a, b) && a.walk <= MAX_WALKS
    requires a.parts[0] == DOTDOT_NAME
    ensures Arrived(t, b, next) && Outcome(t, a, walked) == Outcome(t, b, next)
  {
    assert PlaceAgrees(t, t.root);
    PassesLeads(t, t.root, walked, a.at);
    next := DropLast(walked);
    if a.at == t.root {
      if walked != [] { LeadsLast(t, t.root, walked, a.at); }
      assert next + a.parts[1..] == a.parts[1..];
      assert Outcome(t, a, walked) == Resolve(t, a.parts[1..], MAX_WALKS - a.walk);
    } else {
      var name :| Place(b.at, name) in t.at && t.at[Place(b.at, name)] == a.at;
      assert ListingAgrees(t, Place(b.at, name));
      PlaceIsLive(t, a.at);
      ParentOnPath(t, a.at, walked);
      PassesBack(t, t.root, walked, a.at);
    }
  }

  lemma {:induction false} LinkOutcome(t: Tree, a: Stage, b: Stage, walked: seq<Name>) returns (next: seq<Name>)
    requires Agree(t) && Arrived(t, a, walked) && Follows(t, a, b) && a.walk <= MAX_WALKS
    requires IsName(a.parts[0]) && t.at[Place(a.at, a.parts[0])].attr.kind == Link
    ensures Arrived(t, b, next) && Outcome(t, a, walked) == Outcome(t, b, next)
  {
    var text := t.at[Place(a.at, a.parts[0])].attr.link;
    next := if IsAbsolute(text) then [] else walked;
    LinkStage(t, a, b, next);
    LinkResolves(t, a, b, walked);
    WalkBack(t, next, b);
  }

  lemma {:induction false} LinkStage(t: Tree, a: Stage, b: Stage, next: seq<Name>)
    requires Agree(t) && Follows(t, a, b) && IsName(a.parts[0]) && t.at[Place(a.at, a.parts[0])].attr.kind == Link
    requires a.at in t.place && SLASH_NAME !in a.parts
    requires Passes(t, t.root, next, LinkStart(t, a.at, t.at[Place(a.at, a.parts[0])].attr.link))
    ensures Arrived(t, b, next)
  {
    var text := t.at[Place(a.at, a.parts[0])].attr.link;
    var parts :| Spells(parts, text) && b == Stage(LinkStart(t, a.at, text), parts + a.parts[1..], a.walk + 1);
    NoSlashName(parts, text);
  }

  lemma {:induction false} LinkResolves(t: Tree, a: Stage, b: Stage, walked: seq<Name>)
    requires Agree(t) && Arrived(t, a, walked) && Follows(t, a, b) && a.walk <= MAX_WALKS
    requires IsName(a.parts[0]) && t.at[Place(a.at, a.parts[0])].attr.kind == Link
    ensures var text := t.at[Place(a.at, a.parts[0])].attr.link;
            Outcome(t, a, walked) ==
            Resolve(t, (if IsAbsolute(text) then [] else walked) + b.parts, MAX_WALKS - a.walk)
  {
    var text, rest := t.at[Place(a.at, a.parts[0])].attr.link, a.parts[1..];
    var parts :| Spells(parts, text) && b == Stage(LinkStart(t, a.at, text), parts + rest, a.walk + 1);
    SplitSpells(parts, text);
    assert LinkedPath(text, walked) + rest == (if IsAbsolute(text) then [] else walked) + b.parts;
  }

  /** Starting over with the names walked so far comes back to where the stage is. */
  lemma {:induction false} WalkBack(t: Tree, walked: seq<Name>, b: Stage)
    requires Agree(t) && Arrived(t, b, walked) && 0 < b.walk <= MAX_WALKS + 1
    ensures Resolve(t, walked + b.parts, MAX_WALKS + 1 - b.walk) == Outcome(t, b, walked)
  {
    if b.walk <= MAX_WALKS {
      WalkAgain(t, t.root, [], walked, b.at, b.parts, MAX_WALKS - b.walk);
      assert [] + walked == walked;
    }
  }

  lemma {:induction false} NoSlashName(parts: seq<Name>, text: Name)
    requires Spells(parts, text)
    ensures SLASH_NAME !in parts
    decreases |parts|
  {
    if |parts| > 1 {
      NoSlashName(parts[1..], text[|parts[0]| + 1..]);
      assert parts == [parts[0]] + parts[1..];
    } else {
      assert parts == [parts[0]];
    }
  }

  // ----- the whole way -----

  lemma {:induction false} JourneyOutcome(t: Tree, js: seq<Stage>, walked: seq<Name>, r: Result<FsNode>)
    requires Agree(t) && Journey(t, js) && Arrived(t, js[0], walked) && Ends(t, js[|js| - 1], r)
    ensures r == Outcome(t, js[0], walked)
    decreases |js|
  {
    if js[0].walk > MAX_WALKS {
      WalksGrow(t, js, |js| - 1);
    } else if |js| == 1 {
      EndOutcome(t, js[0], walked, r);
    } else {
      assert Follows(t, js[0], js[0 + 1]);
      var next := StepOutcome(t, js[0], js[1], walked);
      forall i: nat | i + 1 < |js[1..]| ensures Follows(t, js[1..][i], js[1..][i + 1]) {
        assert Follows(t, js[i + 1], js[i + 1 + 1]);
      }
      JourneyOutcome(t, js[1..], next, r);
    }
  }

  lemma {:induction false} WalksGrow(t: Tree, js: seq<Stage>, k: nat)
    requires Journey(t, js) && k < |js|
    ensures js[k].walk >= js[0].walk
    decreases k
  {
    if k > 0 {
      WalksGrow(t, js, k - 1);
      assert Follows(t, js[k - 1], js[k - 1 + 1]);
    }
  }

  /** From every stage the way goes on or ends. */
  lemma {:induction false} NextStage(t: Tree, a: Stage, walked: seq<Name>) returns (b: Stage)
    requires Agree(t) && Arrived(t, a, walked) && a.walk <= MAX_WALKS && a.parts != []
    ensures Follows(t, a, b) || Ends(t, a, Outcome(t, a, walked))
    ensures b.walk >= a.walk && (b.walk == a.walk ==> |b.parts| < |a.parts|)
  {
    var part, rest := a.parts[0], a.parts[1..];
    b := Stage(a.at, rest, a.walk);
    if part == DOTDOT_NAME {
      if a.at == t.root {
        b := Stage(t.root, rest, a.walk + 1);
      } else {
        assert PlaceAgrees(t, a.at);
        b := Stage(t.place[a.at].dir, rest, a.walk);
        assert Place(b.at, t.place[a.at].name) in t.at;
      }
    } else if IsName(part) && MaySearch(t, a.at) && Place(a.at, part) in t.at {
      var n := t.at[Place(a.at, part)];
      if n.attr.kind == Link {
        var parts := Split(n.attr.link);
        SplitSpells(parts, n.attr.link);
        b := Stage(LinkStart(t, a.at, n.attr.link), parts + rest, a.walk + 1);
        assert Follows(t, a, b);
      } else {
        b := Stage(n, rest, a.walk);
      }
    } else if IsName(part) {
      assert Ends(t, a, Outcome(t, a, walked));
    }
  }

  lemma {:induction false} Travels(t: Tree, a: Stage, walked: seq<Name>) returns (js: seq<Stage>)
    requires Agree(t) && Arrived(t, a, walked)
    ensures Journey(t, js) && js[0] == a && Ends(t, js[|js| - 1], Outcome(t, a, walked))
    decreases if a.walk > MAX_WALKS then 0 else MAX_WALKS + 1 - a.walk, |a.parts|
  {
    js := [a];
    if a.walk <= MAX_WALKS && a.parts != [] {
      var b := NextStage(t, a, walked);
      if !Ends(t, a, Outcome(t, a, walked)) {
        var next := StepOutcome(t, a, b, walked);
        var more := Travels(t, b, next);
        js := [a] + more;
        forall i: nat | i + 1 < |js| ensures Follows(t, js[i], js[i + 1]) {
          if i > 0 { assert Follows(t, more[i - 1], more[i - 1 + 1]); }
        }
      }
    }
  }

  /** Path lookup gives a node or an error exactly when the way along the parts, within 40
      walks, ends with it. */
  lemma {:induction false} PathMeans(t: Tree, path: seq<Name>, r: Result<FsNode>)
    requires Agree(t) && SLASH_NAME !in path
    ensures ResolvePath(t, path) == r <==>
            exists js :: Journey(t, js) && js[0] == Stage(t.root, path, 1) && Ends(t, js[|js| - 1], r)
  {
    var start := Stage(t.root, path, 1);
    assert Arrived(t, start, []) && Outcome(t, start, []) == ResolvePath(t, path);
    if ResolvePath(t, path) == r {
      var js := Travels(t, start, []);
    }
    forall js | Journey(t, js) && js[0] == start && Ends(t, js[|js| - 1], r)
      ensures ResolvePath(t, path) == r
    {
      JourneyOutcome(t, js, [], r);
    }
  }

  // ----- single links -----

  /** The path ends with a link whose text is one name: what the directory of the link
      lists under it, or the root when a slash comes first. */
  lemma {:induction false} LinkMeans(t: Tree, path: seq<Name>, d: FsNode, name: Name, x: Name)
    requires Agree(t) && Passes(t, t.root, path, d) && MaySearch(t, d) && IsName(name) && IsName(x) && 0x2F !in x
    requires Place(d, name) in t.at && t.at[Place(d, name)].attr.kind == Link
    ensures var text, r := t.at[Place(d, name)].attr.link, ResolvePath(t, path + [name]);
            && (text == x && Lists(t, d, x) ==> r == Ok(t.at[Place(d, x)]))
            && (text == [0x2F] + x && MaySearch(t, t.root) && Lists(t, t.root, x) ==> r == Ok(t.at[Place(t.root, x)]))
  {
    var text := t.at[Place(d, name)].attr.link;
    PassesLeads(t, t.root, path, d);
    WalkAgain(t, t.root, [], path, d, [name], MAX_WALKS - 1);
    assert [] + path == path;
    assert Arrived(t, Stage(d, [name], 1), path);
    if text == x && Lists(t, d, x) {
      RelativeLink(t, path, d, name, x);
    } else if text == [0x2F] + x && MaySearch(t, t.root) && Lists(t, t.root, x) {
      AbsoluteLink(t, path, d, name, x);
    }
  }

  lemma {:induction false} RelativeLink(t: Tree, path: seq<Name>, d: FsNode, name: Name, x: Name)
    requires Agree(t) && Arrived(t, Stage(d, [name], 1), path) && MaySearch(t, d) && IsName(name) && IsName(x)
    requires Place(d, name) in t.at && t.at[Place(d, name)].attr.kind == Link && Lists(t, d, x)
    requires t.at[Place(d, name)].attr.link == x && 0x2F !in x
    ensures Outcome(t, Stage(d, [name], 1), path) == Ok(t.at[Place(d, x)])
  {
    var a, b, e := Stage(d, [name], 1), Stage(d, [x], 2), Stage(t.at[Place(d, x)], [], 2);
    assert Spells([x], x) && [x] + [] == [x] && [name][1..] == [] && [x][1..] == [];
    assert Follows(t, a, b) && Follows(t, b, e);
    JourneyOutcome(t, [a, b, e], path, Ok(e.at));
  }

  lemma {:induction false} AbsoluteLink(t: Tree, path: seq<Name>, d: FsNode, name: Name, x: Name)
    requires Agree(t) && Arrived(t, Stage(d, [name], 1), path) && MaySearch(t, d) && IsName(name) && IsName(x)
    requires Place(d, name) in t.at && t.at[Place(d, name)].attr.kind == Link && Lists(t, t.root, x)
    requires t.at[Place(d, name)].attr.link == [0x2F] + x && 0x2F !in x && MaySearch(t, t.root)
    ensures Outcome(t, Stage(d, [name], 1), path) == Ok(t.at[Place(t.root, x)])
  {
    var parts: seq<Name>, text := [[], x], [0x2F] + x;
    var a, b := Stage(d, [name], 1), Stage(t.root, parts, 2);
    var c, e := Stage(t.root, [x], 2), Stage(t.at[Place(t.root, x)], [], 2);
    assert Spells(parts, text) by {
      assert parts[1..] == [x] && text[..0] == [] && text[1..] == x && Spells([x], x);
    }
    assert parts + [] == parts && [name][1..] == [] && parts[1..] == [x] && [x][1..] == [];
    assert Follows(t, a, b) && Follows(t, b, c) && Follows(t, c, e);
    JourneyOutcome(t, [a, b, c, e], path, Ok(e.at));
  }

  ghost predicate Lists(t: Tree, d: FsNode, x: Name) {
    Place(d, x) in t.at && t.at[Place(d, x)].attr.kind != Link
  }
}
