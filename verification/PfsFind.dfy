/**
 * `pfs_inode_find`: the walk from a root along the components of a path.
 */
module PfsFind {
  import opened Words
  import opened PfsLayout
  import opened PfsTree

  // ----- components of a path -----

  /** Up to the first slash. */
  function Token(s: Bytes): (t: Bytes)
    ensures |t| <= |s|
  {
    if s == [] || s[0] == SLASH then [] else [s[0]] + Token(s[1..])
  }

  /** What `strtok` gives one after the other: the non-empty runs between slashes. */
  function Tokens(s: Bytes): seq<Bytes>
    decreases |s|
  {
    if s == [] then []
    else if s[0] == SLASH then Tokens(s[1..])
    else [Token(s)] + Tokens(s[|Token(s)|..])
  }

  lemma {:induction false} TokenScan(s: Bytes, from: nat, to: nat)
    requires from <= to <= |s| && forall k :: from <= k < to ==> s[k] != SLASH
    requires to < |s| ==> s[to] == SLASH
    ensures Token(s[from..]) == s[from..to]
    decreases |s| - from
  {
    if from < to {
      TokenScan(s, from + 1, to);
      assert s[from..][1..] == s[from + 1..] && s[from..to] == [s[from]] + s[from + 1..to];
    }
  }

  /** `strtok` from position `pos` on; `None` when only slashes are left. */
  method NextToken(p: Bytes, pos: nat) returns (token: Option<Bytes>, next: nat)
    requires pos <= |p|
    ensures pos <= next <= |p|
    ensures Ahead(Tokens(p[pos..]), token, Tokens(p[next..]))
  {
    var from := pos;
    while from < |p| && p[from] == SLASH
      invariant pos <= from <= |p| && Tokens(p[pos..]) == Tokens(p[from..])
    {
      assert p[from..][1..] == p[from + 1..];
      from := from + 1;
    }
    if from == |p| {
      return None, from;
    }
    next := from;
    while next < |p| && p[next] != SLASH
      invariant from <= next <= |p| && (next == from ==> p[from] != SLASH)
      invariant forall k :: from <= k < next ==> p[k] != SLASH
    {
      next := next + 1;
    }
    TokenScan(p, from, next);
    assert p[from..][next - from..] == p[next..];
    token := Some(p[from..next]);
  }

  // ----- the walk -----

  /** The first child with the name. */
  ghost function Child(kids: seq<Shape>, name: Bytes): Option<Shape> {
    if kids == [] then None
    else if kids[0].node.name == name then Some(kids[0])
    else Child(kids[1..], name)
  }

  ghost function Descend(s: Shape, names: seq<Bytes>): Option<Shape>
    decreases names
  {
    if names == [] then Some(s)
    else
      var c := Child(s.kids, names[0]);
      if c.None? then None else Descend(c.value, names[1..])
  }

  lemma {:induction false} KidLinked(ks: seq<Shape>, k: nat)
    requires k < |ks| && Linked(PreAll(ks))
    ensures Linked(Pre(ks[k]))
    decreases |ks|
  {
    LinkedParts(Pre(ks[0]), PreAll(ks[1..]));
    if k > 0 { KidLinked(ks[1..], k - 1); }
  }

  lemma {:induction false} RootLinked(s: Shape)
    requires Linked(Pre(s))
    ensures s.node.children == Heads(s.kids) && Linked(PreAll(s.kids))
  {
    LinkedParts([s], PreAll(s.kids));
    assert Pre(s)[0] == s;
  }

  /** The inner loop: the first child with the name, if there is one. */
  method FindChild(node: Inode, name: Bytes, ghost s: Shape) returns (found: Inode?, ghost kid: Shape)
    requires node == s.node && Linked(Pre(s))
    ensures found == null <==> Child(s.kids, name).None?
    ensures found != null ==> found == Child(s.kids, name).value.node
    ensures found != null ==> kid == Child(s.kids, name).value && Linked(Pre(kid))
  {
    RootLinked(s);
    kid := s;
    for i := 0 to |node.children|
      invariant Child(s.kids, name) == Child(s.kids[i..], name)
    {
      assert s.kids[i..][1..] == s.kids[i + 1..];
      if node.children[i].name == name {
        KidLinked(s.kids, i);
        return node.children[i], s.kids[i];
      }
    }
    found := null;
  }

  /** `pfs_inode_find`; the empty pointer arguments are `null` and `None`. */
  method PfsInodeFind(root: Inode?, path: Option<Bytes>, ghost s: Shape) returns (found: Inode?)
    requires root != null ==> root == s.node && Linked(Pre(s))
    ensures root == null || path.None? ==> found == null
    ensures root != null && path.Some? ==>
              match Descend(s, Tokens(path.value))
              case None => found == null
              case Some(t) => found == t.node
  {
    if root == null || path.None? {
      return null;
    }
    var p := path.value;
    if p == [SLASH] || p == [] {
      assert Tokens(p) == [] by { assert p == [SLASH] ==> p[1..] == []; }
      return root;
    }
    found := Walk(root, p, s);
  }

  /** `left` is the current token and what comes after it. */
  ghost predicate Ahead(left: seq<Bytes>, token: Option<Bytes>, after: seq<Bytes>) {
    match token
    case None => left == []
    case Some(t) => left != [] && left[0] == t && left[1..] == after
  }

  /** The outer loop: one component after the other. */
  method Walk(root: Inode, p: Bytes, ghost s: Shape) returns (found: Inode?)
    requires root == s.node && Linked(Pre(s))
    ensures match Descend(s, Tokens(p))
            case None => found == null
            case Some(t) => found == t.node
  {
    var current := root;
    ghost var here := s;
    ghost var left, tree := Tokens(p), Pre(s);
    assert p[0..] == p && Linked(tree);
    var token, pos := NextToken(p, 0);
    assert Linked(tree);
    while token.Some?
      invariant pos <= |p| && current == here.node && tree == Pre(here) && Linked(tree)
      invariant Ahead(left, token, Tokens(p[pos..]))
      invariant Descend(s, Tokens(p)) == Descend(here, left)
      decreases |left|
    {
      var next;
      next, here := FindChild(current, token.value, here);
      if next == null {
        return null;
      }
      current, tree := next, Pre(here);
      assert Linked(tree);
      token, pos := NextToken(p, pos);
      assert Linked(tree);
      left := left[1..];
    }
    found := current;
  }

  // ----- paths lead to nodes -----

  /** `t` is reached from `s` by the component list `names`. */
  ghost predicate Route(s: Shape, names: seq<Bytes>, t: Shape)
    decreases names
  {
    if names == [] then t == s
    else exists k: nat :: k < |s.kids| && s.kids[k].node.name == names[0] && Route(s.kids[k], names[1..], t)
  }

  /** No two children of one node have the same name, anywhere in the tree. */
  ghost predicate UniqueNames(s: Shape) {
    (forall i: nat, j: nat :: i < j < |s.kids| ==> s.kids[i].node.name != s.kids[j].node.name)
    && forall i: nat :: i < |s.kids| ==> UniqueNames(s.kids[i])
  }

  lemma {:induction false} ChildIs(kids: seq<Shape>, name: Bytes)
    ensures match Child(kids, name)
            case None => forall k: nat :: k < |kids| ==> kids[k].node.name != name
            case Some(c) => exists k: nat :: k < |kids| && kids[k] == c && c.node.name == name
  {
    if kids != [] && kids[0].node.name != name {
      ChildIs(kids[1..], name);
      match Child(kids[1..], name) {
        case None =>
          forall k: nat | k < |kids| ensures kids[k].node.name != name {
            if k > 0 { assert kids[k] == kids[1..][k - 1]; }
          }
        case Some(c) =>
          var k: nat :| k < |kids| - 1 && kids[1..][k] == c && c.node.name == name;
          assert kids[k + 1] == c;
      }
    }
  }

  /** With unique sibling names the walk finds exactly the node that has the
      component list, and fails exactly when no node has it. */
  lemma {:induction false} DescendIsRoute(s: Shape, names: seq<Bytes>, t: Shape)
    requires UniqueNames(s)
    ensures Descend(s, names) == Some(t) <==> Route(s, names, t)
    decreases names
  {
    if names != [] {
      ChildIs(s.kids, names[0]);
      var c := Child(s.kids, names[0]);
      if c.Some? {
        var k: nat :| k < |s.kids| && s.kids[k] == c.value && c.value.node.name == names[0];
        assert UniqueNames(s.kids[k]);
        DescendIsRoute(c.value, names[1..], t);
        assert Route(s.kids[k], names[1..], t) ==> Route(s, names, t);
        if Route(s, names, t) {
          var j: nat :| j < |s.kids| && s.kids[j].node.name == names[0] && Route(s.kids[j], names[1..], t);
          assert j == k;
        }
      }
    }
  }

  lemma {:induction false} FailsIffNoRoute(s: Shape, names: seq<Bytes>)
    requires UniqueNames(s)
    ensures Descend(s, names) == None <==> forall t :: !Route(s, names, t)
  {
    if Descend(s, names) == None {
      forall t ensures !Route(s, names, t) {
        DescendIsRoute(s, names, t);
      }
    } else {
      var t := Descend(s, names).value;
      DescendIsRoute(s, names, t);
      assert Route(s, names, t);
    }
  }

  // ----- spelling a path -----

  predicate Component(name: Bytes) {
    name != [] && SLASH !in name
  }

  function Slashes(n: nat): Bytes {
    seq(n, _ => SLASH)
  }

  /** The names with any number of slashes before each, at least one between two,
      and any number at the end. */
  function Spell(names: seq<Bytes>, gaps: seq<nat>, end: nat): Bytes
    requires |gaps| == |names|
  {
    if names == [] then Slashes(end)
    else Slashes(gaps[0]) + (names[0] + Spell(names[1..], gaps[1..], end))
  }

  predicate Separated(names: seq<Bytes>, gaps: seq<nat>) {
    |gaps| == |names| && forall i :: 0 < i < |gaps| ==> gaps[i] > 0
  }

  lemma {:induction false} TokensSkip(n: nat, rest: Bytes)
    ensures Tokens(Slashes(n) + rest) == Tokens(rest)
  {
    var s := Slashes(n) + rest;
    if n == 0 {
      assert s == rest;
    } else {
      assert s[1..] == Slashes(n - 1) + rest;
      TokensSkip(n - 1, rest);
    }
  }

  lemma {:induction false} TokensTake(name: Bytes, rest: Bytes)
    requires Component(name) && (rest == [] || rest[0] == SLASH)
    ensures Tokens(name + rest) == [name] + Tokens(rest)
  {
    var s := name + rest;
    assert s[0..] == s && s[0..|name|] == name;
    TokenScan(s, 0, |name|);
    assert s[|name|..] == rest;
  }

  /** Extra slashes do not matter: every spelling has its names as components. */
  lemma {:induction false} TokensOfSpelling(names: seq<Bytes>, gaps: seq<nat>, end: nat)
    requires Separated(names, gaps) && forall i :: 0 <= i < |names| ==> Component(names[i])
    ensures Tokens(Spell(names, gaps, end)) == names
  {
    if names == [] {
      TokensSkip(end, []);
      assert Slashes(end) + [] == Slashes(end);
    } else {
      var rest := Spell(names[1..], gaps[1..], end);
      TokensOfSpelling(names[1..], gaps[1..], end);
      assert rest == [] || rest[0] == SLASH by {
        if |names| > 1 { assert gaps[1..][0] > 0; }
      }
      TokensTake(names[0], rest);
      TokensSkip(gaps[0], names[0] + rest);
      assert names == [names[0]] + names[1..];
    }
  }

  /** Looking up any spelling of a node's path gives the node. */
  lemma {:induction false} FindInvertsPath(s: Shape, names: seq<Bytes>, gaps: seq<nat>, end: nat, t: Shape)
    requires UniqueNames(s) && Route(s, names, t)
    requires Separated(names, gaps) && forall i :: 0 <= i < |names| ==> Component(names[i])
    ensures Descend(s, Tokens(Spell(names, gaps, end))) == Some(t)
  {
    TokensOfSpelling(names, gaps, end);
    DescendIsRoute(s, names, t);
  }
}
