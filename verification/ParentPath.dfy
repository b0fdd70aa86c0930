/**
 * The folder picker's way up: `compute_parent_path` on the server, and
 * `joinPath` in the browser, which it undoes. A `char` stands for one byte of
 * a C string.
 */
module ParentPath {
  import opened Words
  import opened Paths
  import opened CText

  /** Without the trailing slashes, but never without the first character. */
  function Trimmed(s: string): string {
    if |s| > 1 && s[|s| - 1] == '/' then Trimmed(s[..|s| - 1]) else s
  }

  /** What is before the last slash; `None` when there is no slash. */
  function BeforeLastSlash(s: string): Option<string> {
    if s == "" then None
    else if s[|s| - 1] == '/' then Some(s[..|s| - 1])
    else BeforeLastSlash(s[..|s| - 1])
  }

  function Parent(path: string): string {
    match BeforeLastSlash(Trimmed(Cut(path, 1023)))
    case None => ""
    case Some(front) => if front == "" then "/" else front
  }

  /** `strrchr(buf, '/')` on a string of length `len`. */
  method LastSlash(buf: array<char>, len: nat) returns (slash: int)
    requires len <= buf.Length
    ensures -1 <= slash < len
    ensures BeforeLastSlash(buf[..len]) == if slash < 0 then None else Some(buf[..slash])
  {
    slash := len - 1;
    assert buf[..slash + 1] == buf[..len];
    while slash >= 0 && buf[slash] != '/'
      invariant -1 <= slash < len
      invariant BeforeLastSlash(buf[..len]) == BeforeLastSlash(buf[..slash + 1])
    {
      assert buf[..slash + 1][..slash] == buf[..slash];
      slash := slash - 1;
    }
    assert slash >= 0 ==> buf[..slash + 1][..slash] == buf[..slash];
  }

  /** `compute_parent_path`; the result is the text left in `out`. */
  method ComputeParentPath(path: string, outSize: nat) returns (out: string)
    requires outSize > 0 && '\0' !in path
    ensures out == Cut(Parent(path), outSize - 1) && '\0' !in out
  {
    if path == "" {
      return "";
    }
    var tmp := new char[1024];
    CopyInto(tmp, path);
    var len := |Cut(path, 1023)|;
    assert tmp[..len] == Cut(path, 1023);
    while len > 1 && tmp[len - 1] == '/'
      invariant 0 < len < tmp.Length
      invariant Trimmed(Cut(path, 1023)) == Trimmed(tmp[..len])
      invariant '\0' !in tmp[..len] && tmp[len] == '\0'
    {
      assert tmp[..len][..len - 1] == tmp[..len - 1];
      len := len - 1;
      tmp[len] := '\0';
    }
    var slash := LastSlash(tmp, len);
    if slash < 0 {
      out := "";
    } else if slash == 0 {
      out := Cut("/", outSize - 1);
    } else {
      ghost var front := tmp[..slash];
      assert '\0' !in front by {
        assert forall c :: c in front ==> c in tmp[..len];
      }
      tmp[slash] := '\0';
      assert tmp[..slash] == front;
      TextIs(tmp[..], slash);
      assert tmp[..][..slash] == front;
      out := Cut(Text(tmp[..]), outSize - 1);
    }
  }

  // ----- what the parent is -----

  lemma {:induction false} TrimmedParts(s: string)
    ensures PartsOf(Trimmed(s)) == PartsOf(s)
    ensures |Trimmed(s)| <= |s| && (Trimmed(s) == "" <==> s == "")
    ensures IsAbs(Trimmed(s)) == IsAbs(s)
    ensures |Trimmed(s)| > 1 ==> Trimmed(s)[|Trimmed(s)| - 1] != '/'
  {
    if |s| > 1 && s[|s| - 1] == '/' {
      var front := s[..|s| - 1];
      TrimmedParts(front);
      OuterSlashes(front);
      assert s == front + "/";
    }
  }

  /** The last slash splits off the last component. */
  lemma {:induction false} BeforeLastSlashIs(s: string)
    ensures match BeforeLastSlash(s)
            case None => '/' !in s
            case Some(front) => |front| < |s| && s == front + "/" + s[|front| + 1..] && '/' !in s[|front| + 1..]
  {
    if s != "" {
      var init := s[..|s| - 1];
      if s[|s| - 1] == '/' {
        assert s == init + "/" + s[|s|..];
      } else {
        BeforeLastSlashIs(init);
        assert s == init + [s[|s| - 1]];
        match BeforeLastSlash(init)
        case None =>
        case Some(front) => assert s[|front| + 1..] == init[|front| + 1..] + [s[|s| - 1]];
      }
    }
  }

  lemma {:induction false} SplitConcat(a: string, b: string)
    ensures Split(a + "/" + b) == Split(a) + Split(b)
  {
    if a == "" {
      assert (a + "/" + b)[1..] == b;
    } else {
      assert (a + "/" + b)[1..] == a[1..] + "/" + b;
      SplitConcat(a[1..], b);
    }
  }

  /** The parent has the components of the path but for the last one. */
  lemma {:induction false} ParentDropsLast(path: string)
    requires |path| < 1024
    ensures var parts := PartsOf(path);
            PartsOf(Parent(path)) == if parts == [] then [] else parts[..|parts| - 1]
  {
    var t := Trimmed(path);
    TrimmedParts(path);
    BeforeLastSlashIs(t);
    match BeforeLastSlash(t) {
      case None =>
        SplitAfter(t, "");
        assert PartsOf("") == [];
        assert NonEmpty([t]) == if t == "" then [] else [t];
      case Some(front) =>
        var name := t[|front| + 1..];
        SplitConcat(front, name);
        SplitAfter(name, "");
        NonEmptyConcat(Split(front), [name]);
        assert NonEmpty([name]) == if name == "" then [] else [name];
        OuterSlashes("");
        assert PartsOf("") == [];
        assert "/" + "" == "/";
        ParentOfTrimmed(t, front, name);
    }
  }

  lemma {:induction false} ParentOfTrimmed(t: string, front: string, name: string)
    requires t == front + "/" + name && (|t| > 1 ==> t[|t| - 1] != '/')
    ensures name == "" ==> front == ""
  {
  }

  /** Every step up is strictly shorter, until "/" or "". */
  lemma {:induction false} ParentShortens(path: string)
    requires path != "" && path != "/"
    ensures |Parent(path)| < |path|
  {
    var t := Trimmed(Cut(path, 1023));
    TrimmedParts(Cut(path, 1023));
    BeforeLastSlashIs(t);
  }

  lemma {:induction false} ParentKeepsKind(path: string)
    ensures IsAbs(Parent(path)) == IsAbs(path)
  {
    var t := Trimmed(Cut(path, 1023));
    TrimmedParts(Cut(path, 1023));
    BeforeLastSlashIs(t);
  }

  function Up(path: string, n: nat): string
    decreases n
  {
    if n == 0 then path else Up(Parent(path), n - 1)
  }

  /** Going up often enough ends at "/" from every absolute path and at the
      list of shortcuts, "", from every other one, and stays there. */
  lemma {:induction false} UpEnds(path: string, n: nat)
    requires n >= |path|
    ensures Up(path, n) == if IsAbs(path) then "/" else ""
    decreases n
  {
    if n > 0 {
      ParentKeepsKind(path);
      if path != "" && path != "/" {
        ParentShortens(path);
      } else {
        assert Parent("/") == "/" && Parent("") == "" by { RootIsItsParent(); }
      }
      if path == "/" { UpFromRoot(n - 1); } else { UpEnds(Parent(path), n - 1); }
    }
  }

  lemma {:induction false} RootIsItsParent()
    ensures Parent("/") == "/" && Parent("") == ""
  {
    assert Trimmed("/") == "/" && BeforeLastSlash("/") == Some("/"[..0]);
  }

  lemma {:induction false} UpFromRoot(n: nat)
    ensures Up("/", n) == "/"
  {
    RootIsItsParent();
    if n > 0 { UpFromRoot(n - 1); }
  }

  // ----- the way down -----

  /** `joinPath`. */
  function JoinPath(base: string, name: string): string {
    if base == "" then name
    else if TrailingSlash(base) then base + name
    else base + "/" + name
  }

  lemma {:induction false} LastSlashOfJoin(front: string, name: string)
    requires '/' !in name
    ensures BeforeLastSlash(front + "/" + name) == Some(front)
    ensures BeforeLastSlash(name) == None
  {
    var s := front + "/" + name;
    if name == "" {
      assert s[..|s| - 1] == front;
    } else {
      assert s[..|s| - 1] == front + "/" + name[..|name| - 1];
      LastSlashOfJoin(front, name[..|name| - 1]);
    }
  }

  /** The parent of a joined path is the directory it was joined to. */
  lemma {:induction false} ParentUndoesJoin(base: string, name: string)
    requires base == "/" || !TrailingSlash(base)
    requires Component(name) && |JoinPath(base, name)| < 1024
    ensures Parent(JoinPath(base, name)) == base
  {
    var path := JoinPath(base, name);
    assert path[|path| - 1] == name[|name| - 1];
    assert Trimmed(path) == path;
    var front := if base == "/" then "" else base;
    LastSlashOfJoin(front, name);
    assert base == "/" ==> path == "" + "/" + name;
  }
}
