/**
 * The directory listing of `handle_browse`: what is printed into the growable
 * string is one JSON document, and reading it gives back the directory.
 */
module Browse {
  import opened Words
  import opened GrowString
  import opened Json
  import opened ParentPath
  import opened Paths

  /** A directory entry as `readdir` names it; `Some(isDir)` when `stat` succeeds. */
  datatype Dirent = Dirent(name: string, stat: Option<bool>)

  datatype Entry = Entry(name: string, isDir: bool)

  predicate NoNul(s: string) {
    '\0' !in s
  }

  predicate AllNamed(ds: seq<Dirent>) {
    forall i :: 0 <= i < |ds| ==> NoNul(ds[i].name)
  }

  // ----- the document -----

  function EntryValue(e: Entry): Value {
    Obj([Member("name", Str(e.name)), Member("type", Str(if e.isDir then "dir" else "file"))])
  }

  function Values(es: seq<Entry>): (vs: seq<Value>)
    ensures |vs| == |es|
  {
    seq(|es|, i requires 0 <= i < |es| => EntryValue(es[i]))
  }

  /** A listing: `parent` is `None` in the view of the shortcuts. */
  datatype View = View(path: string, parent: Option<string>, entries: seq<Entry>)

  function Document(v: View): Value {
    Obj([Member("path", Str(v.path)),
         Member("parent", if v.parent.None? then Null else Str(v.parent.value)),
         Member("entries", Arr(Values(v.entries)))])
  }

  // ----- printing text pieces -----

  predicate Plain(s: string) {
    forall i :: 0 <= i < |s| ==> s[i] >= ' ' && s[i] != '"' && s[i] != '\\'
  }

  lemma {:induction false} PlainQuoted(s: string)
    requires Plain(s)
    ensures Escaped(s) == s
  {
    if s != "" {
      PlainQuoted(s[1..]);
      assert s == [s[0]] + s[1..];
    }
  }

  lemma {:induction false} KeyText(open: string, name: string)
    requires Plain(name)
    ensures open + Quoted(name) + ":" == open + ("\"" + (name + "\":"))
  {
    PlainQuoted(name);
  }

  lemma {:induction false} NameKey()
    ensures "{" + Quoted("name") + ":" == "{\"name\":"
  {
    KeyText("{", "name");
  }

  lemma {:induction false} TypeKey()
    ensures "," + Quoted("type") + ":" == ",\"type\":"
  {
    KeyText(",", "type");
  }

  lemma {:induction false} PathKey()
    ensures "{" + Quoted("path") + ":" == "{\"path\":"
  {
    KeyText("{", "path");
  }

  lemma {:induction false} ParentKey()
    ensures "," + Quoted("parent") + ":" == ",\"parent\":"
  {
    KeyText(",", "parent");
  }

  lemma {:induction false} EntriesKey()
    ensures "," + Quoted("entries") + ":" == ",\"entries\":"
  {
    KeyText(",", "entries");
  }

  /** One member of an object, `open` being what precedes it. */
  lemma {:induction false} MemberText(open: string, key: string, colon: string, v: string, rest: string)
    ensures open + (key + (colon + (v + rest))) == (open + key + colon) + v + rest
    ensures open + (key + (colon + v)) == (open + key + colon) + v
  {
  }

  function TypeText(e: Entry): string {
    if e.isDir then "dir" else "file"
  }

  function EntryText(e: Entry): string {
    "{\"name\":" + Quoted(e.name) + ",\"type\":" + Quoted(TypeText(e)) + "}"
  }

  lemma {:induction false} TwoMembers(v: Value, a: Member, b: Member)
    requires v == Obj([a, b])
    ensures Print(v) == ("{" + Quoted(a.key) + ":") + Print(a.value)
                        + ("," + Quoted(b.key) + ":") + Print(b.value) + "}"
  {
    assert [a, b][1..] == [b];
    var last := Quoted(b.key) + (":" + Print(b.value));
    assert PrintMembers([b], v) == last;
    MemberText("{", Quoted(a.key), ":", Print(a.value), "," + last);
    MemberText(",", Quoted(b.key), ":", Print(b.value), "");
    var m := Quoted(a.key) + (":" + (Print(a.value) + ("," + last)));
    assert PrintMembers([a, b], v) == m;
    Assoc("{", m, "}");
    Assoc(("{" + Quoted(a.key) + ":") + Print(a.value), "," + Quoted(b.key) + ":", Print(b.value));
  }

  lemma {:induction false} EntryPrinted(e: Entry)
    ensures Print(EntryValue(e)) == EntryText(e)
  {
    NameKey();
    TypeKey();
    TwoMembers(EntryValue(e), Member("name", Str(e.name)), Member("type", Str(TypeText(e))));
  }

  lemma {:induction false} ThreeMembers(v: Value, a: Member, b: Member, c: Member)
    requires v == Obj([a, b, c])
    ensures Print(v) == ("{" + Quoted(a.key) + ":") + Print(a.value) + ("," + Quoted(b.key) + ":") + Print(b.value)
                        + ("," + Quoted(c.key) + ":") + Print(c.value) + "}"
  {
    assert [a, b, c][1..] == [b, c] && [b, c][1..] == [c];
    var last := Quoted(c.key) + (":" + Print(c.value));
    var more := Quoted(b.key) + (":" + (Print(b.value) + ("," + last)));
    var m := Quoted(a.key) + (":" + (Print(a.value) + ("," + more)));
    assert PrintMembers([c], v) == last;
    assert PrintMembers([b, c], v) == more;
    assert PrintMembers([a, b, c], v) == m;
    MemberText("{", Quoted(a.key), ":", Print(a.value), "," + more);
    MemberText(",", Quoted(b.key), ":", Print(b.value), "," + last);
    MemberText(",", Quoted(c.key), ":", Print(c.value), "");
    Assoc("{", m, "}");
    var k1, k2, k3 := "{" + Quoted(a.key) + ":", "," + Quoted(b.key) + ":", "," + Quoted(c.key) + ":";
    FiveParts(k1 + Print(a.value), k2, Print(b.value), k3, Print(c.value));
  }

  lemma {:induction false} FiveParts(a: string, b: string, c: string, d: string, e: string)
    ensures a + (b + c + (d + e)) == a + b + c + d + e
  {
  }

  function ItemsText(es: seq<Entry>): string
    decreases |es|
  {
    if es == [] then ""
    else ItemsText(es[..|es| - 1]) + (if |es| > 1 then "," else "") + EntryText(es[|es| - 1])
  }

  function ViewText(v: View): string {
    "{\"path\":" + Quoted(v.path)
    + ",\"parent\":" + (if v.parent.None? then "null" else Quoted(v.parent.value))
    + ",\"entries\":" + ("[" + ItemsText(v.entries) + "]") + "}"
  }

  lemma {:induction false} FourParts(a: string, b: string, c: string, d: string, e: string)
    ensures a + (b + (c + d + e)) == (a + (b + c)) + d + e
    ensures c == "" && d == "" ==> a + (b + (c + d + e)) == a + b + e
  {
  }

  lemma {:induction false} ItemsSnoc(items: seq<Value>, x: Value, whole: Value)
    requires forall i :: 0 <= i < |items| ==> items[i] < whole
    requires x < whole
    ensures PrintItems(items + [x], whole) == PrintItems(items, whole) + (if items == [] then "" else ",") + Print(x)
    decreases |items|
  {
    var all := items + [x];
    if items == [] {
      assert all == [x];
    } else {
      assert all[1..] == items[1..] + [x];
      ItemsSnoc(items[1..], x, whole);
      var first, more := Print(items[0]), PrintItems(items[1..], whole);
      assert PrintItems(all, whole) == first + ("," + PrintItems(all[1..], whole));
      FourParts(first, ",", more, if |items| == 1 then "" else ",", Print(x));
    }
  }

  lemma {:induction false} ItemsPrint(es: seq<Entry>, whole: Value)
    requires forall i :: 0 <= i < |es| ==> EntryValue(es[i]) < whole
    ensures PrintItems(Values(es), whole) == ItemsText(es)
    decreases |es|
  {
    if es != [] {
      var n := |es| - 1;
      var front := es[..n];
      ItemsPrint(front, whole);
      assert EntryValue(es[n]) < whole;
      ItemsSnoc(Values(front), EntryValue(es[n]), whole);
      assert Values(es) == Values(front) + [EntryValue(es[n])];
      EntryPrinted(es[n]);
    }
  }

  lemma {:induction false} EntriesPrinted(es: seq<Entry>)
    ensures Print(Arr(Values(es))) == "[" + ItemsText(es) + "]"
  {
    var arr := Arr(Values(es));
    forall i | 0 <= i < |es| ensures EntryValue(es[i]) < arr {
      assert arr.items[i] == EntryValue(es[i]);
    }
    ItemsPrint(es, arr);
  }

  /** The flat text of a listing is the print of its document. */
  lemma {:induction false} ViewPrinted(v: View)
    ensures Print(Document(v)) == ViewText(v)
  {
    var arr := Arr(Values(v.entries));
    var parent := if v.parent.None? then Null else Str(v.parent.value);
    EntriesPrinted(v.entries);
    PathKey();
    ParentKey();
    EntriesKey();
    ThreeMembers(Document(v), Member("path", Str(v.path)), Member("parent", parent), Member("entries", arr));
  }

  // ----- the printer -----

  lemma {:induction false} EscapeIsText(c: char)
    requires c != '\0'
    ensures NoNul(Escape(c))
  {
    assert forall i :: 0 <= i < |HEX| ==> HEX[i] != '\0';
  }

  /** `json_escape_append` */
  method JsonEscapeAppend(d: DString, s: string)
    requires d.Valid() && NoNul(s)
    modifies d, d.buf
    ensures d.Valid() && (d.buf == old(d.buf) || fresh(d.buf))
    ensures d.Content() == old(d.Content()) + Quoted(s)
  {
    ghost var before := d.Content();
    d.Append("\"");
    assert d.Content() + (Escaped(s[0..]) + "\"") == before + Quoted(s) by {
      assert s[0..] == s;
      Assoc(before, "\"", Escaped(s) + "\"");
    }
    for i := 0 to |s|
      invariant d.Valid() && (d.buf == old(d.buf) || fresh(d.buf))
      invariant d.Content() + (Escaped(s[i..]) + "\"") == before + Quoted(s)
    {
      EscapeIsText(s[i]);
      ghost var text := d.Content();
      d.Append(Escape(s[i]));
      assert s[i..][1..] == s[i + 1..];
      assert Escaped(s[i..]) == Escape(s[i]) + Escaped(s[i + 1..]);
      FourTexts(text, Escape(s[i]), Escaped(s[i + 1..]), "\"");
    }
    assert s[|s|..] == "" && "" + "\"" == "\"";
    d.Append("\"");
  }

  lemma {:induction false} FourTexts(a: string, b: string, c: string, d: string)
    ensures a + ((b + c) + d) == (a + b) + (c + d)
  {
  }

  method AppendEntry(d: DString, e: Entry, first: bool)
    requires d.Valid() && NoNul(e.name)
    modifies d, d.buf
    ensures d.Valid() && (d.buf == old(d.buf) || fresh(d.buf))
    ensures d.Content() == old(d.Content()) + ((if first then "" else ",") + EntryText(e))
  {
    ghost var before := d.Content();
    if !first {
      d.Append(",");
    }
    ghost var comma := if first then "" else ",";
    assert d.Content() == before + comma;
    d.Append("{\"name\":");
    JsonEscapeAppend(d, e.name);
    d.Append(",\"type\":\"");
    d.Append(if e.isDir then "dir" else "file");
    d.Append("\"}");
    EntryPieces(before, comma, e);
  }

  lemma {:induction false} EntryPieces(before: string, comma: string, e: Entry)
    ensures before + comma + "{\"name\":" + Quoted(e.name) + ",\"type\":\"" + TypeText(e) + "\"}"
         == before + (comma + EntryText(e))
  {
    PlainQuoted(TypeText(e));
    QuotePieces(",\"type\":", TypeText(e));
    assert ",\"type\":" + "\"" == ",\"type\":\"";
    assert "\"" + "}" == "\"}";
    var a, b, c := before + comma, "{\"name\":", Quoted(e.name);
    NestFive(before, comma, b, c, ",\"type\":" + Quoted(TypeText(e)), "}");
    SplitTail(a + b + c, ",\"type\":", "\"", TypeText(e), "\"", "}");
  }

  lemma {:induction false} QuotePieces(key: string, text: string)
    requires Plain(text)
    ensures key + Quoted(text) == key + "\"" + text + "\""
  {
    PlainQuoted(text);
  }

  lemma {:induction false} NestFive(a: string, b: string, c: string, d: string, e: string, f: string)
    ensures a + (b + (c + d + e + f)) == a + b + c + d + e + f
  {
  }

  lemma {:induction false} SplitTail(a: string, k: string, q: string, t: string, r: string, e: string)
    ensures a + (k + q + t + r) + e == a + (k + q) + t + (r + e)
  {
  }

  // ----- handle_browse -----

  /** The entries that are listed: all but ".", ".." and those without status. */
  function Shown(ds: seq<Dirent>): seq<Entry>
    decreases |ds|
  {
    if ds == [] then []
    else
      var d, front := ds[|ds| - 1], Shown(ds[..|ds| - 1]);
      if d.name == "." || d.name == ".." || d.stat.None? then front
      else front + [Entry(d.name, d.stat.value)]
  }

  /** The shortcuts that are directories. */
  function Mounted(ds: seq<Dirent>): seq<Entry>
    decreases |ds|
  {
    if ds == [] then []
    else
      var d, front := ds[|ds| - 1], Mounted(ds[..|ds| - 1]);
      if d.stat.None? || !d.stat.value then front else front + [Entry(d.name, true)]
  }

  lemma {:induction false} ShownStep(ds: seq<Dirent>, i: nat)
    requires i < |ds|
    ensures var d, front := ds[i], Shown(ds[..i]);
            Shown(ds[..i + 1]) == if d.name == "." || d.name == ".." || d.stat.None? then front
                                  else front + [Entry(d.name, d.stat.value)]
    ensures var d, front := ds[i], Mounted(ds[..i]);
            Mounted(ds[..i + 1]) == if d.stat.None? || !d.stat.value then front else front + [Entry(d.name, true)]
  {
    assert ds[..i + 1][..i] == ds[..i];
  }

  datatype Response = NotFound | OutOfMemory | Ok(body: string)

  lemma {:induction false} ItemsMore(before: string, es: seq<Entry>, e: Entry)
    ensures before + ItemsText(es + [e]) == before + ItemsText(es) + ((if es == [] then "" else ",") + EntryText(e))
  {
    assert (es + [e])[..|es|] == es;
    var comma := if es == [] then "" else ",";
    Assoc(before, ItemsText(es) + comma, EntryText(e));
    Assoc(before, ItemsText(es), comma);
    Assoc(before + ItemsText(es), comma, EntryText(e));
  }

  method AppendShown(d: DString, ds: seq<Dirent>)
    requires d.Valid() && AllNamed(ds)
    modifies d, d.buf
    ensures d.Valid() && (d.buf == old(d.buf) || fresh(d.buf))
    ensures d.Content() == old(d.Content()) + ItemsText(Shown(ds))
  {
    ghost var before := d.Content();
    var first := true;
    assert before + ItemsText([]) == before;
    for i := 0 to |ds|
      invariant d.Valid() && (d.buf == old(d.buf) || fresh(d.buf))
      invariant d.Content() == before + ItemsText(Shown(ds[..i]))
      invariant first <==> Shown(ds[..i]) == []
    {
      var entry := ds[i];
      ShownStep(ds, i);
      if entry.name == "." || entry.name == ".." {
        continue;
      }
      if entry.stat.None? {
        continue;
      }
      ItemsMore(before, Shown(ds[..i]), Entry(entry.name, entry.stat.value));
      AppendEntry(d, Entry(entry.name, entry.stat.value), first);
      first := false;
    }
    assert ds[..|ds|] == ds;
  }

  method AppendMounted(d: DString, ds: seq<Dirent>)
    requires d.Valid() && AllNamed(ds)
    modifies d, d.buf
    ensures d.Valid() && (d.buf == old(d.buf) || fresh(d.buf))
    ensures d.Content() == old(d.Content()) + ItemsText(Mounted(ds))
  {
    ghost var before := d.Content();
    var first := true;
    assert before + ItemsText([]) == before;
    for i := 0 to |ds|
      invariant d.Valid() && (d.buf == old(d.buf) || fresh(d.buf))
      invariant d.Content() == before + ItemsText(Mounted(ds[..i]))
      invariant first <==> Mounted(ds[..i]) == []
    {
      var entry := ds[i];
      ShownStep(ds, i);
      if entry.stat.None? || !entry.stat.value {
        continue;
      }
      ItemsMore(before, Mounted(ds[..i]), Entry(entry.name, true));
      AppendEntry(d, Entry(entry.name, true), first);
      first := false;
    }
    assert ds[..|ds|] == ds;
  }

  /** The answer to a request for `path`: `contents` is what the directory contains,
      if it can be contents, and `shortcuts` the mount points. */
  function Answer(path: string, contents: Option<seq<Dirent>>, shortcuts: seq<Dirent>): Response {
    if path == "" then Ok(Print(Document(View("", None, Mounted(shortcuts)))))
    else if contents.None? then NotFound
    else Ok(Print(Document(View(path, Some(Cut(Parent(path), 1023)), Shown(contents.value)))))
  }

  /** `handle_browse`. `memory` says whether the first buffer can be allocated. */
  method HandleBrowse(path: string, contents: Option<seq<Dirent>>, shortcuts: seq<Dirent>, memory: bool)
    returns (r: Response)
    requires NoNul(path) && AllNamed(shortcuts) && (contents.Some? ==> AllNamed(contents.value))
    ensures r == if memory then Answer(path, contents, shortcuts) else OutOfMemory
  {
    if !memory {
      return OutOfMemory;
    }
    if path == "" {
      var root := ListRoot(shortcuts);
      return Ok(root);
    }
    if contents.None? {
      return NotFound;
    }
    var body := ListDirectory(path, contents.value);
    r := Ok(body);
  }

  method ListRoot(shortcuts: seq<Dirent>) returns (body: string)
    requires AllNamed(shortcuts)
    ensures body == Print(Document(View("", None, Mounted(shortcuts))))
  {
    var d := new DString();
    d.Append("{\"path\":\"\",\"parent\":null,\"entries\":[");
    AppendMounted(d, shortcuts);
    d.Append("]}");
    RootText(ItemsText(Mounted(shortcuts)));
    ViewPrinted(View("", None, Mounted(shortcuts)));
    body := d.Content();
  }

  method ListDirectory(path: string, ds: seq<Dirent>) returns (body: string)
    requires NoNul(path) && AllNamed(ds)
    ensures body == Print(Document(View(path, Some(Cut(Parent(path), 1023)), Shown(ds))))
  {
    var d := new DString();
    var parent := ComputeParentPath(path, 1024);
    AppendPath(d, path);
    AppendParent(d, parent);
    AppendEntries(d, ds);
    ViewPieces(path, parent, Shown(ds));
    body := d.Content();
  }

  function PathText(path: string): string {
    "{\"path\":" + Quoted(path)
  }

  function ParentText(parent: string): string {
    ",\"parent\":" + Quoted(parent)
  }

  method AppendPath(d: DString, path: string)
    requires d.Valid() && NoNul(path)
    modifies d, d.buf
    ensures d.Valid() && (d.buf == old(d.buf) || fresh(d.buf))
    ensures d.Content() == old(d.Content()) + PathText(path)
  {
    ghost var before := d.Content();
    d.Append("{\"path\":");
    JsonEscapeAppend(d, path);
    Assoc(before, "{\"path\":", Quoted(path));
  }

  method AppendParent(d: DString, parent: string)
    requires d.Valid() && NoNul(parent)
    modifies d, d.buf
    ensures d.Valid() && (d.buf == old(d.buf) || fresh(d.buf))
    ensures d.Content() == old(d.Content()) + ParentText(parent)
  {
    ghost var before := d.Content();
    d.Append(",\"parent\":");
    Assoc(before, ",\"parent\":", Quoted(parent));
    if parent == "" {
      EmptyQuoted();
      d.Append("\"\"");
    } else {
      JsonEscapeAppend(d, parent);
    }
  }

  function EntriesText(es: seq<Entry>): string {
    ",\"entries\":[" + ItemsText(es) + "]}"
  }

  method AppendEntries(d: DString, ds: seq<Dirent>)
    requires d.Valid() && AllNamed(ds)
    modifies d, d.buf
    ensures d.Valid() && (d.buf == old(d.buf) || fresh(d.buf))
    ensures d.Content() == old(d.Content()) + EntriesText(Shown(ds))
  {
    ghost var before := d.Content();
    d.Append(",\"entries\":[");
    AppendShown(d, ds);
    d.Append("]}");
    Assoc(before, ",\"entries\":[", ItemsText(Shown(ds)));
    Assoc(before, ",\"entries\":[" + ItemsText(Shown(ds)), "]}");
  }

  lemma {:induction false} EmptyQuoted()
    ensures Quoted("") == "\"\""
  {
  }

  lemma {:induction false} ViewPieces(path: string, parent: string, es: seq<Entry>)
    ensures "" + PathText(path) + ParentText(parent) + EntriesText(es)
         == Print(Document(View(path, Some(parent), es)))
  {
    ViewPrinted(View(path, Some(parent), es));
    ClosePieces(PathText(path) + ParentText(parent), ItemsText(es));
    Assoc(PathText(path), ",\"parent\":", Quoted(parent));
    assert "" + PathText(path) == PathText(path);
    var head := PathText(path) + ParentText(parent);
    Assoc(head, ",\"entries\":[" + ItemsText(es), "]}");
    Assoc(head, ",\"entries\":[", ItemsText(es));
  }

  lemma {:induction false} ClosePieces(head: string, items: string)
    ensures head + ",\"entries\":[" + items + "]}" == head + ",\"entries\":" + ("[" + items + "]") + "}"
  {
    assert ",\"entries\":[" == ",\"entries\":" + "[" && "]}" == "]" + "}";
    SplitTail(head, ",\"entries\":", "[", items, "]", "}");
    Assoc(head, ",\"entries\":", "[" + items + "]");
    Assoc(",\"entries\":", "[" + items, "]");
    Assoc(",\"entries\":", "[", items);
  }

  lemma {:induction false} RootText(items: string)
    ensures "" + "{\"path\":\"\",\"parent\":null,\"entries\":[" + items + "]}"
         == "{\"path\":" + Quoted("") + ",\"parent\":" + "null" + ",\"entries\":" + ("[" + items + "]") + "}"
  {
    assert Quoted("") == "\"\"";
    var head := "{\"path\":" + "\"\"" + ",\"parent\":" + "null";
    assert head == "{\"path\":\"\",\"parent\":null";
    ClosePieces(head, items);
  }

  // ----- reading a listing back -----

  function ReadEntry(v: Value): Option<Entry> {
    match v
    case Obj(ms) =>
      if |ms| == 2 && ms[0].key == "name" && ms[0].value.Str? && ms[1].key == "type" && ms[1].value.Str?
         && (ms[1].value.text == "dir" || ms[1].value.text == "file")
      then Some(Entry(ms[0].value.text, ms[1].value.text == "dir"))
      else None
    case _ => None
  }

  function ReadEntries(vs: seq<Value>): Option<seq<Entry>> {
    if vs == [] then Some([])
    else
      var first, more := ReadEntry(vs[0]), ReadEntries(vs[1..]);
      if first.None? || more.None? then None else Some([first.value] + more.value)
  }

  function ReadView(v: Value): Option<View> {
    match v
    case Obj(ms) =>
      if |ms| == 3 && ms[0].key == "path" && ms[0].value.Str? && ms[1].key == "parent"
         && (ms[1].value.Str? || ms[1].value.Null?) && ms[2].key == "entries" && ms[2].value.Arr?
      then
        var entries := ReadEntries(ms[2].value.items);
        if entries.None? then None
        else Some(View(ms[0].value.text, if ms[1].value.Null? then None else Some(ms[1].value.text), entries.value))
      else None
    case _ => None
  }

  lemma {:induction false} EntriesReadBack(es: seq<Entry>)
    ensures ReadEntries(Values(es)) == Some(es)
  {
    if es != [] {
      EntriesReadBack(es[1..]);
      assert Values(es)[1..] == Values(es[1..]);
      assert ReadEntry(Values(es)[0]) == Some(es[0]) by { assert "dir" != "file"; }
      assert es == [es[0]] + es[1..];
    }
  }

  /** The listing of any directory, whatever bytes its names contain, is parsed back to
      that directory by a parser that works on bytes. A parser that first decodes UTF-8
      gets the same when the names are valid UTF-8. */
  lemma {:induction false} ListingReadsBack(path: string, contents: seq<Dirent>, shortcuts: seq<Dirent>)
    ensures var r := Answer(path, Some(contents), shortcuts);
            r.Ok? && var doc := Parse(r.body);
            doc.Some? && ReadView(doc.value) == Some(
              if path == "" then View("", None, Mounted(shortcuts))
              else View(path, Some(Cut(Parent(path), 1023)), Shown(contents)))
  {
    var v := if path == "" then View("", None, Mounted(shortcuts))
             else View(path, Some(Cut(Parent(path), 1023)), Shown(contents));
    PrintThenParse(Document(v));
    EntriesReadBack(v.entries);
  }

  // ----- what is listed -----

  /** `es` are the entries at the places `at` of the directory: the places are in order. */
  ghost predicate ListedAt(ds: seq<Dirent>, at: seq<nat>, es: seq<Entry>) {
    && |at| == |es|
    && (forall k: nat :: k < |at| ==>
          at[k] < |ds| && es[k].name == ds[at[k]].name && ds[at[k]].stat == Some(es[k].isDir))
    && (forall j: nat, k: nat :: j < k < |at| ==> at[j] < at[k])
  }

  lemma {:induction false} ListedMore(ds: seq<Dirent>, at: seq<nat>, es: seq<Entry>, more: Option<Entry>)
    requires ds != [] && ListedAt(ds[..|ds| - 1], at, es)
    requires more.Some? ==> ds[|ds| - 1] == Dirent(more.value.name, Some(more.value.isDir))
    ensures var n := |ds| - 1;
            ListedAt(ds, if more.Some? then at + [n] else at, if more.Some? then es + [more.value] else es)
  {
  }

  predicate Visible(d: Dirent) {
    d.name != "." && d.name != ".." && d.stat != None
  }

  /** A listing shows everything but ".", ".." and what has no status, in the order of the
      directory. */
  lemma {:induction false} ShownExactly(ds: seq<Dirent>) returns (at: seq<nat>)
    ensures ListedAt(ds, at, Shown(ds))
    ensures forall i: nat :: i < |ds| ==> (i in at <==> Visible(ds[i]))
    decreases |ds|
  {
    at := [];
    if ds != [] {
      var n := |ds| - 1;
      at := ShownExactly(ds[..n]);
      ListedMore(ds, at, Shown(ds[..n]), if Visible(ds[n]) then Some(Entry(ds[n].name, ds[n].stat.value)) else None);
      if Visible(ds[n]) { at := at + [n]; }
    }
  }

  lemma {:induction false} InMore(ds: seq<Dirent>, at: seq<nat>)
    requires ds != []
    ensures var n := |ds| - 1; n in at + [n] && forall i: nat :: i < n ==> (i in at + [n] <==> i in at)
  {
  }

  predicate IsDirectory(d: Dirent) {
    d.stat == Some(true)
  }

  /** The start page shows the shortcuts that are directories. */
  lemma {:induction false} MountedExactly(ds: seq<Dirent>) returns (at: seq<nat>)
    ensures ListedAt(ds, at, Mounted(ds))
    ensures forall i: nat :: i < |ds| ==> (i in at <==> IsDirectory(ds[i]))
    decreases |ds|
  {
    at := [];
    if ds != [] {
      var n := |ds| - 1;
      var front := Mounted(ds[..n]);
      at := MountedExactly(ds[..n]);
      if IsDirectory(ds[n]) {
        ListedMore(ds, at, front, Some(Entry(ds[n].name, true)));
        InMore(ds, at);
        at := at + [n];
      } else {
        ListedMore(ds, at, front, None);
      }
    }
  }

  /** Choosing a listed entry and going up leads back to the listed directory. */
  lemma {:induction false} ListedEntryLeadsBack(path: string, name: string, inner: seq<Dirent>, shortcuts: seq<Dirent>)
    requires path == "/" || (path != "" && !TrailingSlash(path))
    requires Component(name) && |JoinPath(path, name)| < 1024
    ensures var r := Answer(JoinPath(path, name), Some(inner), shortcuts);
            r.Ok? && var doc := Parse(r.body);
            doc.Some? && var v := ReadView(doc.value); v.Some? && v.value.parent == Some(path)
  {
    ParentUndoesJoin(path, name);
    ListingReadsBack(JoinPath(path, name), inner, shortcuts);
  }
}
