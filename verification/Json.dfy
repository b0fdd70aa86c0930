/**
 * JSON text (RFC 8259): a value, its compact print with the escapes of
 * `json_escape_append`, and an independent parser. Numbers, `true` and `false`
 * never occur in the directory listing and are not part of it. A `char` stands
 * for one byte; bytes from 0x80 up stand for themselves in strings.
 */
module Json {
  import opened Words

  datatype Value = Null | Str(text: string) | Arr(items: seq<Value>) | Obj(members: seq<Member>)
  datatype Member = Member(key: string, value: Value)

  // ----- printing -----

  const HEX: string := "0123456789abcdef"

  /** One byte inside a string. */
  function Escape(c: char): string {
    if c == '"' || c == '\\' then ['\\', c]
    else if c < ' ' then ['\\', 'u', '0', '0', HEX[c as int / 16], HEX[c as int % 16]]
    else [c]
  }

  function Escaped(s: string): string {
    if s == "" then "" else Escape(s[0]) + Escaped(s[1..])
  }

  function Quoted(s: string): string {
    "\"" + (Escaped(s) + "\"")
  }

  function Print(v: Value): string
    decreases v, 1, 0
  {
    match v
    case Null => "null"
    case Str(text) => Quoted(text)
    case Arr(items) => "[" + (PrintItems(items, v) + "]")
    case Obj(members) => "{" + (PrintMembers(members, v) + "}")
  }

  function PrintItems(items: seq<Value>, ghost whole: Value): string
    requires forall i :: 0 <= i < |items| ==> items[i] < whole
    decreases whole, 0, |items|
  {
    if items == [] then ""
    else if |items| == 1 then Print(items[0])
    else Print(items[0]) + ("," + PrintItems(items[1..], whole))
  }

  function PrintMembers(members: seq<Member>, ghost whole: Value): string
    requires forall i :: 0 <= i < |members| ==> members[i] < whole
    decreases whole, 0, |members|
  {
    if members == [] then ""
    else if |members| == 1 then Quoted(members[0].key) + (":" + Print(members[0].value))
    else Quoted(members[0].key) + (":" + (Print(members[0].value) + ("," + PrintMembers(members[1..], whole))))
  }

  // ----- parsing -----

  datatype Parsed<+T> = Fail | Got(value: T, rest: string)

  function FourDigits(s: string): Option<nat>
    requires |s| >= 4
  {
    var a, b, c, d := HexValue(s[0]), HexValue(s[1]), HexValue(s[2]), HexValue(s[3]);
    if a.Some? && b.Some? && c.Some? && d.Some?
    then Some(a.value * 0x1000 + b.value * 0x100 + c.value * 0x10 + d.value)
    else None
  }

  /** The UTF-8 bytes of a code unit below 0x10000. */
  function Bytes8(code: nat): string {
    if code < 0x80 then [code as char]
    else if code < 0x800 then [(0xC0 + code / 0x40) as char, (0x80 + code % 0x40) as char]
    else if code < 0x1_0000 then
      [(0xE0 + code / 0x1000) as char, (0x80 + code / 0x40 % 0x40) as char, (0x80 + code % 0x40) as char]
    else ""
  }

  /** One character of a string: the bytes it stands for, and the rest. */
  function ScanChar(s: string): (r: Parsed<string>)
    ensures r.Got? ==> |r.rest| < |s|
  {
    if s == "" || s[0] < ' ' then Fail
    else if s[0] != '\\' then Got([s[0]], s[1..])
    else if |s| < 2 then Fail
    else match s[1]
      case '"' => Got("\"", s[2..])
      case '\\' => Got("\\", s[2..])
      case '/' => Got("/", s[2..])
      case 'b' => Got([8 as char], s[2..])
      case 'f' => Got([12 as char], s[2..])
      case 'n' => Got("\n", s[2..])
      case 'r' => Got("\r", s[2..])
      case 't' => Got("\t", s[2..])
      case 'u' =>
        if |s| < 6 then Fail
        else
          var code := FourDigits(s[2..6]);
          if code.None? then Fail else Got(Bytes8(code.value), s[6..])
      case _ => Fail
  }

  /** The rest of a string after its opening quote (section 7 of RFC 8259). */
  function ScanString(s: string): (r: Parsed<string>)
    ensures r.Got? ==> |r.rest| < |s|
    decreases |s|
  {
    if s != "" && s[0] == '"' then Got("", s[1..])
    else
      var c := ScanChar(s);
      if c.Fail? then Fail
      else
        var more := ScanString(c.rest);
        if more.Fail? then Fail else Got(c.value + more.value, more.rest)
  }

  function Skip(s: string): (r: string)
    ensures |r| <= |s|
  {
    if s != "" && s[0] in {' ', '\t', '\n', '\r'} then Skip(s[1..]) else s
  }

  predicate Starts(s: string, c: char) {
    s != "" && s[0] == c
  }

  function ParseValue(given: string): (r: Parsed<Value>)
    ensures r.Got? ==> |r.rest| < |given|
    decreases |given|, 1
  {
    var s := Skip(given);
    if Starts(s, '"') then
      var t := ScanString(s[1..]);
      if t.Fail? then Fail else Got(Str(t.value), t.rest)
    else if Starts(s, '[') then
      if Starts(Skip(s[1..]), ']') then Got(Arr([]), Skip(s[1..])[1..])
      else
        var items := ParseItems(s[1..]);
        if items.Fail? then Fail else Got(Arr(items.value), items.rest)
    else if Starts(s, '{') then
      if Starts(Skip(s[1..]), '}') then Got(Obj([]), Skip(s[1..])[1..])
      else
        var members := ParseMembers(s[1..]);
        if members.Fail? then Fail else Got(Obj(members.value), members.rest)
    else if |s| >= 4 && s[..4] == "null" then Got(Null, s[4..])
    else Fail
  }

  function ParseItems(s: string): (r: Parsed<seq<Value>>)
    ensures r.Got? ==> |r.rest| < |s|
    decreases |s|, 2
  {
    var first := ParseValue(s);
    if first.Fail? then Fail
    else
      var after := Skip(first.rest);
      if Starts(after, ']') then Got([first.value], after[1..])
      else if !Starts(after, ',') then Fail
      else
        var more := ParseItems(after[1..]);
        if more.Fail? then Fail else Got([first.value] + more.value, more.rest)
  }

  function ParseMember(given: string): (r: Parsed<Member>)
    ensures r.Got? ==> |r.rest| < |given|
    decreases |given|, 2
  {
    var s := Skip(given);
    if !Starts(s, '"') then Fail
    else
      var key := ScanString(s[1..]);
      if key.Fail? then Fail
      else
        var after := Skip(key.rest);
        if !Starts(after, ':') then Fail
        else
          var v := ParseValue(after[1..]);
          if v.Fail? then Fail else Got(Member(key.value, v.value), v.rest)
  }

  function ParseMembers(s: string): (r: Parsed<seq<Member>>)
    ensures r.Got? ==> |r.rest| < |s|
    decreases |s|, 3
  {
    var first := ParseMember(s);
    if first.Fail? then Fail
    else
      var after := Skip(first.rest);
      if Starts(after, '}') then Got([first.value], after[1..])
      else if !Starts(after, ',') then Fail
      else
        var more := ParseMembers(after[1..]);
        if more.Fail? then Fail else Got([first.value] + more.value, more.rest)
  }

  /** A whole document. */
  function Parse(s: string): Option<Value> {
    var v := ParseValue(s);
    if v.Got? && Skip(v.rest) == "" then Some(v.value) else None
  }

  // ----- round trip -----

  lemma {:induction false} HexDigit(n: nat)
    requires n < 16
    ensures HexValue(HEX[n]) == Some(n)
  {
    assert HEX == ['0', '1', '2', '3', '4', '5', '6', '7', '8', '9', 'a', 'b', 'c', 'd', 'e', 'f'];
  }

  /** An escaped byte is scanned as that byte, whatever follows it. */
  lemma {:induction false} ScanEscape(c: char, rest: string)
    ensures ScanChar(Escape(c) + rest) == Got([c], rest)
    ensures !Starts(Escape(c) + rest, '"')
  {
    var s := Escape(c) + rest;
    if c == '"' || c == '\\' {
      assert s[2..] == rest && s[1] == c;
    } else if c < ' ' {
      var n := c as int;
      HexDigit(n / 16);
      HexDigit(n % 16);
      assert s[2..6] == ['0', '0', HEX[n / 16], HEX[n % 16]];
      assert HexValue('0') == Some(0);
      assert s[6..] == rest && s[1] == 'u';
      assert FourDigits(s[2..6]) == Some(n);
    } else {
      assert s[1..] == rest;
    }
  }

  /** The scanner stops exactly at the closing quote. */
  lemma {:induction false} ScanEscaped(s: string, rest: string)
    ensures ScanString(Escaped(s) + ("\"" + rest)) == Got(s, rest)
  {
    var tail := "\"" + rest;
    if s == "" {
      assert "" + tail == tail && tail[1..] == rest;
    } else {
      var more := Escaped(s[1..]) + tail;
      ScanEscape(s[0], more);
      ScanEscaped(s[1..], rest);
      ScanStep(Escape(s[0]) + more, s[0], more, s[1..], rest);
      Assoc(Escape(s[0]), Escaped(s[1..]), tail);
      assert s == [s[0]] + s[1..];
    }
  }

  lemma {:induction false} ScanStep(text: string, c: char, more: string, later: string, rest: string)
    requires !Starts(text, '"') && ScanChar(text) == Got([c], more) && ScanString(more) == Got(later, rest)
    ensures ScanString(text) == Got([c] + later, rest)
  {
  }

  lemma {:induction false} QuotedParts(s: string, rest: string)
    ensures Starts(Quoted(s) + rest, '"') && Skip(Quoted(s) + rest) == Quoted(s) + rest
    ensures ScanString((Quoted(s) + rest)[1..]) == Got(s, rest)
  {
    QuotedStarts(s, rest);
    ScanEscaped(s, rest);
  }

  lemma {:induction false} QuotedStarts(s: string, rest: string)
    ensures Starts(Quoted(s) + rest, '"') && Skip(Quoted(s) + rest) == Quoted(s) + rest
    ensures (Quoted(s) + rest)[1..] == Escaped(s) + ("\"" + rest)
  {
  }

  /** The first character of a printed value tells its kind. */
  lemma {:induction false} PrintStarts(v: Value, rest: string)
    ensures var s := Print(v) + rest;
            Skip(s) == s
            && s != "" && s[0] == (match v case Null => 'n' case Str(_) => '"' case Arr(_) => '[' case Obj(_) => '{')
  {
  }

  lemma {:induction false} Separator(c: char, rest: string)
    requires c == ',' || c == ':' || c == ']' || c == '}' || c == '"'
    ensures Skip([c] + rest) == [c] + rest && Starts([c] + rest, c) && ([c] + rest)[1..] == rest
  {
  }

  /** Parsing a printed value gives the value back, whatever follows it. */
  lemma {:induction false} ValuePrinted(v: Value, rest: string)
    ensures ParseValue(Print(v) + rest) == Got(v, rest)
    decreases v, 1, 0
  {
    var s := Print(v) + rest;
    PrintStarts(v, rest);
    match v {
      case Null =>
        assert s[..4] == "null" && s[4..] == rest;
      case Str(text) =>
        QuotedParts(text, rest);
      case Arr(items) =>
        ArrayPrinted(items, v, rest);
      case Obj(members) =>
        ObjectPrinted(members, v, rest);
    }
  }

  lemma {:induction false} ArrayPrinted(items: seq<Value>, v: Value, rest: string)
    requires v == Arr(items)
    ensures ParseValue(Print(v) + rest) == Got(v, rest)
    decreases v, 0, |items| + 1
  {
    PrintStarts(v, rest);
    assert (Print(v) + rest)[1..] == PrintItems(items, v) + ("]" + rest);
    Separator(']', rest);
    if items == [] {
      assert "" + ("]" + rest) == "]" + rest;
    } else {
      ItemsPrinted(items, v, rest);
      ItemsStart(items, v, "]" + rest);
    }
  }

  lemma {:induction false} ObjectPrinted(members: seq<Member>, v: Value, rest: string)
    requires v == Obj(members)
    ensures ParseValue(Print(v) + rest) == Got(v, rest)
    decreases v, 0, |members| + 1
  {
    ObjectStarts(members, v, rest);
    if members == [] {
      EmptyObject(Print(v) + rest, rest);
    } else {
      MembersPrinted(members, v, rest);
      MembersStart(members, v, "}" + rest);
      ObjectParsed(Print(v) + rest, members, rest);
    }
  }

  lemma {:induction false} ObjectStarts(members: seq<Member>, v: Value, rest: string)
    requires v == Obj(members)
    ensures Starts(Print(v) + rest, '{') && Skip(Print(v) + rest) == Print(v) + rest
    ensures (Print(v) + rest)[1..] == PrintMembers(members, v) + ("}" + rest)
  {
    PrintStarts(v, rest);
  }

  lemma {:induction false} EmptyObject(text: string, rest: string)
    requires Starts(text, '{') && Skip(text) == text && text[1..] == "" + ("}" + rest)
    ensures ParseValue(text) == Got(Obj([]), rest)
  {
    Separator('}', rest);
    assert "" + ("}" + rest) == "}" + rest;
  }

  lemma {:induction false} ObjectParsed(text: string, members: seq<Member>, rest: string)
    requires Starts(text, '{') && Skip(text) == text && !Starts(Skip(text[1..]), '}')
    requires ParseMembers(text[1..]) == Got(members, rest)
    ensures ParseValue(text) == Got(Obj(members), rest)
  {
  }

  lemma {:induction false} ItemsStart(items: seq<Value>, whole: Value, rest: string)
    requires items != [] && forall i :: 0 <= i < |items| ==> items[i] < whole
    ensures !Starts(Skip(PrintItems(items, whole) + rest), ']')
  {
    var tail := if |items| == 1 then rest else "," + PrintItems(items[1..], whole) + rest;
    PrintStarts(items[0], tail);
    assert PrintItems(items, whole) + rest == Print(items[0]) + tail;
  }

  lemma {:induction false} MembersStart(members: seq<Member>, whole: Value, rest: string)
    requires members != [] && forall i :: 0 <= i < |members| ==> members[i] < whole
    ensures !Starts(Skip(PrintMembers(members, whole) + rest), '}')
  {
    assert Quoted(members[0].key)[0] == '"';
  }

  lemma {:induction false} ItemsPrinted(items: seq<Value>, whole: Value, rest: string)
    requires items != [] && forall i :: 0 <= i < |items| ==> items[i] < whole
    ensures ParseItems(PrintItems(items, whole) + ("]" + rest)) == Got(items, rest)
    decreases whole, 0, |items|
  {
    var close := "]" + rest;
    Separator(']', rest);
    if |items| == 1 {
      ValuePrinted(items[0], close);
      assert items == [items[0]];
    } else {
      var more := PrintItems(items[1..], whole) + close;
      ItemsPrinted(items[1..], whole, rest);
      ValuePrinted(items[0], "," + more);
      Separator(',', more);
      Assoc3(Print(items[0]), ",", PrintItems(items[1..], whole), close);
      assert PrintItems(items, whole) + close == Print(items[0]) + ("," + more);
      assert items == [items[0]] + items[1..];
    }
  }

  lemma {:induction false} Assoc3(a: string, b: string, c: string, d: string)
    ensures (a + (b + c)) + d == a + (b + (c + d))
  {
  }

  lemma {:induction false} Assoc5(a: string, b: string, c: string, d: string, e: string, f: string)
    ensures (a + (b + (c + (d + e)))) + f == a + (b + (c + (d + (e + f))))
  {
    Assoc3(c, d, e, f);
    Assoc3(a, b, c + (d + e), f);
  }

  lemma {:induction false} MemberPrinted(m: Member, rest: string)
    ensures ParseMember(Quoted(m.key) + (":" + (Print(m.value) + rest))) == Got(m, rest)
    decreases m, 2, 0
  {
    var after := Print(m.value) + rest;
    QuotedParts(m.key, ":" + after);
    Separator(':', after);
    ValuePrinted(m.value, rest);
  }

  lemma {:induction false} MembersPrinted(members: seq<Member>, whole: Value, rest: string)
    requires members != [] && forall i :: 0 <= i < |members| ==> members[i] < whole
    ensures ParseMembers(PrintMembers(members, whole) + ("}" + rest)) == Got(members, rest)
    decreases whole, 0, |members|
  {
    var m, close := members[0], "}" + rest;
    if |members| == 1 {
      MemberPrinted(m, close);
      LastOfMembers(Quoted(m.key) + (":" + (Print(m.value) + close)), m, rest);
      Assoc3(Quoted(m.key), ":", Print(m.value), close);
      assert members == [m];
    } else {
      var tail := members[1..];
      MembersPrinted(tail, whole, rest);
      MemberPrinted(m, "," + (PrintMembers(tail, whole) + close));
      FirstOfMembers(m, PrintMembers(tail, whole) + close, tail, rest);
      Assoc5(Quoted(m.key), ":", Print(m.value), ",", PrintMembers(tail, whole), close);
      assert members == [m] + tail;
    }
  }

  /** A member and the closing brace. */
  lemma {:induction false} LastOfMembers(text: string, m: Member, rest: string)
    requires ParseMember(text) == Got(m, "}" + rest)
    ensures ParseMembers(text) == Got([m], rest)
  {
    Separator('}', rest);
  }

  /** A member, a comma, and text that parses to the later members. */
  lemma {:induction false} FirstOfMembers(m: Member, more: string, tail: seq<Member>, rest: string)
    requires ParseMembers(more) == Got(tail, rest)
    requires ParseMember(Quoted(m.key) + (":" + (Print(m.value) + ("," + more)))) == Got(m, "," + more)
    ensures ParseMembers(Quoted(m.key) + (":" + (Print(m.value) + ("," + more)))) == Got([m] + tail, rest)
  {
    Separator(',', more);
  }

  /** Every value survives printing and parsing. */
  lemma {:induction false} PrintThenParse(v: Value)
    ensures Parse(Print(v)) == Some(v)
  {
    ValuePrinted(v, "");
    assert Print(v) + "" == Print(v);
  }
}
