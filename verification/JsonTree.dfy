/**
 * JSON trees and their printer (json-c's json_object.c). A char stands for a byte. The members of an
 * object come in the order in which its hash table lists them.
 */
module JsonTree {
  import opened Decimal
  import HashTable

  datatype Member = Member(key: string, value: Json)

  datatype Json =
    | Null
    | Bool(b: bool)
    | Int(i: int)
    | Double(text: string)
    | Str(s: string)
    | Arr(items: seq<Json>)
    | Obj(members: seq<Member>)

  /** The members as the hash table holds them. */
  function Listed(members: seq<Member>): (l: seq<HashTable.Pair<string, Json>>)
    ensures |l| == |members| && forall i :: 0 <= i < |l| ==> l[i].key == members[i].key && l[i].value == members[i].value
  {
    seq(|members|, i requires 0 <= i < |members| => HashTable.Pair(members[i].key, members[i].value))
  }

  function FromListed(l: seq<HashTable.Pair<string, Json>>): (members: seq<Member>)
    ensures |l| == |members| && forall i :: 0 <= i < |l| ==> l[i].key == members[i].key && l[i].value == members[i].value
  {
    seq(|l|, i requires 0 <= i < |l| => Member(l[i].key, l[i].value))
  }

  /** json_object_object_add */
  function PutMember(members: seq<Member>, key: string, value: Json): (r: seq<Member>) {
    FromListed(HashTable.Put(Listed(members), key, value))
  }

  lemma PutNew(members: seq<Member>, key: string, value: Json)
    requires forall m <- members :: m.key != key
    ensures PutMember(members, key, value) == members + [Member(key, value)]
  {
  }

  const INT64_MIN: int := -0x8000_0000_0000_0000
  const INT64_MAX: int := 0x7fff_ffff_ffff_ffff

  /** What the library can hold, doubles aside: 64-bit numbers, and keys that are distinct C strings. */
  predicate Regular(v: Json) {
    match v
    case Int(i) => INT64_MIN <= i <= INT64_MAX
    case Double(_) => false
    case Arr(items) => forall x <- items :: Regular(x)
    case Obj(members) =>
      && HashTable.DistinctKeys(Listed(members))
      && (forall m <- members :: '\0' !in m.key && Regular(m.value))
    case _ => true
  }

  /** How many levels the deepest value lies below v. */
  function Height(v: Json): (h: nat)
    ensures v.Arr? ==> forall x <- v.items :: Height(x) < h
    ensures v.Obj? ==> forall m <- v.members :: Height(m.value) < h
  {
    match v
    case Arr(items) => if items == [] then 0 else 1 + Highest(items)
    case Obj(members) => if members == [] then 0 else 1 + HighestMember(members)
    case _ => 0
  }

  function Highest(items: seq<Json>): (h: nat)
    ensures forall x <- items :: Height(x) <= h
  {
    if items == [] then 0
    else
      var a, b := Height(items[0]), Highest(items[1..]);
      if a < b then b else a
  }

  function HighestMember(members: seq<Member>): (h: nat)
    ensures forall m <- members :: Height(m.value) <= h
  {
    if members == [] then 0
    else
      var a, b := Height(members[0].value), HighestMember(members[1..]);
      if a < b then b else a
  }

  // ----- Printing -----

  const BACKSPACE: char := '\U{08}'
  const FORM_FEED: char := '\U{0C}'

  datatype Layout = Layout(spaced: bool, pretty: bool, tabs: bool, bareSlash: bool)

  function Newline(f: Layout): string { if f.pretty then "\n" else "" }

  function Space(f: Layout): string { if f.spaced then " " else "" }

  function Repeat(c: char, n: nat): (s: string)
    ensures |s| == n && forall i :: 0 <= i < n ==> s[i] == c
  {
    if n == 0 then "" else Repeat(c, n - 1) + [c]
  }

  function Indent(level: nat, f: Layout): string {
    if !f.pretty then "" else if f.tabs then Repeat('\t', level) else Repeat(' ', 2 * level)
  }

  function HexDigit(d: nat): (c: char)
    requires d < 16
  {
    if d < 10 then '0' + d as char else 'a' + (d - 10) as char
  }

  /** One character of a string, escaped. */
  function EscapeChar(c: char, f: Layout): (s: string)
    ensures s != ""
  {
    if c == BACKSPACE then "\\b"
    else if c == '\n' then "\\n"
    else if c == '\r' then "\\r"
    else if c == '\t' then "\\t"
    else if c == FORM_FEED then "\\f"
    else if c == '\"' then "\\\""
    else if c == '\\' then "\\\\"
    else if c == '/' then (if f.bareSlash then "/" else "\\/")
    else if c < ' ' then "\\u00" + [HexDigit(c as int / 16), HexDigit(c as int % 16)]
    else [c]
  }

  function Escape(u: string, f: Layout): string {
    if u == "" then "" else EscapeChar(u[0], f) + Escape(u[1..], f)
  }

  /** json_escape_str: runs of plain characters are copied together, the others one by one. */
  method EscapeString(pb: string, str: string, f: Layout) returns (pb': string)
    ensures pb' == pb + Escape(str, f)
  {
    hide Escape;
    pb' := pb;
    var pos, start := 0, 0;
    assert Escape("", f) == "" by { EscapeNothing(f); }
    while pos < |str|
      invariant 0 <= start <= pos <= |str|
      invariant pb' + str[start..pos] == pb + Escape(str[..pos], f)
    {
      var c := str[pos];
      assert str[..pos + 1] == str[..pos] + [c];
      EscapeAppends(str[..pos], c, f);
      assert pb + Escape(str[..pos + 1], f) == (pb' + str[start..pos]) + EscapeChar(c, f);
      assert str[start..pos + 1] == str[start..pos] + [c];
      if c == '/' && f.bareSlash {
        pos := pos + 1;
      } else if c in [BACKSPACE, '\n', '\r', '\t', FORM_FEED, '\"', '\\', '/'] || c < ' ' {
        if pos - start > 0 {
          pb' := pb' + str[start..pos];
        }
        pb' := pb' + EscapeChar(c, f);
        pos := pos + 1;
        start := pos;
      } else {
        pos := pos + 1;
      }
    }
    assert str[..pos] == str;
    if pos - start > 0 {
      pb' := pb' + str[start..pos];
    }
  }

  lemma EscapeNothing(f: Layout)
    ensures Escape("", f) == ""
  {}

  lemma {:induction false} EscapeAppends(u: string, c: char, f: Layout)
    ensures Escape(u + [c], f) == Escape(u, f) + EscapeChar(c, f)
  {
    if u == "" {
      assert u + [c] == [c];
    } else {
      assert (u + [c])[1..] == u[1..] + [c];
      EscapeAppends(u[1..], c, f);
    }
  }

  /** The printers of all types; level is the indentation depth. */
  function Print(v: Json, level: nat, f: Layout): (s: string)
    decreases v, 0
  {
    match v
    case Null => "null"
    case Bool(b) => if b then "true" else "false"
    case Int(i) => Printed(i)
    case Double(text) => text
    case Str(u) => "\"" + (Escape(u, f) + "\"")
    case Arr(items) => "[" + (Newline(f) + (PrintItems(items, level, f, false) + Close(level, f, items != [], ']')))
    case Obj(members) => "{" + (Newline(f) + (PrintMembers(members, level, f, false) + Close(level, f, members != [], '}')))
  }

  function Comma(had: bool, f: Layout): string {
    if had then "," + Newline(f) else ""
  }

  function Close(level: nat, f: Layout, had: bool, bracket: char): string {
    (if had then Newline(f) else "") + (Indent(level, f) + (Space(f) + [bracket]))
  }

  function PrintItems(items: seq<Json>, level: nat, f: Layout, had: bool): (s: string)
    decreases items, 1
  {
    if items == [] then ""
    else Comma(had, f) + (Space(f) + (Indent(level + 1, f) + (Print(items[0], level + 1, f) + PrintItems(items[1..], level, f, true))))
  }

  function PrintMembers(members: seq<Member>, level: nat, f: Layout, had: bool): (s: string)
    decreases members, 1
  {
    if members == [] then ""
    else
      var m := members[0];
      Comma(had, f) + (Space(f) + (Indent(level + 1, f) + ("\"" + (Escape(m.key, f) + ("\":" + (Space(f) +
      (Print(m.value, level + 1, f) + PrintMembers(members[1..], level, f, true))))))))
  }
}
