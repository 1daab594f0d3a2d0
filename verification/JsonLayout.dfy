/**
 * What a printed text looks like: the compact text of a tree, and a scanner that lays any JSON text out by
 * looking at its brackets, commas, colons and quotes only. The printer of json_object.c writes the one laid
 * out by the other.
 */
module JsonLayout {
  import opened Arith
  import opened Decimal
  import opened JsonTree
  import opened JsonUnicode

  // ----- The compact text -----

  /** How a character is written in a string, by its code. */
  function Spell(c: char, bare: bool): string {
    var n := c as int;
    if n == 0x08 then "\\b" else if n == 0x09 then "\\t" else if n == 0x0A then "\\n"
    else if n == 0x0C then "\\f" else if n == 0x0D then "\\r" else if n == 0x22 then "\\\""
    else if n == 0x5C then "\\\\" else if n == 0x2F then (if bare then "/" else "\\/")
    else if n < 0x20 then "\\u00" + [LOWER_HEX[n / 16], LOWER_HEX[n % 16]] else [c]
  }

  function Quoted(u: string, bare: bool): string {
    if u == "" then "" else Spell(u[0], bare) + Quoted(u[1..], bare)
  }

  /** A tree without any white space. */
  function Compact(v: Json, bare: bool): string
    decreases v, 0
  {
    match v
    case Null => "null"
    case Bool(b) => if b then "true" else "false"
    case Int(i) => Printed(i)
    case Double(text) => text
    case Str(u) => "\"" + (Quoted(u, bare) + "\"")
    case Arr(items) => "[" + (CompactItems(items, bare, true) + "]")
    case Obj(members) => "{" + (CompactMembers(members, bare, true) + "}")
  }

  function CompactItems(items: seq<Json>, bare: bool, first: bool): string
    decreases items, 1
  {
    if items == [] then ""
    else (if first then "" else ",") + (Compact(items[0], bare) + CompactItems(items[1..], bare, false))
  }

  function CompactMembers(members: seq<Member>, bare: bool, first: bool): string
    decreases members, 1
  {
    if members == [] then ""
    else
      (if first then "" else ",") + ("\"" + (Quoted(members[0].key, bare) + ("\":" +
      (Compact(members[0].value, bare) + CompactMembers(members[1..], bare, false)))))
  }

  // ----- Laying out a text -----

  /** What stands before the place: an opening bracket, a comma, or neither. */
  datatype Gap = Tight | Opened | Separated

  function Blank(f: Layout): string { if f.spaced then " " else "" }

  function Break(f: Layout): string { if f.pretty then "\n" else "" }

  /** Two spaces or a tab for each open bracket. */
  function Margin(depth: nat, f: Layout): string {
    if !f.pretty then "" else if f.tabs then seq(depth, _ => '\t') else seq(2 * depth, _ => ' ')
  }

  /** Before an element or a member. */
  function Lead(gap: Gap, depth: nat, f: Layout): string {
    if gap.Tight? then "" else Blank(f) + Margin(depth, f)
  }

  /** Before a closing bracket. */
  function Tail(gap: Gap, depth: nat, f: Layout): string {
    (if gap.Opened? then "" else Break(f)) + (Margin(depth, f) + Blank(f))
  }

  /**
   * The text s laid out: a line break after each opening bracket and comma and before the bracket that closes
   * a list with something in it, margins by the number of open brackets, and the blanks. Strings are copied.
   */
  function Laid(s: string, depth: nat, inside: bool, gap: Gap, f: Layout): string
    decreases |s|
  {
    if s == "" then ""
    else if inside then
      if s[0] == '\\' && |s| > 1 then s[..2] + Laid(s[2..], depth, true, Tight, f)
      else [s[0]] + Laid(s[1..], depth, s[0] != '\"', Tight, f)
    else if s[0] == '[' || s[0] == '{' then
      Lead(gap, depth, f) + ([s[0]] + (Break(f) + Laid(s[1..], depth + 1, false, Opened, f)))
    else if s[0] == ']' || s[0] == '}' then
      var d := if depth == 0 then 0 else depth - 1;
      Tail(gap, d, f) + ([s[0]] + Laid(s[1..], d, false, Tight, f))
    else if s[0] == ',' then "," + (Break(f) + Laid(s[1..], depth, false, Separated, f))
    else if s[0] == ':' then ":" + (Blank(f) + Laid(s[1..], depth, false, Tight, f))
    else Lead(gap, depth, f) + ([s[0]] + Laid(s[1..], depth, s[0] == '\"', Tight, f))
  }

  /** The text s without white space outside strings. */
  function Squeezed(s: string, inside: bool): string
    decreases |s|
  {
    if s == "" then ""
    else if inside then
      if s[0] == '\\' && |s| > 1 then s[..2] + Squeezed(s[2..], true)
      else [s[0]] + Squeezed(s[1..], s[0] != '\"')
    else if s[0] in [' ', '\t', '\n', '\r'] then Squeezed(s[1..], false)
    else [s[0]] + Squeezed(s[1..], s[0] == '\"')
  }

  // ----- Strings -----

  /** The printer's escapes are those of the table. */
  lemma SpellIs(c: char, f: Layout)
    ensures EscapeChar(c, f) == Spell(c, f.bareSlash)
  {
    if c < ' ' {
      LowerHexAt(c as int / 16);
      LowerHexAt(c as int % 16);
    }
  }

  lemma {:induction false} QuotedIs(u: string, f: Layout)
    ensures Escape(u, f) == Quoted(u, f.bareSlash)
  {
    if u != "" {
      SpellIs(u[0], f);
      QuotedIs(u[1..], f);
    }
    hide EscapeChar, Spell;
  }

  /** One spelled character does not end a string. */
  lemma LaidSpell(c: char, bare: bool, rest: string, depth: nat, f: Layout)
    ensures Laid(Spell(c, bare) + rest, depth, true, Tight, f) == Spell(c, bare) + Laid(rest, depth, true, Tight, f)
    ensures Squeezed(Spell(c, bare) + rest, true) == Spell(c, bare) + Squeezed(rest, true)
  {
    var e := Spell(c, bare);
    SpellShape(c, bare);
    hide Spell;
    if |e| == 1 {
      LaidCopied(e, rest, depth, f);
    } else {
      var h := e[2..];
      LaidPair(e[..2], h + rest, depth, f);
      assert e == e[..2] + h && e + rest == e[..2] + (h + rest);
      LaidCopied(h, rest, depth, f);
      Regrouped(e[..2], h, Laid(rest, depth, true, Tight, f));
      Regrouped(e[..2], h, Squeezed(rest, true));
    }
  }

  /** One plain character, or a backslash, a letter and perhaps four digits. */
  lemma SpellShape(c: char, bare: bool)
    ensures var e := Spell(c, bare);
      && e != "" && (|e| == 1 ==> e[0] != '\\' && e[0] != '\"') && (|e| > 1 ==> e[0] == '\\')
      && forall i :: 2 <= i < |e| ==> e[i] != '\\' && e[i] != '\"' && e[i] != '/'
  {
    if c < ' ' {
      LowerHexAt(c as int / 16);
      LowerHexAt(c as int % 16);
    }
  }

  lemma LaidPair(e: string, x: string, depth: nat, f: Layout)
    requires |e| == 2 && e[0] == '\\'
    ensures Laid(e + x, depth, true, Tight, f) == e + Laid(x, depth, true, Tight, f)
    ensures Squeezed(e + x, true) == e + Squeezed(x, true)
  {
    assert (e + x)[..2] == e && (e + x)[2..] == x;
  }

  lemma {:induction false} LaidCopied(h: string, rest: string, depth: nat, f: Layout)
    requires forall i :: 0 <= i < |h| ==> h[i] != '\\' && h[i] != '\"'
    ensures Laid(h + rest, depth, true, Tight, f) == h + Laid(rest, depth, true, Tight, f)
    ensures Squeezed(h + rest, true) == h + Squeezed(rest, true)
  {
    if h == "" {
      assert h + rest == rest;
    } else {
      assert (h + rest)[1..] == h[1..] + rest;
      LaidCopied(h[1..], rest, depth, f);
    }
  }

  /** A quoted text and its closing quote are copied. */
  lemma {:induction false} LaidQuoted(u: string, bare: bool, rest: string, depth: nat, f: Layout)
    ensures Laid(Quoted(u, bare) + ("\"" + rest), depth, true, Tight, f) == Quoted(u, bare) + ("\"" + Laid(rest, depth, false, Tight, f))
    ensures Squeezed(Quoted(u, bare) + ("\"" + rest), true) == Quoted(u, bare) + ("\"" + Squeezed(rest, false))
  {
    hide Laid, Squeezed, Spell;
    if u == "" {
      assert Quoted(u, bare) + ("\"" + rest) == "\"" + rest;
      LaidClosing(rest, depth, f);
    } else {
      var c, q := Spell(u[0], bare), Quoted(u[1..], bare);
      var more := q + ("\"" + rest);
      assert Quoted(u, bare) + ("\"" + rest) == c + more;
      LaidQuoted(u[1..], bare, rest, depth, f);
      LaidSpell(u[0], bare, more, depth, f);
      Regrouped(c, q, "\"" + Laid(rest, depth, false, Tight, f));
      Regrouped(c, q, "\"" + Squeezed(rest, false));
    }
  }

  lemma Regrouped(x: string, y: string, z: string)
    ensures x + (y + z) == (x + y) + z
  {}

  lemma LaidClosing(rest: string, depth: nat, f: Layout)
    ensures Laid("\"" + rest, depth, true, Tight, f) == "\"" + Laid(rest, depth, false, Tight, f)
    ensures Squeezed("\"" + rest, true) == "\"" + Squeezed(rest, false)
  {
    assert ("\"" + rest)[1..] == rest;
  }

  // ----- Words -----

  predicate Structural(c: char) { c in ['[', ']', '{', '}', ',', ':', '\"'] }

  lemma {:induction false} LaidWord(w: string, rest: string, depth: nat, gap: Gap, f: Layout)
    requires w != "" && forall i :: 0 <= i < |w| ==> !Structural(w[i]) && w[i] !in [' ', '\t', '\n', '\r']
    ensures Laid(w + rest, depth, false, gap, f) == Lead(gap, depth, f) + (w + Laid(rest, depth, false, Tight, f))
    ensures Squeezed(w + rest, false) == w + Squeezed(rest, false)
    decreases |w|
  {
    hide Laid, Squeezed, Lead, Structural;
    var more := w[1..] + rest;
    assert w + rest == [w[0]] + more && w == [w[0]] + w[1..];
    assert !Structural(w[0]);
    LaidChar(w[0], more, depth, gap, f);
    if |w| == 1 {
      assert more == rest && [w[0]] == w;
    } else {
      assert forall i :: 0 <= i < |w[1..]| ==> w[1..][i] == w[i + 1];
      LaidWord(w[1..], rest, depth, Tight, f);
      assert Lead(Tight, depth, f) == "" by { NoLead(depth, f); }
      Regrouped([w[0]], w[1..], Laid(rest, depth, false, Tight, f));
      Regrouped([w[0]], w[1..], Squeezed(rest, false));
    }
  }

  lemma NoLead(depth: nat, f: Layout)
    ensures Lead(Tight, depth, f) == ""
  {}

  lemma LaidChar(c: char, rest: string, depth: nat, gap: Gap, f: Layout)
    requires !Structural(c) && c !in [' ', '\t', '\n', '\r']
    ensures Laid([c] + rest, depth, false, gap, f) == Lead(gap, depth, f) + ([c] + Laid(rest, depth, false, Tight, f))
    ensures Squeezed([c] + rest, false) == [c] + Squeezed(rest, false)
  {
    assert ([c] + rest)[1..] == rest;
  }

  /** Brackets, commas, colons and quotes. */
  lemma LaidMark(c: char, rest: string, depth: nat, gap: Gap, f: Layout)
    ensures c == '[' || c == '{' ==>
      Laid([c] + rest, depth, false, gap, f) == Lead(gap, depth, f) + ([c] + (Break(f) + Laid(rest, depth + 1, false, Opened, f)))
    ensures c == ']' || c == '}' ==>
      Laid([c] + rest, depth + 1, false, gap, f) == Tail(gap, depth, f) + ([c] + Laid(rest, depth, false, Tight, f))
    ensures c == ',' ==> Laid([c] + rest, depth, false, gap, f) == [c] + (Break(f) + Laid(rest, depth, false, Separated, f))
    ensures c == ':' ==> Laid([c] + rest, depth, false, gap, f) == [c] + (Blank(f) + Laid(rest, depth, false, Tight, f))
    ensures c == '\"' ==> Laid([c] + rest, depth, false, gap, f) == Lead(gap, depth, f) + ([c] + Laid(rest, depth, true, Tight, f))
    ensures Structural(c) ==> Squeezed([c] + rest, false) == [c] + Squeezed(rest, c == '\"')
  {
    assert ([c] + rest)[1..] == rest;
  }

  // ----- The printer -----

  /** The printer's own pieces are those of the description. */
  lemma LayoutPieces(depth: nat, f: Layout)
    ensures Newline(f) == Break(f) && Space(f) == Blank(f) && Indent(depth, f) == Margin(depth, f)
  {}

  lemma ScalarText(v: Json, bare: bool)
    requires Regular(v) && !v.Arr? && !v.Obj? && !v.Str?
    ensures var w := Compact(v, bare);
      w != "" && forall i :: 0 <= i < |w| ==> !Structural(w[i]) && w[i] !in [' ', '\t', '\n', '\r']
  {
    if v.Int? { PrintedChars(v.i); }
  }

  lemma PrintedChars(n: int)
    ensures forall i :: 0 <= i < |Printed(n)| ==> IsDigit(Printed(n)[i]) || Printed(n)[i] == '-'
  {}

  /** The printed text of a value, wherever it stands, is its compact text laid out. */
  lemma {:induction false} PrintedLaid(v: Json, depth: nat, gap: Gap, f: Layout, rest: string)
    requires Regular(v)
    ensures Laid(Compact(v, f.bareSlash) + rest, depth, false, gap, f) ==
      Lead(gap, depth, f) + (Print(v, depth, f) + Laid(rest, depth, false, Tight, f))
    decreases v, 0
  {
    hide Laid, Lead, Tail, Break, Blank, Margin, Regular, PrintItems, PrintMembers, CompactItems, CompactMembers, Structural, Quoted, Escape, Printed;
    var bare := f.bareSlash;
    match v
    case Arr(items) =>
      RegularItems(items);
      var body := CompactItems(items, bare, true) + ("]" + rest);
      assert Compact(v, bare) + rest == ['['] + body;
      LaidMark('[', body, depth, gap, f);
      ItemsLaid(items, depth, true, f, "]" + rest);
      LaidMark(']', rest, depth, if items == [] then Opened else Tight, f);
      ListPrinted(v, depth, gap, f, rest);
    case Obj(members) =>
      RegularMembers(members);
      var body := CompactMembers(members, bare, true) + ("}" + rest);
      assert Compact(v, bare) + rest == ['{'] + body;
      LaidMark('{', body, depth, gap, f);
      MembersLaid(members, depth, true, f, "}" + rest);
      LaidMark('}', rest, depth, if members == [] then Opened else Tight, f);
      ListPrinted(v, depth, gap, f, rest);
    case Str(u) =>
      StringLaid(u, depth, gap, f, rest);
    case _ =>
      ScalarText(v, bare);
      LaidWord(Compact(v, bare), rest, depth, gap, f);
  }

  lemma RegularItems(items: seq<Json>)
    requires Regular(Arr(items))
    ensures forall x <- items :: Regular(x)
  {}

  lemma RegularMembers(members: seq<Member>)
    requires Regular(Obj(members))
    ensures forall m <- members :: Regular(m.value)
  {}

  lemma StringLaid(u: string, depth: nat, gap: Gap, f: Layout, rest: string)
    ensures Laid(Compact(Str(u), f.bareSlash) + rest, depth, false, gap, f) ==
      Lead(gap, depth, f) + (Print(Str(u), depth, f) + Laid(rest, depth, false, Tight, f))
  {
    hide Laid, Lead, Quoted, Escape;
    var q := Quoted(u, f.bareSlash);
    QuotedIs(u, f);
    assert Compact(Str(u), f.bareSlash) + rest == ['\"'] + (q + ("\"" + rest));
    LaidMark('\"', q + ("\"" + rest), depth, gap, f);
    LaidQuoted(u, f.bareSlash, rest, depth, f);
    var l := Laid(rest, depth, false, Tight, f);
    assert ['\"'] + (q + ("\"" + l)) == ("\"" + (q + "\"")) + l;
  }

  /** An array or object is its opening bracket, what the elements print, and the close. */
  lemma ListPrinted(v: Json, depth: nat, gap: Gap, f: Layout, rest: string)
    requires v.Arr? || v.Obj?
    ensures
      var inner := if v.Arr? then PrintItems(v.items, depth, f, false) else PrintMembers(v.members, depth, f, false);
      var empty := if v.Arr? then v.items == [] else v.members == [];
      var l := Laid(rest, depth, false, Tight, f);
      Lead(gap, depth, f) + ([if v.Arr? then '[' else '{'] + (Break(f) + (inner +
        (Tail(if empty then Opened else Tight, depth, f) + ([if v.Arr? then ']' else '}'] + l))))) ==
      Lead(gap, depth, f) + (Print(v, depth, f) + l)
  {
    hide Laid, Lead, PrintItems, PrintMembers, Break, Blank, Margin, Newline, Space, Indent;
    LayoutPieces(depth, f);
    var l := Laid(rest, depth, false, Tight, f);
    match v
    case Arr(items) =>
      var p := PrintItems(items, depth, f, false);
      CloseIs(items == [], depth, f, ']', l);
      Regrouped4("[", Newline(f), p, Close(depth, f, items != [], ']'), l);
    case Obj(members) =>
      var p := PrintMembers(members, depth, f, false);
      CloseIs(members == [], depth, f, '}', l);
      Regrouped4("{", Newline(f), p, Close(depth, f, members != [], '}'), l);
  }

  lemma CloseIs(empty: bool, depth: nat, f: Layout, c: char, l: string)
    ensures Tail(if empty then Opened else Tight, depth, f) + ([c] + l) == Close(depth, f, !empty, c) + l
  {
    LayoutPieces(depth, f);
    hide Break, Blank, Margin, Newline, Space, Indent;
    var n, m, b := if empty then "" else Break(f), Margin(depth, f), Blank(f);
    assert (n + (m + b)) + ([c] + l) == (n + (m + (b + [c]))) + l;
  }

  lemma Regrouped4(a: string, b: string, c: string, d: string, e: string)
    ensures a + (b + (c + (d + e))) == (a + (b + (c + d))) + e
  {}

  lemma {:induction false} ItemsLaid(items: seq<Json>, depth: nat, first: bool, f: Layout, rest: string)
    requires forall x <- items :: Regular(x)
    ensures Laid(CompactItems(items, f.bareSlash, first) + rest, depth + 1, false, if first then Opened else Tight, f) ==
      PrintItems(items, depth, f, !first) + Laid(rest, depth + 1, false, if first && items == [] then Opened else Tight, f)
    decreases items, 1
  {
    hide Laid, Lead, Regular, Print, Compact, Comma, Space, Indent;
    if items == [] {
      assert CompactItems(items, f.bareSlash, first) + rest == rest;
      assert PrintItems(items, depth, f, !first) == "";
    } else {
      var x := items[0];
      var more := CompactItems(items[1..], f.bareSlash, false) + rest;
      assert x in items;
      PrintedLaid(x, depth + 1, if first then Opened else Separated, f, more);
      ItemsLaid(items[1..], depth, false, f, rest);
      ItemStart(first, Compact(x, f.bareSlash), more, Print(x, depth + 1, f), depth + 1, f);
      assert CompactItems(items, f.bareSlash, first) + rest == (if first then "" else ",") + (Compact(x, f.bareSlash) + more);
      Regrouped5(Comma(!first, f), Space(f), Indent(depth + 1, f), Print(x, depth + 1, f),
                 PrintItems(items[1..], depth, f, true), Laid(rest, depth + 1, false, Tight, f));
    }
  }

  lemma Regrouped5(a: string, b: string, c: string, d: string, e: string, l: string)
    ensures a + (b + (c + (d + (e + l)))) == (a + (b + (c + (d + e)))) + l
  {}

  /** The comma and the gap before an element. */
  lemma ItemStart(first: bool, c: string, more: string, p: string, depth: nat, f: Layout)
    requires Laid(c + more, depth, false, if first then Opened else Separated, f) ==
      Lead(if first then Opened else Separated, depth, f) + (p + Laid(more, depth, false, Tight, f))
    ensures Laid((if first then "" else ",") + (c + more), depth, false, if first then Opened else Tight, f) ==
      Comma(!first, f) + (Space(f) + (Indent(depth, f) + (p + Laid(more, depth, false, Tight, f))))
  {
    hide Laid;
    LayoutPieces(depth, f);
    hide Break, Blank, Margin, Newline, Space, Indent;
    var l := p + Laid(more, depth, false, Tight, f);
    assert (Blank(f) + Margin(depth, f)) + l == Blank(f) + (Margin(depth, f) + l);
    if first {
      assert "" + (c + more) == c + more;
      assert Comma(false, f) + (Space(f) + (Indent(depth, f) + l)) == Space(f) + (Indent(depth, f) + l);
    } else {
      LaidMark(',', c + more, depth, Tight, f);
      assert [','] + (Break(f) + (Blank(f) + (Margin(depth, f) + l))) == ("," + Break(f)) + (Blank(f) + (Margin(depth, f) + l));
    }
  }

  lemma {:induction false} MembersLaid(members: seq<Member>, depth: nat, first: bool, f: Layout, rest: string)
    requires forall m <- members :: Regular(m.value)
    ensures Laid(CompactMembers(members, f.bareSlash, first) + rest, depth + 1, false, if first then Opened else Tight, f) ==
      PrintMembers(members, depth, f, !first) + Laid(rest, depth + 1, false, if first && members == [] then Opened else Tight, f)
    decreases members, 1
  {
    hide Laid, Lead, Regular, Print, Compact, Comma, Space, Indent, Quoted, Escape;
    if members == [] {
      assert CompactMembers(members, f.bareSlash, first) + rest == rest;
      assert PrintMembers(members, depth, f, !first) == "";
    } else {
      var m := members[0];
      var more := CompactMembers(members[1..], f.bareSlash, false) + rest;
      var x, p := Compact(m.value, f.bareSlash), Print(m.value, depth + 1, f);
      var l := Laid(rest, depth + 1, false, Tight, f);
      assert m in members;
      PrintedLaid(m.value, depth + 1, Tight, f, more);
      MembersLaid(members[1..], depth, false, f, rest);
      NoLead(depth + 1, f);
      assert "" + (p + Laid(more, depth + 1, false, Tight, f)) == p + Laid(more, depth + 1, false, Tight, f);
      KeyLaid(m.key, x + more, depth + 1, if first then Opened else Separated, f);
      MemberText(members, first, f, rest);
      ItemStart(first, Colon(Quoted(m.key, f.bareSlash)), x + more, Colon(Quoted(m.key, f.bareSlash)) + Space(f), depth + 1, f);
      MemberPrinted(members, depth, first, f, l);
    }
  }

  /** A key with its quotes and colon. */
  function Colon(q: string): string { "\"" + (q + "\":") }

  lemma KeyLaid(key: string, w: string, depth: nat, gap: Gap, f: Layout)
    ensures var c := Colon(Quoted(key, f.bareSlash));
      Laid(c + w, depth, false, gap, f) == Lead(gap, depth, f) + ((c + Space(f)) + Laid(w, depth, false, Tight, f))
  {
    hide Laid, Lead, Quoted, Blank, Space;
    BlankIsSpace(f);
    var q, b, l := Quoted(key, f.bareSlash), Space(f), Laid(w, depth, false, Tight, f);
    KeySplit(q, w);
    LaidMark('\"', q + ("\"" + (":" + w)), depth, gap, f);
    LaidQuoted(key, f.bareSlash, ":" + w, depth, f);
    LaidMark(':', w, depth, Tight, f);
    KeyJoined(q, b, l);
  }

  lemma BlankIsSpace(f: Layout)
    ensures Blank(f) == Space(f)
  {}

  lemma KeySplit(q: string, w: string)
    ensures Colon(q) + w == ['\"'] + (q + ("\"" + (":" + w)))
  {}

  lemma KeyJoined(q: string, b: string, l: string)
    ensures ['\"'] + (q + ("\"" + ([':'] + (b + l)))) == (Colon(q) + b) + l
  {}

  lemma MemberText(members: seq<Member>, first: bool, f: Layout, rest: string)
    requires members != []
    ensures var m := members[0];
      CompactMembers(members, f.bareSlash, first) + rest ==
      (if first then "" else ",") + (Colon(Quoted(m.key, f.bareSlash)) +
        (Compact(m.value, f.bareSlash) + (CompactMembers(members[1..], f.bareSlash, false) + rest)))
  {
    hide Compact, Quoted;
    var m := members[0];
    MemberParts(if first then "" else ",", Quoted(m.key, f.bareSlash), Compact(m.value, f.bareSlash),
                CompactMembers(members[1..], f.bareSlash, false), rest);
  }

  lemma MemberParts(a: string, q: string, x: string, more: string, rest: string)
    ensures (a + ("\"" + (q + ("\":" + (x + more))))) + rest == a + (Colon(q) + (x + (more + rest)))
  {}

  lemma MemberPrinted(members: seq<Member>, depth: nat, first: bool, f: Layout, l: string)
    requires members != []
    ensures var m := members[0];
      Comma(!first, f) + (Space(f) + (Indent(depth + 1, f) + ((Colon(Quoted(m.key, f.bareSlash)) + Space(f)) +
        (Print(m.value, depth + 1, f) + (PrintMembers(members[1..], depth, f, true) + l))))) ==
      PrintMembers(members, depth, f, !first) + l
  {
    QuotedIs(members[0].key, f);
    hide Print, Quoted, Escape, Comma, Space, Indent;
    var m := members[0];
    var e, p, pm := Escape(m.key, f), Print(m.value, depth + 1, f), PrintMembers(members[1..], depth, f, true);
    var b := Space(f);
    KeyTail(e, b, p, pm, l);
    Regrouped3(Comma(!first, f), b, Indent(depth + 1, f), "\"" + (e + ("\":" + (b + (p + pm)))), l);
  }

  lemma KeyTail(e: string, b: string, p: string, pm: string, l: string)
    ensures (Colon(e) + b) + (p + (pm + l)) == ("\"" + (e + ("\":" + (b + (p + pm))))) + l
  {
    Regrouped2('\"', e, '\"', ":" + b);
    assert Colon(e) + b == "\"" + (e + ("\":" + b));
    assert ("\"" + (e + ("\":" + b))) + (p + (pm + l)) == ("\"" + (e + ("\":" + (b + (p + pm))))) + l;
  }

  lemma Regrouped3(a: string, b: string, c: string, d: string, l: string)
    ensures a + (b + (c + (d + l))) == (a + (b + (c + d))) + l
  {}

  /** The printed text of a tree is its compact text laid out. */
  lemma PrintIsLaid(v: Json, f: Layout)
    requires Regular(v)
    ensures Print(v, 0, f) == Laid(Compact(v, f.bareSlash), 0, false, Tight, f)
  {
    hide Laid, Print, Regular, Compact;
    PrintedLaid(v, 0, Tight, f, "");
    NoLead(0, f);
    LaidNothing(f);
    assert Compact(v, f.bareSlash) + "" == Compact(v, f.bareSlash);
    assert "" + (Print(v, 0, f) + "") == Print(v, 0, f);
  }

  lemma LaidNothing(f: Layout)
    ensures Laid("", 0, false, Tight, f) == ""
  {}

  // ----- White space -----

  /** Without the flags nothing is laid out. */
  lemma {:induction false} LaidPlain(s: string, depth: nat, inside: bool, gap: Gap, f: Layout)
    requires !f.spaced && !f.pretty
    ensures Laid(s, depth, inside, gap, f) == s
    decreases |s|
  {
    NoBlanks(gap, depth, f);
    NoBlanks(gap, if depth == 0 then 0 else depth - 1, f);
    hide Lead, Tail, Break, Blank;
    if s != "" {
      var rest := s[1..];
      assert s == [s[0]] + rest;
      if inside && s[0] == '\\' && |s| > 1 {
        LaidPlain(s[2..], depth, true, Tight, f);
        assert s == s[..2] + s[2..];
      } else if inside {
        LaidPlain(rest, depth, s[0] != '\"', Tight, f);
      } else if s[0] == '[' || s[0] == '{' {
        LaidPlain(rest, depth + 1, false, Opened, f);
        Unpadded(s[0], rest);
      } else if s[0] == ']' || s[0] == '}' {
        LaidPlain(rest, if depth == 0 then 0 else depth - 1, false, Tight, f);
        Unpadded(s[0], rest);
      } else if s[0] == ',' {
        LaidPlain(rest, depth, false, Separated, f);
        Unpadded(s[0], rest);
      } else if s[0] == ':' {
        LaidPlain(rest, depth, false, Tight, f);
        Unpadded(s[0], rest);
      } else {
        LaidPlain(rest, depth, s[0] == '\"', Tight, f);
        Unpadded(s[0], rest);
      }
    }
  }

  lemma NoBlanks(gap: Gap, depth: nat, f: Layout)
    requires !f.spaced && !f.pretty
    ensures Lead(gap, depth, f) == "" && Tail(gap, depth, f) == "" && Break(f) == "" && Blank(f) == ""
  {}

  lemma Unpadded(c: char, x: string)
    ensures "" + ([c] + ("" + x)) == [c] + x && "" + ([c] + x) == [c] + x && [c] + ("" + x) == [c] + x
  {}

  /** Laying out adds only white space, and only outside strings. */
  lemma {:induction false} LaidSqueezed(s: string, depth: nat, inside: bool, gap: Gap, f: Layout)
    ensures Squeezed(Laid(s, depth, inside, gap, f), inside) == Squeezed(s, inside)
    decreases |s|
  {
    hide Lead, Tail, Break, Blank;
    if s != "" {
      if inside {
        if s[0] == '\\' && |s| > 1 {
          LaidSqueezed(s[2..], depth, true, Tight, f);
          var x := Laid(s[2..], depth, true, Tight, f);
          assert (s[..2] + x)[2..] == x && (s[..2] + x)[..2] == s[..2];
        } else {
          LaidSqueezed(s[1..], depth, s[0] != '\"', Tight, f);
          var x := Laid(s[1..], depth, s[0] != '\"', Tight, f);
          assert ([s[0]] + x)[1..] == x;
          if s[0] == '\\' { assert s[1..] == "" && x == ""; }
        }
      } else {
        LaidSqueezedOutside(s, depth, gap, f);
      }
    }
  }

  lemma {:induction false} LaidSqueezedOutside(s: string, depth: nat, gap: Gap, f: Layout)
    requires s != ""
    ensures Squeezed(Laid(s, depth, false, gap, f), false) == Squeezed(s, false)
    decreases |s|, 0
  {
    hide Squeezed, Lead, Tail, Break, Blank;
    var c, rest := s[0], s[1..];
    assert s == [c] + rest;
    BlanksAre(gap, depth, f);
    SqueezedChar(c, rest);
    if c == '[' || c == '{' {
      LaidSqueezed(rest, depth + 1, false, Opened, f);
      SqueezedAround(Lead(gap, depth, f), c, Break(f), Laid(rest, depth + 1, false, Opened, f));
    } else if c == ']' || c == '}' {
      var d := if depth == 0 then 0 else depth - 1;
      BlanksAre(gap, d, f);
      LaidSqueezed(rest, d, false, Tight, f);
      SqueezedAround(Tail(gap, d, f), c, "", Laid(rest, d, false, Tight, f));
    } else if c == ',' {
      LaidSqueezed(rest, depth, false, Separated, f);
      SqueezedAround("", c, Break(f), Laid(rest, depth, false, Separated, f));
    } else if c == ':' {
      LaidSqueezed(rest, depth, false, Tight, f);
      SqueezedAround("", c, Blank(f), Laid(rest, depth, false, Tight, f));
    } else {
      LaidSqueezed(rest, depth, c == '\"', Tight, f);
      SqueezedBefore(Lead(gap, depth, f), [c] + Laid(rest, depth, c == '\"', Tight, f));
      SqueezedChar(c, Laid(rest, depth, c == '\"', Tight, f));
    }
  }

  predicate White(c: char) { c in [' ', '\t', '\n', '\r'] }

  predicate AllWhite(w: string) { forall i :: 0 <= i < |w| ==> White(w[i]) }

  lemma BlanksAre(gap: Gap, depth: nat, f: Layout)
    ensures AllWhite(Lead(gap, depth, f)) && AllWhite(Tail(gap, depth, f)) && AllWhite(Break(f)) && AllWhite(Blank(f)) && AllWhite("")
  {}

  lemma {:induction false} SqueezedBefore(w: string, x: string)
    requires AllWhite(w)
    ensures Squeezed(w + x, false) == Squeezed(x, false)
  {
    if w == "" {
      assert w + x == x;
    } else {
      assert White(w[0]) && (w + x)[1..] == w[1..] + x;
      assert forall i :: 0 <= i < |w| - 1 ==> w[1..][i] == w[i + 1];
      SqueezedBefore(w[1..], x);
    }
  }

  lemma SqueezedChar(c: char, x: string)
    ensures Squeezed([c] + x, false) == if White(c) then Squeezed(x, false) else [c] + Squeezed(x, c == '\"')
  {
    assert ([c] + x)[1..] == x;
  }

  lemma SqueezedAround(w: string, c: char, w2: string, x: string)
    requires AllWhite(w) && AllWhite(w2) && !White(c) && c != '\"'
    ensures Squeezed(w + ([c] + (w2 + x)), false) == [c] + Squeezed(x, false)
    ensures w == "" ==> Squeezed([c] + (w2 + x), false) == [c] + Squeezed(x, false)
    ensures w2 == "" ==> Squeezed(w + ([c] + x), false) == [c] + Squeezed(x, false)
  {
    hide Squeezed, AllWhite;
    SqueezedBefore(w, [c] + (w2 + x));
    SqueezedChar(c, w2 + x);
    SqueezedBefore(w2, x);
    if w2 == "" { assert w2 + x == x; }
    if w == "" { assert w + ([c] + (w2 + x)) == [c] + (w2 + x); }
  }

  /** Squeezing the text of any layout gives the compact text, which has no white space of its own. */
  lemma PrintSqueezed(v: Json, f: Layout)
    requires Regular(v)
    ensures Squeezed(Print(v, 0, f), false) == Compact(v, f.bareSlash) == Squeezed(Compact(v, f.bareSlash), false)
  {
    hide Laid, Squeezed, Print, Regular, Compact;
    PrintIsLaid(v, f);
    LaidSqueezed(Compact(v, f.bareSlash), 0, false, Tight, f);
    CompactSqueezed(v, f.bareSlash, "");
    SqueezedNothing();
    assert Compact(v, f.bareSlash) + "" == Compact(v, f.bareSlash);
  }

  /** The plain layout is the compact text: no white space outside strings. */
  lemma PlainIsCompact(v: Json, f: Layout)
    requires Regular(v) && !f.spaced && !f.pretty
    ensures Print(v, 0, f) == Compact(v, f.bareSlash) == Squeezed(Print(v, 0, f), false)
  {
    hide Laid, Squeezed, Print, Regular, Compact;
    PrintIsLaid(v, f);
    LaidPlain(Compact(v, f.bareSlash), 0, false, Tight, f);
    PrintSqueezed(v, f);
  }

  lemma SqueezedNothing()
    ensures Squeezed("", false) == ""
  {}

  lemma SqueezedMark(c: char, x: string)
    requires Structural(c)
    ensures Squeezed([c] + x, false) == [c] + Squeezed(x, c == '\"')
  {
    hide Squeezed;
    SqueezedChar(c, x);
  }

  lemma SqueezedQuoted(u: string, bare: bool, rest: string)
    ensures Squeezed(['\"'] + (Quoted(u, bare) + ("\"" + rest)), false) == ['\"'] + (Quoted(u, bare) + ("\"" + Squeezed(rest, false)))
  {
    hide Squeezed, Quoted;
    LaidQuoted(u, bare, rest, 0, Layout(false, false, false, bare));
    SqueezedMark('\"', Quoted(u, bare) + ("\"" + rest));
  }

  lemma {:induction false} CompactSqueezed(v: Json, bare: bool, rest: string)
    requires Regular(v)
    ensures Squeezed(Compact(v, bare) + rest, false) == Compact(v, bare) + Squeezed(rest, false)
    decreases v, 0
  {
    hide Squeezed, Regular, CompactItems, CompactMembers, Structural, Quoted, Printed;
    match v
    case Arr(items) =>
      RegularItems(items);
      var body := CompactItems(items, bare, true);
      assert Compact(v, bare) + rest == ['['] + (body + ([']'] + rest));
      Brackets();
      SqueezedMark('[', body + ([']'] + rest));
      ItemsSqueezed(items, bare, true, [']'] + rest);
      SqueezedMark(']', rest);
      Regrouped2('[', body, ']', Squeezed(rest, false));
    case Obj(members) =>
      RegularMembers(members);
      var body := CompactMembers(members, bare, true);
      assert Compact(v, bare) + rest == ['{'] + (body + (['}'] + rest));
      Brackets();
      SqueezedMark('{', body + (['}'] + rest));
      MembersSqueezed(members, bare, true, ['}'] + rest);
      SqueezedMark('}', rest);
      Regrouped2('{', body, '}', Squeezed(rest, false));
    case Str(u) =>
      var q := Quoted(u, bare);
      assert Compact(v, bare) + rest == ['\"'] + (q + ("\"" + rest));
      SqueezedQuoted(u, bare, rest);
      Regrouped2('\"', q, '\"', Squeezed(rest, false));
    case _ =>
      ScalarText(v, bare);
      LaidWord(Compact(v, bare), rest, 0, Tight, Layout(false, false, false, bare));
  }

  lemma Brackets()
    ensures Structural('[') && Structural(']') && Structural('{') && Structural('}') && Structural(',') && Structural(':') && Structural('\"')
  {}

  lemma Regrouped2(a: char, b: string, c: char, l: string)
    ensures [a] + (b + ([c] + l)) == ([a] + (b + [c])) + l
  {}

  lemma {:induction false} ItemsSqueezed(items: seq<Json>, bare: bool, first: bool, rest: string)
    requires forall x <- items :: Regular(x)
    ensures Squeezed(CompactItems(items, bare, first) + rest, false) == CompactItems(items, bare, first) + Squeezed(rest, false)
    decreases items, 1
  {
    hide Squeezed, Regular, Compact, Structural;
    if items == [] {
      assert CompactItems(items, bare, first) + rest == rest;
    } else {
      var c, more := Compact(items[0], bare), CompactItems(items[1..], bare, false);
      assert items[0] in items;
      CompactSqueezed(items[0], bare, more + rest);
      ItemsSqueezed(items[1..], bare, false, rest);
      var l := Squeezed(rest, false);
      CommaSqueezed(first, c + (more + rest));
      assert CompactItems(items, bare, first) + rest == (if first then "" else ",") + (c + (more + rest));
      assert CompactItems(items, bare, first) + l == (if first then "" else ",") + (c + (more + l));
    }
  }

  lemma CommaSqueezed(first: bool, x: string)
    ensures Squeezed((if first then "" else ",") + x, false) == (if first then "" else ",") + Squeezed(x, false)
  {
    hide Squeezed;
    if first {
      assert "" + x == x;
    } else {
      SqueezedMark(',', x);
    }
  }

  lemma {:induction false} MembersSqueezed(members: seq<Member>, bare: bool, first: bool, rest: string)
    requires forall m <- members :: Regular(m.value)
    ensures Squeezed(CompactMembers(members, bare, first) + rest, false) == CompactMembers(members, bare, first) + Squeezed(rest, false)
    decreases members, 1
  {
    hide Squeezed, Regular, Compact, Structural, Quoted;
    if members == [] {
      assert CompactMembers(members, bare, first) + rest == rest;
    } else {
      var m, more := members[0], CompactMembers(members[1..], bare, false);
      var q, c := Quoted(m.key, bare), Compact(m.value, bare);
      assert m in members;
      CompactSqueezed(m.value, bare, more + rest);
      MembersSqueezed(members[1..], bare, false, rest);
      var l, w := Squeezed(rest, false), c + (more + rest);
      Brackets();
      SqueezedMark(':', w);
      SqueezedQuoted(m.key, bare, [':'] + w);
      var s := ['\"'] + (q + ("\"" + ([':'] + w)));
      CommaSqueezed(first, s);
      MemberSpelled(members, bare, first, rest);
      MemberSpelled(members, bare, first, l);
    }
  }

  lemma MemberSpelled(members: seq<Member>, bare: bool, first: bool, l: string)
    requires members != []
    ensures CompactMembers(members, bare, first) + l ==
      (if first then "" else ",") + (['\"'] + (Quoted(members[0].key, bare) + ("\"" + ([':'] +
        (Compact(members[0].value, bare) + (CompactMembers(members[1..], bare, false) + l))))))
  {
    hide Compact, Quoted;
  }

  // ----- The slash -----

  /** In the text of a string: slashes that stand for themselves, and escaped ones. */
  function BareSlashes(s: string): nat
    decreases |s|
  {
    if s == "" then 0
    else if s[0] == '\\' && |s| > 1 then BareSlashes(s[2..])
    else (if s[0] == '/' then 1 else 0) + BareSlashes(s[1..])
  }

  function EscapedSlashes(s: string): nat
    decreases |s|
  {
    if s == "" then 0
    else if s[0] == '\\' && |s| > 1 then (if s[1] == '/' then 1 else 0) + EscapedSlashes(s[2..])
    else EscapedSlashes(s[1..])
  }

  /** With the flag every slash of the string stands for itself, without it every one is escaped. */
  lemma {:induction false} SlashesByFlag(u: string, f: Layout)
    ensures BareSlashes(Escape(u, f)) == (if f.bareSlash then multiset(u)['/'] else 0)
    ensures EscapedSlashes(Escape(u, f)) == (if f.bareSlash then 0 else multiset(u)['/'])
  {
    if u != "" {
      assert u == [u[0]] + u[1..];
      SlashesByFlag(u[1..], f);
      SpellIs(u[0], f);
      SlashOf(u[0], f.bareSlash, Escape(u[1..], f));
      hide Spell, EscapeChar, BareSlashes, EscapedSlashes;
    }
  }

  lemma SlashOf(c: char, bare: bool, s: string)
    ensures BareSlashes(Spell(c, bare) + s) == (if c == '/' && bare then 1 else 0) + BareSlashes(s)
    ensures EscapedSlashes(Spell(c, bare) + s) == (if c == '/' && !bare then 1 else 0) + EscapedSlashes(s)
  {
    var e := Spell(c, bare);
    if |e| == 1 {
      assert (e + s)[1..] == s;
    } else if |e| == 2 {
      assert (e + s)[2..] == s;
    } else {
      LowerHexAt(c as int / 16);
      LowerHexAt(c as int % 16);
      var h := e[2..];
      assert (e + s)[2..] == h + s;
      NoSlashIn(h, s);
    }
  }

  lemma {:induction false} NoSlashIn(h: string, s: string)
    requires forall i :: 0 <= i < |h| ==> h[i] != '\\' && h[i] != '/'
    ensures BareSlashes(h + s) == BareSlashes(s) && EscapedSlashes(h + s) == EscapedSlashes(s)
  {
    if h == "" {
      assert h + s == s;
    } else {
      assert (h + s)[1..] == h[1..] + s;
      NoSlashIn(h[1..], s);
    }
  }

  // ----- Examples -----

  /** The object with the single member a = 1 in three layouts. */
  lemma PlainExample()
    ensures Print(Obj([Member("a", Int(1))]), 0, Layout(false, false, false, true)) == "{\"a\":1}"
  {
    OneMember(Layout(false, false, false, true));
  }

  lemma SpacedExample()
    ensures Print(Obj([Member("a", Int(1))]), 0, Layout(true, false, false, true)) == "{ \"a\": 1 }"
  {
    OneMember(Layout(true, false, false, true));
  }

  lemma PrettyExample()
    ensures Print(Obj([Member("a", Int(1))]), 0, Layout(false, true, false, true)) == "{\n  \"a\":1\n}"
  {
    var f := Layout(false, true, false, true);
    assert Repeat(' ', 0) == "" && Repeat(' ', 1) == " " && Repeat(' ', 2) == "  ";
    OneMember(f);
  }

  lemma OneInside(f: Layout)
    ensures PrintMembers([Member("a", Int(1))], 0, f, false) == Space(f) + (Indent(1, f) + ("\"a\":" + (Space(f) + "1")))
  {
    OneText(f);
    hide Escape, Space, Indent, Print;
    assert [Member("a", Int(1))][1..] == [];
    assert PrintMembers([], 0, f, true) == "";
    assert "1" + "" == "1" && "" + (Space(f) + (Indent(1, f) + ("\"a\":" + (Space(f) + "1")))) == Space(f) + (Indent(1, f) + ("\"a\":" + (Space(f) + "1")));
    assert "\"" + ("a" + ("\":" + (Space(f) + "1"))) == "\"a\":" + (Space(f) + "1");
  }

  lemma OneText(f: Layout)
    ensures Escape("a", f) == "a" && Print(Int(1), 1, f) == "1"
  {
    assert "a"[1..] == "" && Escape("", f) == "";
    assert Natural(1) == "1" by { assert DigitOf(1) == '1'; }
  }

  lemma OneMember(f: Layout)
    ensures Print(Obj([Member("a", Int(1))]), 0, f) ==
      "{" + (Newline(f) + ((Space(f) + (Indent(1, f) + ("\"a\":" + (Space(f) + "1")))) + (Newline(f) + (Indent(0, f) + (Space(f) + "}")))))
  {
    OneInside(f);
    hide PrintMembers, Newline, Space, Indent;
  }
}
