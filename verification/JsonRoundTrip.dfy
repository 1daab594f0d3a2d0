/** Parsing what the printer wrote gives the tree back. */
module JsonRoundTrip {
  import opened Decimal
  import opened JsonTree
  import opened JsonTokener

  // ----- Single passes -----

  lemma GoesOn(t: Tok, s: string, max: nat, t': Tok, n: nat)
    requires Stacked(t) && Step(t, s, max) == Go(t', n)
    ensures Stacked(t') && n <= |s| && Run(t, s, max) == Run(t', s[n..], max)
  {
    hide Step, Run, Stacked, LevelRank;
    Once(t, s, max);
  }

  predicate AllSpaces(w: string) {
    forall i :: 0 <= i < |w| ==> IsSpace(w[i])
  }

  lemma {:induction false} SpacesBefore(w: string, s: string)
    requires AllSpaces(w) && !IsSpace(Peek(s))
    ensures Spaces(w + s) == |w|
  {
    if w == "" {
      assert w + s == s;
    } else {
      assert (w + s)[1..] == w[1..] + s;
      SpacesBefore(w[1..], s);
    }
  }

  lemma EatSpaces(t: Tok, w: string, s: string, max: nat)
    requires Stacked(t) && Top(t).state.EatWs? && AllSpaces(w) && !IsSpace(Peek(s)) && Peek(s) != '/'
    ensures Stacked(To(t, Top(t).saved))
    ensures Run(t, w + s, max) == Run(To(t, Top(t).saved), s, max)
  {
    hide Run, Spaces;
    SpacesBefore(w, s);
    assert (w + s)[|w|..] == s;
    GoesOn(t, w + s, max, To(t, Top(t).saved), |w|);
  }

  // ----- Strings and keys -----

  predicate InText(t: Tok) {
    t.stack != [] && (Top(t).state.String? || Top(t).state.Field?) && t.quote == '\"'
  }

  /** The same text with more of it read; escapes leave a trace in the saved state. */
  predicate ReadOn(t: Tok, u: string, t': Tok) {
    && InText(t) && InText(t') && |t'.stack| == |t.stack|
    && t'.stack[..|t.stack| - 1] == t.stack[..|t.stack| - 1]
    && t'.pb == t.pb + u
    && Top(t') == Top(t).(saved := Top(t').saved)
  }

  predicate Ordinary(c: char) { c != '\"' && c != '\\' && c != NUL }

  /** A character that stands for itself. */
  lemma PlainChar(t: Tok, c: char, s: string, max: nat) returns (t': Tok)
    requires Stacked(t) && InText(t) && Ordinary(c)
    ensures Stacked(t') && ReadOn(t, [c], t') && Run(t, [c] + s, max) == Run(t', s, max)
  {
    t' := t.(pb := t.pb + [c]);
    hide Run, LevelRank, UpToNul;
    Once(t, [c] + s, max);
    Once(t', s, max);
    PlainOne(t, c, s, Top(t).state);
    var m, m' := Step(t, [c] + s, max), Step(t', s, max);
    assert ([c] + s)[1..] == s;
    assert m.Go? ==> ([c] + s)[m.n..] == s[m'.n..];
  }

  lemma PlainOne(t: Tok, c: char, s: string, q: State)
    requires t.stack != [] && (q.String? || q.Field?) && t.quote == '\"' && Ordinary(c)
    ensures var m, m' := InString(t, [c] + s, q), InString(t.(pb := t.pb + [c]), s, q);
      if m'.Go? then m == Go(m'.tok, m'.n + 1) && m'.n <= |s| else m == m'
  {
    var cs, k := [c] + s, PlainRun(s, t.quote);
    assert cs[1..] == s;
    assert PlainRun(cs, t.quote) == k + 1;
    hide PlainRun, UpToNul;
    assert cs[..k + 1] == [c] + s[..k];
    assert t.pb + cs[..k + 1] == (t.pb + [c]) + s[..k];
    assert cs[k + 1..] == s[k..];
  }

  /** The backslash. */
  lemma Backslash(t: Tok, s: string, max: nat)
    requires Stacked(t) && InText(t)
    ensures var e := SetTop(t, Top(t).(state := StringEscape, saved := Top(t).state));
      Stacked(e) && Run(t, "\\" + s, max) == Run(e, s, max)
  {
    hide Run, Stacked, UpToNul;
    var cs := "\\" + s;
    assert PlainRun(cs, t.quote) == 0;
    hide PlainRun;
    assert t.pb + cs[..0] == t.pb && cs[0..] == cs && cs[1..] == s;
    GoesOn(t, cs, max, SetTop(t, Top(t).(state := StringEscape, saved := Top(t).state)), 1);
  }

  /** A backslash and one letter. */
  lemma ShortEscape(t: Tok, x: char, c: char, s: string, max: nat) returns (t': Tok)
    requires Stacked(t) && InText(t) && Unescaped(x) == [c] && x != NUL
    ensures Stacked(t') && ReadOn(t, [c], t') && Run(t, ['\\', x] + s, max) == Run(t', s, max)
  {
    hide Run, Stacked, Unescaped;
    var q := Top(t).state;
    var e := SetTop(t, Top(t).(state := StringEscape, saved := q));
    t' := To(e, q).(pb := t.pb + [c]);
    assert ['\\', x] + s == "\\" + ([x] + s);
    Backslash(t, [x] + s, max);
    assert ([x] + s)[1..] == s;
    GoesOn(e, [x] + s, max, t', 1);
  }

  /** A control character. */
  lemma UnicodeEscape(t: Tok, c: char, s: string, max: nat) returns (t': Tok)
    requires Stacked(t) && InText(t) && c < ' '
    ensures Stacked(t') && ReadOn(t, [c], t')
    ensures Run(t, "\\u00" + [HexDigit(c as int / 16), HexDigit(c as int % 16)] + s, max) == Run(t', s, max)
  {
    var q, hex := Top(t).state, "00" + [HexDigit(c as int / 16), HexDigit(c as int % 16)];
    var e := SetTop(t, Top(t).(state := StringEscape, saved := q));
    var u := To(e, EscapeUnicode);
    t' := To(u, q).(pb := t.pb + [c]);
    hide Run, AtUnicode, HexDigit, Step, Stacked;
    assert "\\u00" + [HexDigit(c as int / 16), HexDigit(c as int % 16)] + s == "\\" + ("u" + (hex + s));
    Backslash(t, "u" + (hex + s), max);
    LetterU(e, hex + s, max);
    FourDigits(u, c, hex, s, max);
  }

  lemma LetterU(e: Tok, s: string, max: nat)
    requires Stacked(e) && Top(e).state.StringEscape?
    ensures Stacked(To(e, EscapeUnicode)) && Run(e, "u" + s, max) == Run(To(e, EscapeUnicode), s, max)
  {
    hide Run;
    assert ("u" + s)[1..] == s;
    GoesOn(e, "u" + s, max, To(e, EscapeUnicode), 1);
  }

  lemma FourDigits(u: Tok, c: char, hex: string, s: string, max: nat)
    requires Stacked(u) && Top(u).state.EscapeUnicode? && c < ' '
    requires hex == "00" + [HexDigit(c as int / 16), HexDigit(c as int % 16)]
    ensures var t' := To(u, Top(u).saved).(pb := u.pb + [c]);
      Stacked(t') && Run(u, hex + s, max) == Run(t', s, max)
  {
    HexOf(u, c, s);
    hide Run, AtUnicode, HexDigit, Stacked;
    assert (hex + s)[4..] == s;
    GoesOn(u, hex + s, max, To(u, Top(u).saved).(pb := u.pb + [c]), 4);
  }

  lemma HexOf(u: Tok, c: char, s: string)
    requires u.stack != [] && c < ' '
    ensures AtUnicode(u, "00" + [HexDigit(c as int / 16), HexDigit(c as int % 16)] + s, 0, 0) ==
      Go(To(u, Top(u).saved).(pb := u.pb + [c]), 4)
  {
    var h := "00" + [HexDigit(c as int / 16), HexDigit(c as int % 16)] + s;
    HexDigitValue(c as int / 16);
    HexDigitValue(c as int % 16);
    assert h[0] == '0' && h[1] == '0' && h[2] == HexDigit(c as int / 16) && h[3] == HexDigit(c as int % 16);
    FourHex(h);
    assert Hex4(h) == c as int;
    assert (c as int) as char == c;
  }

  lemma HexDigitValue(d: nat)
    requires d < 16
    ensures IsHex(HexDigit(d)) && HexValue(HexDigit(d)) == d
  {}

  lemma FourHex(h: string)
    requires |h| >= 4 && IsHex(h[0]) && IsHex(h[1]) && IsHex(h[2]) && IsHex(h[3])
    ensures HexRun(h, 4) == 4
  {
    assert HexRun(h[4..], 0) == 0;
    assert h[3..][1..] == h[4..] && HexRun(h[3..], 1) == 1;
    assert h[2..][1..] == h[3..] && HexRun(h[2..], 2) == 2;
    assert h[1..][1..] == h[2..] && HexRun(h[1..], 3) == 3;
  }

  /** Any character, as the printer writes it. */
  lemma EscapedChar(t: Tok, c: char, f: Layout, s: string, max: nat) returns (t': Tok)
    requires Stacked(t) && InText(t)
    ensures Stacked(t') && ReadOn(t, [c], t') && Run(t, EscapeChar(c, f) + s, max) == Run(t', s, max)
  {
    hide Run, ReadOn, InText, HexDigit;
    if c in [BACKSPACE, '\n', '\r', '\t', FORM_FEED, '\"', '\\'] || (c == '/' && !f.bareSlash) {
      var x := EscapeChar(c, f)[1];
      assert EscapeChar(c, f) == ['\\', x] && Unescaped(x) == [c];
      t' := ShortEscape(t, x, c, s, max);
    } else if c < ' ' {
      t' := UnicodeEscape(t, c, s, max);
    } else {
      t' := PlainChar(t, c, s, max);
    }
  }

  lemma {:induction false} EscapedText(t: Tok, u: string, f: Layout, s: string, max: nat) returns (t': Tok)
    requires Stacked(t) && InText(t)
    ensures Stacked(t') && ReadOn(t, u, t') && Run(t, Escape(u, f) + s, max) == Run(t', s, max)
    decreases |u|
  {
    hide Run, EscapeChar, Stacked;
    if u == "" {
      t' := t;
      assert Escape(u, f) + s == s;
    } else {
      assert Escape(u, f) + s == EscapeChar(u[0], f) + (Escape(u[1..], f) + s);
      var t1 := EscapedChar(t, u[0], f, Escape(u[1..], f) + s, max);
      t' := EscapedText(t1, u[1..], f, s, max);
      assert t.pb + u == (t.pb + [u[0]]) + u[1..];
    }
  }

  lemma QuoteEnds(t: Tok, s: string, max: nat)
    requires Stacked(t) && InText(t)
    ensures Stacked(AfterQuote(t)) && Run(t, "\"" + s, max) == Run(AfterQuote(t), s, max)
  {
    hide Run, UpToNul;
    var cs := "\"" + s;
    assert PlainRun(cs, t.quote) == 0;
    hide PlainRun;
    assert t.pb + cs[..0] == t.pb && cs[0..] == cs && cs[1..] == s;
    GoesOn(t, cs, max, AfterQuote(t), 1);
  }

  function AfterQuote(t: Tok): Tok
    requires t.stack != []
  {
    if Top(t).state.String? then Done(t, Str(t.pb))
    else SetTop(t, Top(t).(state := EatWs, saved := FieldEnd, name := UpToNul(t.pb)))
  }

  /** A whole quoted text after its opening quote. */
  lemma QuotedText(t: Tok, u: string, f: Layout, s: string, max: nat) returns (t': Tok)
    requires Stacked(t) && InText(t) && t.pb == ""
    ensures Stacked(t') && t'.stack == Base(t) + [if Top(t).state.String? then Level(EatWs, Finish, Str(u), Top(t).name)
                                                  else Level(EatWs, FieldEnd, Top(t).current, UpToNul(u))]
    ensures Run(t, Escape(u, f) + ("\"" + s), max) == Run(t', s, max)
  {
    hide Run, Stacked, Escape, UpToNul;
    var t1 := EscapedText(t, u, f, "\"" + s, max);
    QuoteEnds(t1, s, max);
    assert "" + u == u;
    t' := AfterQuote(t1);
  }

  // ----- Words and numbers -----

  /** The levels below the top. */
  function Base(t: Tok): seq<Level>
    requires t.stack != []
  {
    t.stack[..|t.stack| - 1]
  }

  lemma BaseOf(t: Tok, base: seq<Level>, l: Level)
    requires t.stack == base + [l]
    ensures Base(t) == base && Top(t) == l
  {}

  /** t' is t with the value v complete on top. */
  predicate Completed(t: Tok, v: Json, t': Tok) {
    t.stack != [] && t'.stack == Base(t) + [Level(EatWs, Finish, v, "")]
  }

  lemma {:induction false} WordNull(t: Tok, i: nat, rest: string, max: nat) returns (t': Tok)
    requires Stacked(t) && Top(t).state.Nul? && Top(t).name == "" && i <= 4 && t.pos == i && t.pb == "null"[..i]
    ensures Stacked(t') && Completed(t, Null, t') && Run(t, "null"[i..] + rest, max) == Run(t', rest, max)
    decreases 4 - i
  {
    hide Run;
    var s := "null"[i..] + rest;
    if i == 4 {
      assert s == rest;
      t' := Done(t.(pb := t.pb + [Peek(s)]), Null);
      GoesOn(t, s, max, t', 0);
    } else {
      var t1 := t.(pb := t.pb + [Peek(s)], pos := i + 1);
      assert "null"[..i] + ["null"[i]] == "null"[..i + 1];
      assert s[1..] == "null"[i + 1..] + rest;
      GoesOn(t, s, max, t1, 1);
      t' := WordNull(t1, i + 1, rest, max);
    }
  }

  lemma {:induction false} WordTrue(t: Tok, i: nat, rest: string, max: nat) returns (t': Tok)
    requires Stacked(t) && Top(t).state.Boolean? && Top(t).name == "" && i <= 4 && t.pos == i && t.pb == "true"[..i]
    ensures Stacked(t') && Completed(t, Bool(true), t') && Run(t, "true"[i..] + rest, max) == Run(t', rest, max)
    decreases 4 - i
  {
    hide Run;
    var s := "true"[i..] + rest;
    if i == 4 {
      assert s == rest;
      t' := Done(t.(pb := t.pb + [Peek(s)]), Bool(true));
      GoesOn(t, s, max, t', 0);
    } else {
      var t1 := t.(pb := t.pb + [Peek(s)], pos := i + 1);
      assert "true"[..i] + ["true"[i]] == "true"[..i + 1];
      assert s[1..] == "true"[i + 1..] + rest;
      GoesOn(t, s, max, t1, 1);
      t' := WordTrue(t1, i + 1, rest, max);
    }
  }

  lemma {:induction false} WordFalse(t: Tok, i: nat, rest: string, max: nat) returns (t': Tok)
    requires Stacked(t) && Top(t).state.Boolean? && Top(t).name == "" && i <= 5 && t.pos == i && t.pb == "false"[..i]
    ensures Stacked(t') && Completed(t, Bool(false), t') && Run(t, "false"[i..] + rest, max) == Run(t', rest, max)
    decreases 5 - i
  {
    hide Run, AtBoolean;
    var s := "false"[i..] + rest;
    FalseMove(t, i, s);
    if i == 5 {
      assert s == rest;
      t' := Done(t.(pb := t.pb + [Peek(s)]), Bool(false));
      GoesOn(t, s, max, t', 0);
    } else {
      var t1 := t.(pb := t.pb + [Peek(s)], pos := i + 1);
      assert "false"[..i] + ["false"[i]] == "false"[..i + 1];
      assert s[1..] == "false"[i + 1..] + rest;
      GoesOn(t, s, max, t1, 1);
      t' := WordFalse(t1, i + 1, rest, max);
    }
  }

  lemma FalseMove(t: Tok, i: nat, s: string)
    requires t.stack != [] && i <= 5 && t.pos == i && t.pb == "false"[..i] && (i < 5 ==> Peek(s) == "false"[i])
    ensures AtBoolean(t, s) ==
      if i == 5 then Go(Done(t.(pb := t.pb + [Peek(s)]), Bool(false)), 0)
      else Go(t.(pb := t.pb + [Peek(s)], pos := i + 1), 1)
  {
    var pb := t.pb + [Peek(s)];
    assert pb[0] == 'f';
    assert forall k :: 0 <= k <= i && k < 5 ==> pb[k] == "false"[k];
  }

  lemma {:induction false} ScanDigits(d: string, rest: string, len: nat, signAt: nat)
    requires AllDigits(d) && !IsNumberChar(Peek(rest))
    ensures ScanNumber(d + rest, len, false, false, signAt) == Scan(len + |d|, false, false)
  {
    if d == "" {
      assert d + rest == rest;
    } else {
      assert (d + rest)[1..] == d[1..] + rest;
      ScanDigits(d[1..], rest, len + 1, signAt);
    }
  }

  lemma ScanPrinted(n: int, rest: string)
    requires !IsNumberChar(Peek(rest))
    ensures ScanNumber(Printed(n) + rest, 0, false, false, 1) == Scan(|Printed(n)|, false, false)
  {
    if n < 0 {
      var d := Natural(-n);
      assert (Printed(n) + rest)[1..] == d + rest;
      ScanDigits(d, rest, 1, 1);
    } else {
      ScanDigits(Natural(n), rest, 0, 1);
    }
  }

  lemma NumberText(t: Tok, n: int, rest: string, max: nat) returns (t': Tok)
    requires Stacked(t) && Top(t).state.Number? && Top(t).name == "" && t.pb == "" && !t.isDouble
    requires INT64_MIN <= n <= INT64_MAX && !IsNumberChar(Peek(rest))
    ensures Stacked(t') && Completed(t, Int(n), t') && Run(t, Printed(n) + rest, max) == Run(t', rest, max)
  {
    hide Run, Printed, AtNumber;
    var p := Printed(n);
    assert (p + rest)[|p|..] == rest;
    NumberMove(t, n, rest);
    t' := Done(t.(pb := p), Int(n));
    GoesOn(t, p + rest, max, t', |p|);
  }

  lemma NumberMove(t: Tok, n: int, rest: string)
    requires t.stack != [] && t.pb == "" && !t.isDouble && INT64_MIN <= n <= INT64_MAX && !IsNumberChar(Peek(rest))
    ensures AtNumber(t, Printed(n) + rest) == Go(Done(t.(pb := Printed(n)), Int(n)), |Printed(n)|)
  {
    hide Scanned, ScanNumber, HasDigits, Printed, Natural;
    var p := Printed(n);
    ScanPrinted(n, rest);
    PrintedShape(n);
    ScannedPrinted(n, "");
    assert (p + rest)[..|p|] == p && "" + p == p && (p + rest)[|p|..] == rest && p + "" == p;
  }

  lemma PrintedShape(n: int)
    ensures HasDigits(Printed(n)) && (Printed(n)[0] == '-' ==> |Printed(n)| > 1)
  {
    if n < 0 { assert Printed(n)[1..] == Natural(-n); }
  }

  // ----- Between values -----

  predicate Opens(c: char) { IsDigit(c) || c in ['-', 'n', 't', 'f', '\"', '[', '{'] }

  lemma FirstChar(v: Json, level: nat, f: Layout)
    requires Regular(v)
    ensures Print(v, level, f) != "" && Opens(Print(v, level, f)[0])
  {}

  /** White space first, then no comment. */
  predicate Plain(s: string) {
    Peek(s[Spaces(s)..]) != '/'
  }

  lemma EatAll(t: Tok, s: string, max: nat)
    requires Stacked(t) && Top(t).state.EatWs? && Plain(s)
    ensures Stacked(To(t, Top(t).saved)) && Run(t, s, max) == Run(To(t, Top(t).saved), s[Spaces(s)..], max)
  {
    hide Run, Spaces;
    GoesOn(t, s, max, To(t, Top(t).saved), Spaces(s));
  }

  lemma {:induction false} SpacesTwice(s: string)
    ensures Spaces(s[Spaces(s)..]) == 0
  {}

  /** A finished value goes to the level below, whatever white space stands there. */
  lemma Pop(t: Tok, s: string, max: nat) returns (t': Tok)
    requires Stacked(t) && |t.stack| >= 2 && Top(t).state.EatWs? && Top(t).saved.Finish? && Plain(s)
    ensures t' == Added(t.(obj := Top(t).current, stack := t.stack[..|t.stack| - 1]))
    ensures Stacked(t') && (Top(t').state.EatWs? ==> Run(t, s, max) == Run(t', s, max))
  {
    hide Run, Spaces, PutMember;
    var w, b := s[Spaces(s)..], t.(obj := Top(t).current, stack := t.stack[..|t.stack| - 1]);
    t' := Added(b);
    EatAll(t, s, max);
    var t1 := To(t, Finish);
    assert t1.stack[..|t.stack| - 1] == b.stack;
    GoesOn(t1, w, max, b, 0);
    GoesOn(b, w, max, t', 0);
    assert w[0..] == w;
    SpacesTwice(s);
    assert Plain(w);
    if Top(t').state.EatWs? {
      EatAll(t', w, max);
      EatAll(t', s, max);
    }
  }

  /** t is in the middle of an array or object with this much of it read, before white space. */
  predicate Inside(t: Tok, saved: State, v: Json) {
    t.stack != [] && Top(t) == Level(EatWs, saved, v, "")
  }

  lemma PopItem(t: Tok, base: seq<Level>, p: Level, x: Json, s: string, max: nat) returns (t': Tok)
    requires Stacked(t) && t.stack == (base + [p]) + [Level(EatWs, Finish, x, "")] && Plain(s)
    requires p.current.Arr? && p.name == ""
    ensures Stacked(t') && Inside(t', ArraySep, Arr(p.current.items + [x])) && Base(t') == base
    ensures Run(t, s, max) == Run(t', s, max)
  {
    hide Run, Stacked, Plain;
    BaseOf(t, base + [p], Level(EatWs, Finish, x, ""));
    t' := Pop(t, s, max);
    BaseOf(t', base, Top(t'));
  }

  lemma PopMember(t: Tok, base: seq<Level>, p: Level, x: Json, s: string, max: nat) returns (t': Tok)
    requires Stacked(t) && t.stack == (base + [p]) + [Level(EatWs, Finish, x, "")] && Plain(s)
    requires p.current.Obj? && forall m <- p.current.members :: m.key != p.name
    ensures Stacked(t') && Inside(t', ObjectSep, Obj(p.current.members + [Member(p.name, x)])) && Base(t') == base
    ensures Run(t, s, max) == Run(t', s, max)
  {
    hide Run, Stacked, Plain, PutMember;
    BaseOf(t, base + [p], Level(EatWs, Finish, x, ""));
    t' := Pop(t, s, max);
    PutNew(p.current.members, p.name, x);
    BaseOf(t', base, Top(t'));
  }

  lemma LayoutSpaces(level: nat, f: Layout)
    ensures AllSpaces(Newline(f)) && AllSpaces(Space(f)) && AllSpaces(Indent(level, f))
  {}

  lemma SpacesJoin(a: string, b: string)
    requires AllSpaces(a) && AllSpaces(b)
    ensures AllSpaces(a + b)
  {}

  lemma CloseShape(level: nat, f: Layout, had: bool, bracket: char) returns (w: string)
    ensures AllSpaces(w) && Close(level, f, had, bracket) == w + [bracket]
  {
    LayoutSpaces(level, f);
    w := (if had then Newline(f) else "") + Indent(level, f) + Space(f);
  }

  /** What may follow a value. */
  predicate Follows(s: string) { Plain(s) && !IsNumberChar(Peek(s)) }

  lemma CloseFollows(level: nat, f: Layout, had: bool, bracket: char, rest: string)
    requires bracket == ']' || bracket == '}'
    ensures Follows(Close(level, f, had, bracket) + rest)
  {
    hide Close, Spaces, AllSpaces;
    var w := CloseShape(level, f, had, bracket);
    var s := Close(level, f, had, bracket) + rest;
    assert s == w + ([bracket] + rest);
    SpacesBefore(w, [bracket] + rest);
    assert s[|w|..] == [bracket] + rest;
    assert Peek(s) == if w == "" then bracket else w[0];
    FirstSpace(w);
  }

  lemma FirstSpace(w: string)
    requires AllSpaces(w)
    ensures w != "" ==> IsSpace(w[0])
  {}

  lemma CommaFollows(s: string)
    ensures Follows("," + s)
  {
    SpacesBefore("", "," + s);
    assert "" + ("," + s) == "," + s;
  }

  /** The element or member value that comes next is read one level up. */
  lemma Down(t: Tok, w: string, s: string, waiting: State, max: nat) returns (t': Tok)
    requires Stacked(t) && Top(t).state.EatWs? && AllSpaces(w) && Opens(Peek(s)) && |t.stack| < max
    requires (Top(t).saved in {Array, ArrayAfterSep} && waiting.ArrayAdd?) || (Top(t).saved.Value? && waiting.ValueAdd?)
    ensures Stacked(t') && t'.stack == Base(t) + [Top(t).(state := waiting), FRESH]
    ensures Run(t, w + s, max) == Run(t', s, max)
  {
    hide Run;
    EatSpaces(t, w, s, max);
    var t1 := To(t, Top(t).saved);
    t' := To(t1, waiting).(stack := To(t1, waiting).stack + [FRESH]);
    assert s[0..] == s;
    GoesOn(t1, s, max, t', 0);
  }

  /** A separator or bracket after white space. */
  lemma Mark(t: Tok, w: string, c: char, s: string, t': Tok, max: nat)
    requires Stacked(t) && Top(t).state.EatWs? && AllSpaces(w) && c in [',', ':', ']', '}']
    requires Step(To(t, Top(t).saved), [c] + s, max) == Go(t', 1)
    ensures Stacked(t') && Run(t, w + ([c] + s), max) == Run(t', s, max)
  {
    hide Run, Step;
    EatSpaces(t, w, [c] + s, max);
    assert ([c] + s)[1..] == s;
    GoesOn(To(t, Top(t).saved), [c] + s, max, t', 1);
  }

  // ----- Whole values -----

  /** The tokener after the first character of a value has been looked at, or read. */
  function Begun(t: Tok, c: char): Tok
    requires t.stack != []
  {
    if c == '{' then SetTop(t, Level(EatWs, FieldStart, Obj([]), ""))
    else if c == '[' then SetTop(t, Level(EatWs, Array, Arr([]), ""))
    else if c == 'n' then To(t, Nul).(pb := "", pos := 0)
    else if c == '\"' then To(t, String).(pb := "", quote := c)
    else if c == 't' || c == 'f' then To(t, Boolean).(pb := "", pos := 0)
    else To(t, Number).(pb := "", isDouble := false)
  }

  /** The start of a value: brackets and quotes are read, the rest is looked at again. */
  lemma Begin(t: Tok, s: string, max: nat)
    requires Stacked(t) && Top(t) == FRESH && Opens(Peek(s))
    ensures Stacked(Begun(t, Peek(s)))
    ensures Run(t, s, max) == Run(Begun(t, Peek(s)), if Peek(s) in ['{', '[', '\"'] then s[1..] else s, max)
  {
    hide Run;
    var c := Peek(s);
    assert "" + s == s && s[0..] == s;
    EatSpaces(t, "", s, max);
    GoesOn(To(t, Start), s, max, Begun(t, c), if c in ['{', '[', '\"'] then 1 else 0);
  }

  lemma Scalar(t: Tok, v: Json, level: nat, f: Layout, rest: string, max: nat) returns (t': Tok)
    requires Stacked(t) && Top(t) == FRESH && Regular(v) && !v.Arr? && !v.Obj? && !IsNumberChar(Peek(rest))
    ensures Stacked(t') && Completed(t, v, t') && Run(t, Print(v, level, f) + rest, max) == Run(t', rest, max)
  {
    hide Run, Escape, Printed, Stacked, Step;
    var p := Print(v, level, f);
    var s := p + rest;
    FirstChar(v, level, f);
    assert s[0] == p[0];
    Begin(t, s, max);
    var t1 := Begun(t, s[0]);
    match v
    case Null => t' := WordNull(t1, 0, rest, max);
    case Bool(b) =>
      if b {
        t' := WordTrue(t1, 0, rest, max);
      } else {
        t' := WordFalse(t1, 0, rest, max);
      }
    case Int(n) => t' := NumberText(t1, n, rest, max);
    case Str(u) =>
      assert s[1..] == Escape(u, f) + ("\"" + rest);
      t' := QuotedText(t1, u, f, rest, max);
  }

  /** The closing bracket. */
  lemma Ending(t: Tok, w: string, level: nat, f: Layout, had: bool, rest: string, max: nat) returns (t': Tok)
    requires Stacked(t) && AllSpaces(w)
    requires (Top(t).current.Arr? && Top(t).saved in {Array, ArraySep}) || (Top(t).current.Obj? && Top(t).saved in {FieldStart, ObjectSep})
    requires Inside(t, Top(t).saved, Top(t).current)
    ensures Stacked(t') && Completed(t, Top(t).current, t')
    ensures Run(t, w + (Close(level, f, had, if Top(t).current.Arr? then ']' else '}') + rest), max) == Run(t', rest, max)
  {
    hide Run, Close, Spaces;
    var c := if Top(t).current.Arr? then ']' else '}';
    var w2 := CloseShape(level, f, had, c);
    SpacesJoin(w, w2);
    assert w + (Close(level, f, had, c) + rest) == (w + w2) + ([c] + rest);
    t' := EatThen(t, Finish);
    Mark(t, w + w2, c, rest, t', max);
  }

  /** The comma, if elements came before, and the white space up to the next one. */
  lemma Next(t: Tok, w: string, had: bool, level: nat, f: Layout, s: string, max: nat) returns (t': Tok, w': string)
    requires Stacked(t) && AllSpaces(w)
    requires (Top(t).current.Arr? && Top(t).saved == if had then ArraySep else Array)
      || (Top(t).current.Obj? && Top(t).saved == if had then ObjectSep else FieldStart)
    requires Inside(t, Top(t).saved, Top(t).current)
    ensures Stacked(t') && AllSpaces(w') && t'.stack == Base(t) + [Top(t).(saved := Top(t').saved)]
    ensures Top(t').saved in if Top(t).current.Arr? then {Array, ArrayAfterSep} else {FieldStart, FieldStartAfterSep}
    ensures Run(t, w + (Comma(had, f) + (Space(f) + (Indent(level, f) + s))), max) == Run(t', w' + s, max)
  {
    hide Run, Indent, Newline, Space, AllSpaces;
    LayoutSpaces(level, f);
    SpacesJoin(Space(f), Indent(level, f));
    var gap := Space(f) + Indent(level, f);
    if had {
      SpacesJoin(Newline(f), gap);
      w' := Newline(f) + gap;
      assert w + (Comma(had, f) + (Space(f) + (Indent(level, f) + s))) == w + ([','] + (w' + s));
      t' := EatThen(t, if Top(t).current.Arr? then ArrayAfterSep else FieldStartAfterSep);
      Mark(t, w, ',', w' + s, t', max);
    } else {
      SpacesJoin(w, gap);
      w' := w + gap;
      assert w + (Comma(had, f) + (Space(f) + (Indent(level, f) + s))) == w' + s;
      t' := t;
    }
  }

  /** From the quote of a key to the place of its value. */
  lemma Key(t: Tok, w: string, key: string, f: Layout, s: string, max: nat) returns (t': Tok)
    requires Stacked(t) && Top(t).state.EatWs? && Top(t).saved in {FieldStart, FieldStartAfterSep} && AllSpaces(w) && NUL !in key
    ensures Stacked(t') && t'.stack == Base(t) + [Level(EatWs, Value, Top(t).current, key)]
    ensures Run(t, w + ("\"" + (Escape(key, f) + ("\":" + s))), max) == Run(t', s, max)
  {
    hide Run, Escape, Spaces, Stacked, AllSpaces, Step;
    var e := Escape(key, f) + ("\"" + (":" + s));
    assert "\":" + s == "\"" + (":" + s);
    OpenKey(t, w, e, max);
    var t1 := To(t, Field).(pb := "", quote := '\"');
    var t2 := QuotedText(t1, key, f, ":" + s, max);
    WholeKey(key);
    t' := EatThen(t2, Value);
    BaseOf(t2, Base(t), Top(t2));
    Colon(t2, s, max);
  }

  lemma OpenKey(t: Tok, w: string, e: string, max: nat)
    requires Stacked(t) && Top(t).state.EatWs? && Top(t).saved in {FieldStart, FieldStartAfterSep} && AllSpaces(w)
    ensures var t1 := To(t, Field).(pb := "", quote := '\"');
      Stacked(t1) && Run(t, w + ("\"" + e), max) == Run(t1, e, max)
  {
    hide Run, Spaces;
    EatSpaces(t, w, "\"" + e, max);
    assert ("\"" + e)[1..] == e;
    GoesOn(To(t, Top(t).saved), "\"" + e, max, To(t, Field).(pb := "", quote := '\"'), 1);
  }

  lemma Colon(t: Tok, s: string, max: nat)
    requires Stacked(t) && Top(t).state.EatWs? && Top(t).saved.FieldEnd?
    ensures Stacked(EatThen(t, Value)) && Run(t, ":" + s, max) == Run(EatThen(t, Value), s, max)
  {
    hide Run, Spaces;
    assert "" + ([':'] + s) == ":" + s;
    Mark(t, "", ':', s, EatThen(t, Value), max);
  }

  lemma {:induction false} WholeKey(key: string)
    requires NUL !in key
    ensures UpToNul(key) == key
  {
    if key != "" {
      assert key[0] in key;
      assert forall c :: c in key[1..] ==> c in key;
      WholeKey(key[1..]);
    }
  }

  /** The text after an element: more of them or the closing bracket. */
  lemma ItemsFollow(todo: seq<Json>, level: nat, f: Layout, rest: string)
    ensures Follows(PrintItems(todo, level, f, true) + (Close(level, f, true, ']') + rest))
  {
    hide Follows, Print, Close;
    var tail := Close(level, f, true, ']') + rest;
    if todo == [] {
      assert PrintItems(todo, level, f, true) + tail == tail;
      CloseFollows(level, f, true, ']', rest);
    } else {
      var s := PrintItems(todo, level, f, true) + tail;
      assert s == "," + s[1..];
      CommaFollows(s[1..]);
    }
  }

  lemma MembersFollow(todo: seq<Member>, level: nat, f: Layout, rest: string)
    ensures Follows(PrintMembers(todo, level, f, true) + (Close(level, f, true, '}') + rest))
  {
    hide Follows, Print, Close, Escape;
    var tail := Close(level, f, true, '}') + rest;
    if todo == [] {
      assert PrintMembers(todo, level, f, true) + tail == tail;
      CloseFollows(level, f, true, '}', rest);
    } else {
      var s := PrintMembers(todo, level, f, true) + tail;
      assert s == "," + s[1..];
      CommaFollows(s[1..]);
    }
  }

  lemma ItemsText(todo: seq<Json>, had: bool, level: nat, f: Layout, close: string)
    ensures todo == [] ==> PrintItems(todo, level, f, had) + close == close
    ensures todo != [] ==>
      (PrintItems(todo, level, f, had) + close ==
       Comma(had, f) + (Space(f) + (Indent(level + 1, f) + (Print(todo[0], level + 1, f) + (PrintItems(todo[1..], level, f, true) + close)))))
  {
    hide Comma, Space, Indent, Print;
  }

  function Keyed(key: string, f: Layout, s: string): string {
    "\"" + (Escape(key, f) + ("\":" + (Space(f) + s)))
  }

  lemma MembersText(todo: seq<Member>, had: bool, level: nat, f: Layout, close: string)
    ensures todo == [] ==> PrintMembers(todo, level, f, had) + close == close
    ensures todo != [] ==>
      (PrintMembers(todo, level, f, had) + close ==
       Comma(had, f) + (Space(f) + (Indent(level + 1, f) +
       Keyed(todo[0].key, f, Print(todo[0].value, level + 1, f) + (PrintMembers(todo[1..], level, f, true) + close)))))
  {
    hide Comma, Space, Indent, Print, Escape;
  }

  lemma ArrText(items: seq<Json>, level: nat, f: Layout, rest: string)
    ensures Print(Arr(items), level, f) + rest ==
      "[" + (Newline(f) + (PrintItems(items, level, f, false) + (Close(level, f, items != [], ']') + rest)))
  {
    hide Newline, PrintItems, Close;
  }

  lemma ObjText(members: seq<Member>, level: nat, f: Layout, rest: string)
    ensures Print(Obj(members), level, f) + rest ==
      "{" + (Newline(f) + (PrintMembers(members, level, f, false) + (Close(level, f, members != [], '}') + rest)))
  {
    hide Newline, PrintMembers, Close;
  }

  lemma NoSpaces()
    ensures AllSpaces("")
  {}

  /** Up to the next element. */
  lemma ToItem(t: Tok, w: string, done: seq<Json>, level: nat, f: Layout, s: string, max: nat) returns (t': Tok, l: Level)
    requires Stacked(t) && Inside(t, if done == [] then Array else ArraySep, Arr(done)) && AllSpaces(w)
    requires Opens(Peek(s)) && |t.stack| < max
    ensures Stacked(t') && t'.stack == (Base(t) + [l]) + [FRESH] && l.current == Arr(done) && l.name == ""
    ensures Run(t, w + (Comma(done != [], f) + (Space(f) + (Indent(level, f) + s))), max) == Run(t', s, max)
  {
    hide Run, Stacked, AllSpaces, Opens, Indent, Comma, Space;
    var t1, w1 := Next(t, w, done != [], level, f, s, max);
    BaseOf(t1, Base(t), Top(t1));
    t' := Down(t1, w1, s, ArrayAdd, max);
    l := Top(t1).(state := ArrayAdd);
  }

  /** Up to the value of the next member. */
  lemma ToMember(t: Tok, w: string, done: seq<Member>, key: string, level: nat, f: Layout, s: string, max: nat) returns (t': Tok)
    requires Stacked(t) && Inside(t, if done == [] then FieldStart else ObjectSep, Obj(done)) && AllSpaces(w)
    requires Opens(Peek(s)) && |t.stack| < max && NUL !in key
    ensures Stacked(t') && t'.stack == (Base(t) + [Level(ValueAdd, Value, Obj(done), key)]) + [FRESH]
    ensures Run(t, w + (Comma(done != [], f) + (Space(f) + (Indent(level, f) + Keyed(key, f, s)))), max) == Run(t', s, max)
  {
    LayoutSpaces(level, f);
    hide Run, Stacked, AllSpaces, Opens, Indent, Comma, Space, Escape;
    var t1, w1 := Next(t, w, done != [], level, f, Keyed(key, f, s), max);
    BaseOf(t1, Base(t), Top(t1));
    var t2 := Key(t1, w1, key, f, Space(f) + s, max);
    BaseOf(t2, Base(t), Level(EatWs, Value, Obj(done), key));
    t' := Down(t2, Space(f), s, ValueAdd, max);
  }

  /** A printed value is read back, at any place of any text, and nothing after it is touched. */
  lemma {:induction false} Parse(t: Tok, v: Json, level: nat, f: Layout, rest: string, max: nat) returns (t': Tok)
    requires Stacked(t) && Top(t) == FRESH && Regular(v) && !IsNumberChar(Peek(rest)) && |t.stack| + Height(v) <= max
    ensures Stacked(t') && Completed(t, v, t') && Run(t, Print(v, level, f) + rest, max) == Run(t', rest, max)
    decreases v, 0
  {
    hide Run, Stacked, Print, PrintItems, PrintMembers, Close, Newline, AllSpaces, IsNumberChar, Plain;
    var s := Print(v, level, f) + rest;
    LayoutSpaces(level, f);
    match v
    case Arr(items) =>
      ArrText(items, level, f, rest);
      Begin(t, s, max);
      var t1 := Begun(t, '[');
      assert [] + items == items;
      t' := Items(t1, Newline(f), [], items, level, f, rest, max);
    case Obj(members) =>
      ObjText(members, level, f, rest);
      Begin(t, s, max);
      var t1 := Begun(t, '{');
      assert [] + members == members;
      KeysOf(members);
      t' := Members(t1, Newline(f), [], members, level, f, rest, max);
    case _ =>
      t' := Scalar(t, v, level, f, rest, max);
  }

  lemma {:induction false} Items(t: Tok, w: string, done: seq<Json>, todo: seq<Json>, level: nat, f: Layout, rest: string, max: nat) returns (t': Tok)
    requires Stacked(t) && Inside(t, if done == [] then Array else ArraySep, Arr(done)) && AllSpaces(w)
    requires forall x <- todo :: Regular(x) && |t.stack| + Height(x) < max
    ensures Stacked(t') && Completed(t, Arr(done + todo), t')
    ensures Run(t, w + (PrintItems(todo, level, f, done != []) + (Close(level, f, done + todo != [], ']') + rest)), max) == Run(t', rest, max)
    decreases todo, 1
  {
    hide Run, Stacked, Close, Plain, Print, PrintItems, AllSpaces, IsNumberChar, Regular, Height, Opens, Indent, Comma, Space;
    var had, close := done != [], Close(level, f, done + todo != [], ']') + rest;
    ItemsText(todo, had, level, f, close);
    if todo == [] {
      assert done + todo == done;
      t' := Ending(t, w, level, f, done != [], rest, max);
    } else {
      var x, more := todo[0], PrintItems(todo[1..], level, f, true) + close;
      var p := Print(x, level + 1, f);
      assert x in todo;
      FirstChar(x, level + 1, f);
      ItemsFollow(todo[1..], level, f, rest);
      var base := Base(t);
      var t1, l := ToItem(t, w, done, level + 1, f, p + more, max);
      BaseOf(t1, base + [l], FRESH);
      var t2 := Parse(t1, x, level + 1, f, more, max);
      var t3 := PopItem(t2, base, l, x, more, max);
      assert "" + more == more && (done + [x]) + todo[1..] == done + todo;
      NoSpaces();
      t' := Items(t3, "", done + [x], todo[1..], level, f, rest, max);
    }
  }

  lemma {:induction false} Members(t: Tok, w: string, done: seq<Member>, todo: seq<Member>, level: nat, f: Layout, rest: string, max: nat) returns (t': Tok)
    requires Stacked(t) && Inside(t, if done == [] then FieldStart else ObjectSep, Obj(done)) && AllSpaces(w)
    requires forall m <- todo :: NUL !in m.key && Regular(m.value) && |t.stack| + Height(m.value) < max
    requires UniqueKeys(done + todo)
    ensures Stacked(t') && Completed(t, Obj(done + todo), t')
    ensures Run(t, w + (PrintMembers(todo, level, f, done != []) + (Close(level, f, done + todo != [], '}') + rest)), max) == Run(t', rest, max)
    decreases todo, 1
  {
    hide Run, Stacked, Close, Plain, Print, PrintMembers, Keyed, AllSpaces, IsNumberChar, Regular, Height, Opens, Indent, Comma, Space, UniqueKeys;
    var had, close := done != [], Close(level, f, done + todo != [], '}') + rest;
    MembersText(todo, had, level, f, close);
    if todo == [] {
      assert done + todo == done;
      t' := Ending(t, w, level, f, done != [], rest, max);
    } else {
      var m, more := todo[0], PrintMembers(todo[1..], level, f, true) + close;
      var p, l := Print(m.value, level + 1, f), Level(ValueAdd, Value, Obj(done), m.key);
      assert m in todo;
      FirstChar(m.value, level + 1, f);
      MembersFollow(todo[1..], level, f, rest);
      var base := Base(t);
      var t1 := ToMember(t, w, done, m.key, level + 1, f, p + more, max);
      BaseOf(t1, base + [l], FRESH);
      var t2 := Parse(t1, m.value, level + 1, f, more, max);
      KeyIsNew(done, todo);
      var t3 := PopMember(t2, base, l, m.value, more, max);
      assert "" + more == more && (done + [m]) + todo[1..] == done + todo;
      NoSpaces();
      t' := Members(t3, "", done + [m], todo[1..], level, f, rest, max);
    }
  }

  lemma KeysOf(members: seq<Member>)
    requires Regular(Obj(members))
    ensures UniqueKeys(members)
  {
    var l := Listed(members);
    assert forall i :: 0 <= i < |l| ==> l[i].key == members[i].key;
  }

  predicate UniqueKeys(members: seq<Member>) {
    forall i, j :: 0 <= i < j < |members| ==> members[i].key != members[j].key
  }

  lemma KeyIsNew(done: seq<Member>, todo: seq<Member>)
    requires todo != [] && UniqueKeys(done + todo)
    ensures forall m <- done :: m.key != todo[0].key
  {
    var all := done + todo;
    assert all[|done|] == todo[0];
    forall i | 0 <= i < |done| ensures done[i].key != todo[0].key {
      assert all[i] == done[i];
    }
  }

  // ----- Too deep -----

  lemma DownFails(t: Tok, w: string, s: string, max: nat)
    requires Stacked(t) && Top(t).state.EatWs? && AllSpaces(w) && Opens(Peek(s)) && |t.stack| >= max
    requires Top(t).saved in {Array, ArrayAfterSep, Value}
    ensures Run(t, w + s, max) == Err(DepthError)
  {
    hide Run;
    EatSpaces(t, w, s, max);
    Once(To(t, Top(t).saved), s, max);
  }

  lemma ItemFails(t: Tok, w: string, done: seq<Json>, level: nat, f: Layout, s: string, max: nat)
    requires Stacked(t) && Inside(t, if done == [] then Array else ArraySep, Arr(done)) && AllSpaces(w)
    requires Opens(Peek(s)) && |t.stack| >= max
    ensures Run(t, w + (Comma(done != [], f) + (Space(f) + (Indent(level, f) + s))), max) == Err(DepthError)
  {
    hide Run, Stacked, AllSpaces, Opens, Indent, Comma, Space;
    var t1, w1 := Next(t, w, done != [], level, f, s, max);
    BaseOf(t1, Base(t), Top(t1));
    DownFails(t1, w1, s, max);
  }

  lemma MemberFails(t: Tok, w: string, done: seq<Member>, key: string, level: nat, f: Layout, s: string, max: nat)
    requires Stacked(t) && Inside(t, if done == [] then FieldStart else ObjectSep, Obj(done)) && AllSpaces(w)
    requires Opens(Peek(s)) && |t.stack| >= max && NUL !in key
    ensures Run(t, w + (Comma(done != [], f) + (Space(f) + (Indent(level, f) + Keyed(key, f, s)))), max) == Err(DepthError)
  {
    LayoutSpaces(level, f);
    hide Run, Stacked, AllSpaces, Opens, Indent, Comma, Space, Escape;
    var t1, w1 := Next(t, w, done != [], level, f, Keyed(key, f, s), max);
    BaseOf(t1, Base(t), Top(t1));
    var t2 := Key(t1, w1, key, f, Space(f) + s, max);
    BaseOf(t2, Base(t), Level(EatWs, Value, Obj(done), key));
    DownFails(t2, Space(f), s, max);
  }

  /** A printed value that is nested too deep is refused for that reason. */
  lemma {:induction false} TooDeep(t: Tok, v: Json, level: nat, f: Layout, rest: string, max: nat)
    requires Stacked(t) && Top(t) == FRESH && Regular(v) && |t.stack| <= max < |t.stack| + Height(v)
    ensures Run(t, Print(v, level, f) + rest, max) == Err(DepthError)
    decreases v, 0
  {
    hide Run, Stacked, Print, PrintItems, PrintMembers, Close, Newline, AllSpaces;
    var s := Print(v, level, f) + rest;
    LayoutSpaces(level, f);
    match v
    case Arr(items) =>
      ArrText(items, level, f, rest);
      Begin(t, s, max);
      assert [] + items == items;
      TooDeepItems(Begun(t, '['), Newline(f), [], items, level, f, rest, max);
    case Obj(members) =>
      ObjText(members, level, f, rest);
      Begin(t, s, max);
      assert [] + members == members;
      KeysOf(members);
      TooDeepMembers(Begun(t, '{'), Newline(f), [], members, level, f, rest, max);
    case _ =>
  }

  lemma {:induction false} TooDeepItems(t: Tok, w: string, done: seq<Json>, todo: seq<Json>, level: nat, f: Layout, rest: string, max: nat)
    requires Stacked(t) && Inside(t, if done == [] then Array else ArraySep, Arr(done)) && AllSpaces(w)
    requires todo != [] && |t.stack| <= max <= |t.stack| + Highest(todo) && forall x <- todo :: Regular(x)
    ensures Run(t, w + (PrintItems(todo, level, f, done != []) + (Close(level, f, done + todo != [], ']') + rest)), max) == Err(DepthError)
    decreases todo, 1
  {
    hide Run, Stacked, Close, Plain, Print, PrintItems, AllSpaces, IsNumberChar, Regular, Height, Opens, Indent, Comma, Space;
    var had, close := done != [], Close(level, f, done + todo != [], ']') + rest;
    ItemsText(todo, had, level, f, close);
    var x, more := todo[0], PrintItems(todo[1..], level, f, true) + close;
    var p := Print(x, level + 1, f);
    assert x in todo;
    FirstChar(x, level + 1, f);
    if |t.stack| >= max {
      ItemFails(t, w, done, level + 1, f, p + more, max);
    } else {
      var base := Base(t);
      var t1, l := ToItem(t, w, done, level + 1, f, p + more, max);
      BaseOf(t1, base + [l], FRESH);
      if |t1.stack| + Height(x) > max {
        TooDeep(t1, x, level + 1, f, more, max);
      } else {
        ItemsFollow(todo[1..], level, f, rest);
        var t2 := Parse(t1, x, level + 1, f, more, max);
        var t3 := PopItem(t2, base, l, x, more, max);
        assert "" + more == more && (done + [x]) + todo[1..] == done + todo;
        NoSpaces();
        TooDeepItems(t3, "", done + [x], todo[1..], level, f, rest, max);
      }
    }
  }

  lemma {:induction false} TooDeepMembers(t: Tok, w: string, done: seq<Member>, todo: seq<Member>, level: nat, f: Layout, rest: string, max: nat)
    requires Stacked(t) && Inside(t, if done == [] then FieldStart else ObjectSep, Obj(done)) && AllSpaces(w)
    requires todo != [] && |t.stack| <= max <= |t.stack| + HighestMember(todo)
    requires UniqueKeys(done + todo) && forall m <- todo :: NUL !in m.key && Regular(m.value)
    ensures Run(t, w + (PrintMembers(todo, level, f, done != []) + (Close(level, f, done + todo != [], '}') + rest)), max) == Err(DepthError)
    decreases todo, 1
  {
    hide Run, Stacked, Close, Plain, Print, PrintMembers, Keyed, AllSpaces, IsNumberChar, Regular, Height, Opens, Indent, Comma, Space, UniqueKeys;
    var had, close := done != [], Close(level, f, done + todo != [], '}') + rest;
    MembersText(todo, had, level, f, close);
    var m, more := todo[0], PrintMembers(todo[1..], level, f, true) + close;
    var p, l := Print(m.value, level + 1, f), Level(ValueAdd, Value, Obj(done), m.key);
    assert m in todo;
    FirstChar(m.value, level + 1, f);
    if |t.stack| >= max {
      MemberFails(t, w, done, m.key, level + 1, f, p + more, max);
    } else {
      var base := Base(t);
      var t1 := ToMember(t, w, done, m.key, level + 1, f, p + more, max);
      BaseOf(t1, base + [l], FRESH);
      if |t1.stack| + Height(m.value) > max {
        TooDeep(t1, m.value, level + 1, f, more, max);
      } else {
        MembersFollow(todo[1..], level, f, rest);
        var t2 := Parse(t1, m.value, level + 1, f, more, max);
        KeyIsNew(done, todo);
        var t3 := PopMember(t2, base, l, m.value, more, max);
        assert "" + more == more && (done + [m]) + todo[1..] == done + todo;
        NoSpaces();
        TooDeepMembers(t3, "", done + [m], todo[1..], level, f, rest, max);
      }
    }
  }

  // ----- Whole texts -----

  /** A printed value is returned whatever follows it, but for more of a number or a comment. */
  lemma TrailingIgnored(v: Json, f: Layout, rest: string, max: nat)
    requires Regular(v) && Height(v) < max && Follows(rest)
    ensures Run(INITIAL, Print(v, 0, f) + rest, max) == Ok(v)
  {
    hide Run, Print, Regular, IsNumberChar, Spaces;
    var t := Parse(INITIAL, v, 0, f, rest, max);
    BaseOf(t, [], Level(EatWs, Finish, v, ""));
    EatAll(t, rest, max);
    Once(To(t, Finish), rest[Spaces(rest)..], max);
  }

  /**
   * For every regular tree, in every layout, parsing the printed text gives the tree, with its keys in
   * the same order, if it is nested less deep than the tokener has levels, and a nesting error if not.
   */
  lemma RoundTrip(v: Json, f: Layout, max: nat)
    requires Regular(v) && max >= 1
    ensures Run(INITIAL, Print(v, 0, f), max) == if Height(v) < max then Ok(v) else Err(DepthError)
  {
    hide Run, Print, Regular;
    var s := Print(v, 0, f);
    assert s + "" == s;
    if Height(v) < max {
      NothingFollows();
      TrailingIgnored(v, f, "", max);
    } else {
      TooDeep(INITIAL, v, 0, f, "", max);
    }
  }

  lemma NothingFollows()
    ensures Follows("")
  {}

  /** Inside a comment nothing but its end counts; at the end of the text the finished value is returned. */
  lemma {:induction false} EndInComment(t: Tok, u: string, max: nat)
    requires Stacked(t) && Top(t).state.Comment? && Top(t).saved.Finish? && '*' !in u
    ensures Run(t, u, max) == Ok(Top(t).current)
    decreases |u|
  {
    hide Run;
    Once(t, u, max);
    if Peek(u) != NUL {
      assert u[0] in u;
      assert forall c :: c in u[1..] ==> c in u;
      EndInComment(t, u[1..], max);
    }
  }

  /** So an array that breaks off in a comment after its first element is taken for that element. */
  lemma BrokenArray(v: Json, f: Layout, u: string, max: nat)
    requires Regular(v) && Height(v) + 1 < max && '*' !in u
    ensures Run(INITIAL, "[" + (Print(v, 0, f) + ("/*" + u)), max) == Ok(v)
  {
    hide Run, Print, Regular, Step, Height;
    var p, rest := Print(v, 0, f), "/*" + u;
    var s := "[" + (p + rest);
    assert s[1..] == p + rest;
    Begin(INITIAL, s, max);
    FirstChar(v, 0, f);
    NoSpaces();
    assert "" + (p + rest) == p + rest;
    var t := Begun(INITIAL, '[');
    var t1 := Down(t, "", p + rest, ArrayAdd, max);
    var l := Top(t).(state := ArrayAdd);
    assert Base(t) + [l, FRESH] == [l] + [FRESH];
    BaseOf(t1, [l], FRESH);
    var t2 := Parse(t1, v, 0, f, rest, max);
    BaseOf(t2, [l], Level(EatWs, Finish, v, ""));
    OpenComment(t2, u, max);
  }

  lemma OpenComment(t: Tok, u: string, max: nat)
    requires Stacked(t) && Top(t).state.EatWs? && '*' !in u && Top(t).saved.Finish?
    ensures Run(t, "/*" + u, max) == Ok(Top(t).current)
  {
    hide Run;
    var s := "/*" + u;
    assert Spaces(s) == 0 && s[0..] == s;
    var t1 := To(t, CommentStart).(pb := "/");
    assert s[1..] == "*" + u;
    GoesOn(t, s, max, t1, 1);
    assert ("*" + u)[1..] == u;
    GoesOn(t1, "*" + u, max, To(t1, Comment), 1);
    EndInComment(To(t1, Comment), u, max);
  }
}
