/**
 * What the tokener makes of texts that the printer does not write: words in any case, numbers of any size,
 * single quotes and comments.
 */
module JsonTexts {
  import opened Arith
  import opened Decimal
  import opened JsonTree
  import opened JsonTokener
  import opened JsonRoundTrip

  /** The white space of the C locale. */
  lemma SpaceCodes(c: char)
    ensures IsSpace(c) <==> c as int in {0x20, 0x09, 0x0A, 0x0B, 0x0C, 0x0D}
  {}

  /** A value that is complete on the outermost level ends the text. */
  lemma WholeText(t: Tok, v: Json, max: nat)
    requires Stacked(t) && t.stack == [Level(EatWs, Finish, v, "")]
    ensures Run(t, "", max) == Ok(v)
  {
    hide Run;
    EatAll(t, "", max);
    Once(To(t, Finish), "", max);
  }

  // ----- Words in any case -----

  /** w is the lower-case word with some of its letters in upper case. */
  ghost predicate AnyCase(w: string, word: string) {
    |w| == |word| && forall i :: 0 <= i < |w| ==> w[i] == word[i] || w[i] as int + 32 == word[i] as int
  }

  lemma LowerOf(c: char, d: char)
    requires 'a' <= d <= 'z' && (c == d || c as int + 32 == d as int)
    ensures Lower(c) == d
  {}

  predicate Letters(word: string) { forall i :: 0 <= i < |word| ==> 'a' <= word[i] <= 'z' }

  lemma PrefixMatches(w: string, word: string, n: nat, more: string)
    requires AnyCase(w, word) && Letters(word) && n <= |w|
    ensures Matches(word, w[..n] + more, n)
  {
    forall i | 0 <= i < n ensures Lower((w[..n] + more)[i]) == word[i] { LowerOf(w[i], word[i]); }
  }

  /** The tokener in the middle of a word. */
  predicate InWord(t: Tok, w: string, i: nat) {
    i <= |w| && t.pos == i && t.pb == w[..i] && t.stack != [] && Top(t).name == ""
  }

  lemma {:induction false} TrueRead(t: Tok, w: string, i: nat, rest: string, max: nat) returns (t': Tok)
    requires Stacked(t) && Top(t).state.Boolean? && AnyCase(w, "true") && InWord(t, w, i)
    ensures Stacked(t') && Completed(t, Bool(true), t') && Run(t, w[i..] + rest, max) == Run(t', rest, max)
    decreases 4 - i
  {
    hide Run, AnyCase, Matches;
    WordSize(w, "true");
    var s := w[i..] + rest;
    if i == 4 {
      assert s == rest && w[..4] == w;
      PrefixMatches(w, "true", 4, [Peek(s)]);
      t' := Done(t.(pb := t.pb + [Peek(s)]), Bool(true));
      GoesOn(t, s, max, t', 0);
    } else {
      var t1 := t.(pb := t.pb + [Peek(s)], pos := i + 1);
      assert w[..i] + [w[i]] == w[..i + 1] + "" && s[1..] == w[i + 1..] + rest;
      PrefixMatches(w, "true", i + 1, "");
      LetterNotNul(w, "true", i);
      GoesOn(t, s, max, t1, 1);
      t' := TrueRead(t1, w, i + 1, rest, max);
    }
  }

  lemma WordSize(w: string, word: string)
    requires AnyCase(w, word)
    ensures |w| == |word|
  {}

  lemma LetterNotNul(w: string, word: string, i: nat)
    requires AnyCase(w, word) && Letters(word) && i < |w|
    ensures w[i] != NUL
  {}

  /** A word that starts otherwise does not match. */
  lemma NoMatch(w: string, word: string, pb: string, n: nat)
    requires n > 0 && pb != "" && word != "" && Lower(pb[0]) != word[0]
    ensures !Matches(word, pb, n)
  {}

  lemma {:induction false} FalseRead(t: Tok, w: string, i: nat, rest: string, max: nat) returns (t': Tok)
    requires Stacked(t) && Top(t).state.Boolean? && AnyCase(w, "false") && InWord(t, w, i)
    ensures Stacked(t') && Completed(t, Bool(false), t') && Run(t, w[i..] + rest, max) == Run(t', rest, max)
    decreases 5 - i
  {
    hide Run, AnyCase, Matches;
    WordSize(w, "false");
    var s := w[i..] + rest;
    FirstOf(w, "false", 'f');
    NoMatch(w, "true", t.pb + [Peek(s)], Min(i + 1, 4));
    if i == 5 {
      assert s == rest && w[..5] == w;
      PrefixMatches(w, "false", 5, [Peek(s)]);
      t' := Done(t.(pb := t.pb + [Peek(s)]), Bool(false));
      GoesOn(t, s, max, t', 0);
    } else {
      var t1 := t.(pb := t.pb + [Peek(s)], pos := i + 1);
      assert w[..i] + [w[i]] == w[..i + 1] + "" && s[1..] == w[i + 1..] + rest;
      PrefixMatches(w, "false", i + 1, "");
      LetterNotNul(w, "false", i);
      GoesOn(t, s, max, t1, 1);
      t' := FalseRead(t1, w, i + 1, rest, max);
    }
  }

  lemma FirstOf(w: string, word: string, c: char)
    requires AnyCase(w, word) && word != "" && word[0] == c && 'a' <= c <= 'z'
    ensures Lower(w[0]) == c
  {}

  lemma {:induction false} NullRead(t: Tok, w: string, i: nat, rest: string, max: nat) returns (t': Tok)
    requires Stacked(t) && Top(t).state.Nul? && AnyCase(w, "null") && InWord(t, w, i)
    ensures Stacked(t') && Completed(t, Null, t') && Run(t, w[i..] + rest, max) == Run(t', rest, max)
    decreases 4 - i
  {
    hide Run, AnyCase, Matches;
    WordSize(w, "null");
    var s := w[i..] + rest;
    if i == 4 {
      assert s == rest && w[..4] == w;
      PrefixMatches(w, "null", 4, [Peek(s)]);
      t' := Done(t.(pb := t.pb + [Peek(s)]), Null);
      GoesOn(t, s, max, t', 0);
    } else {
      var t1 := t.(pb := t.pb + [Peek(s)], pos := i + 1);
      assert w[..i] + [w[i]] == w[..i + 1] + "" && s[1..] == w[i + 1..] + rest;
      PrefixMatches(w, "null", i + 1, "");
      LetterNotNul(w, "null", i);
      GoesOn(t, s, max, t1, 1);
      t' := NullRead(t1, w, i + 1, rest, max);
    }
  }

  /** The start of a value as the tokener looks at it. */
  lemma Starts(s: string, t1: Tok, n: nat, max: nat)
    requires !IsSpace(Peek(s)) && Peek(s) != '/' && AtStart(To(INITIAL, Start), s) == Go(t1, n)
    ensures Stacked(t1) && n <= |s| && Run(INITIAL, s, max) == Run(t1, s[n..], max)
  {
    hide Run, AtStart;
    assert "" + s == s;
    EatSpaces(INITIAL, "", s, max);
    GoesOn(To(INITIAL, Start), s, max, t1, n);
  }

  /** true, false and null are recognised in every mixture of cases. */
  lemma WordsInAnyCase(w: string, max: nat)
    ensures AnyCase(w, "true") ==> Run(INITIAL, w, max) == Ok(Bool(true))
    ensures AnyCase(w, "false") ==> Run(INITIAL, w, max) == Ok(Bool(false))
    ensures AnyCase(w, "null") ==> Run(INITIAL, w, max) == Ok(Null)
  {
    hide Run;
    if AnyCase(w, "true") { TrueText(w, max); }
    if AnyCase(w, "false") { FalseText(w, max); }
    if AnyCase(w, "null") { NullText(w, max); }
  }

  lemma TrueText(w: string, max: nat)
    requires AnyCase(w, "true")
    ensures Run(INITIAL, w, max) == Ok(Bool(true))
  {
    hide Run;
    var t := To(To(INITIAL, Start).(pb := "", pos := 0), Boolean);
    assert w[0..] == w && w[0..] + "" == w && w[..0] == "";
    Starts(w, t, 0, max);
    var t' := TrueRead(t, w, 0, "", max);
    WholeText(t', Bool(true), max);
  }

  lemma FalseText(w: string, max: nat)
    requires AnyCase(w, "false")
    ensures Run(INITIAL, w, max) == Ok(Bool(false))
  {
    hide Run;
    var t := To(To(INITIAL, Start).(pb := "", pos := 0), Boolean);
    assert w[0..] == w && w[0..] + "" == w && w[..0] == "";
    Starts(w, t, 0, max);
    var t' := FalseRead(t, w, 0, "", max);
    WholeText(t', Bool(false), max);
  }

  lemma NullText(w: string, max: nat)
    requires AnyCase(w, "null")
    ensures Run(INITIAL, w, max) == Ok(Null)
  {
    hide Run;
    var t := To(To(INITIAL, Start).(pb := "", pos := 0), Nul);
    assert w[0..] == w && w[0..] + "" == w && w[..0] == "";
    Starts(w, t, 0, max);
    var t' := NullRead(t, w, 0, "", max);
    WholeText(t', Null, max);
  }

  // ----- Whole numbers of any size -----

  /** Digits, zeros in front or not, are read to their value; out of range to the nearest 64-bit number. */
  lemma NumbersClamp(d: string, negative: bool, max: nat)
    requires d != "" && AllDigits(d)
    ensures var n: int := if negative then 0 - Decimal.Value(d) else Decimal.Value(d);
      Run(INITIAL, (if negative then "-" else "") + d, max) ==
      Ok(Int(if n > 9223372036854775807 then 9223372036854775807 else if n < -9223372036854775808 then -9223372036854775808 else n))
  {
    hide Run, Decimal.Value, AtStart, AtNumber, AllDigits;
    var s := (if negative then "-" else "") + d;
    var t := To(To(INITIAL, Start), Number).(pb := "", isDouble := false);
    NumberStarts(s, t, d, negative);
    assert s[0..] == s && s[|s|..] == "";
    Starts(s, t, 0, max);
    NumberMoves(t, s, d, negative);
    SignedValue(d, negative);
    var v := Int(Clamp64(Scanned(s)));
    var t' := Done(t.(pb := s), v);
    GoesOn(t, s, max, t', |s|);
    WholeText(t', v, max);
  }

  lemma NumberStarts(s: string, t: Tok, d: string, negative: bool)
    requires d != "" && AllDigits(d) && s == (if negative then "-" else "") + d
    requires t == To(To(INITIAL, Start), Number).(pb := "", isDouble := false)
    ensures !IsSpace(Peek(s)) && Peek(s) != '/' && AtStart(To(INITIAL, Start), s) == Go(t, 0)
  {
    FirstDigit(d, negative);
  }

  lemma NumberMoves(t: Tok, s: string, d: string, negative: bool)
    requires t.stack != [] && t.pb == "" && !t.isDouble && d != "" && AllDigits(d) && s == (if negative then "-" else "") + d
    ensures AtNumber(t, s) == Go(Done(t.(pb := s), Int(Clamp64(Scanned(s)))), |s|)
  {
    FirstDigit(d, negative);
    ScanWhole(d, negative);
    DigitsThere(s, d, negative);
    hide Scanned, ScanNumber, AllDigits;
    assert s[..|s|] == s && "" + s == s && s[|s|..] == "";
  }

  lemma SignedValue(d: string, negative: bool)
    requires d != "" && AllDigits(d)
    ensures Scanned((if negative then "-" else "") + d) == if negative then 0 - Decimal.Value(d) else Decimal.Value(d)
  {
    ScannedDigits(d, "");
    assert d + "" == d && ['-'] + (d + "") == "-" + d && "" + d == d;
  }

  lemma FirstDigit(d: string, negative: bool)
    requires d != "" && AllDigits(d)
    ensures var s := (if negative then "-" else "") + d;
      s != "" && (IsDigit(s[0]) || s[0] == '-') && (s[0] == '-' ==> negative && |s| > 1)
  {}

  lemma DigitsThere(s: string, d: string, negative: bool)
    requires d != "" && AllDigits(d) && s == (if negative then "-" else "") + d
    ensures HasDigits(s)
  {
    if negative { assert s[1..] == d; } else { assert s == d; }
  }

  lemma ScanWhole(d: string, negative: bool)
    requires d != "" && AllDigits(d)
    ensures var s := (if negative then "-" else "") + d; ScanNumber(s, 0, false, false, 1) == Scan(|s|, false, false)
  {
    assert d + "" == d;
    if negative {
      ScanDigits(d, "", 1, 1);
      assert ("-" + d)[1..] == d;
    } else {
      ScanDigits(d, "", 0, 1);
      assert "" + d == d;
    }
  }

  // ----- Single quotes -----

  /** A text in single quotes is a string too. */
  lemma SingleQuotes(u: string, max: nat)
    requires '\'' !in u && '\\' !in u && NUL !in u
    ensures Run(INITIAL, "'" + (u + "'"), max) == Ok(Str(u))
  {
    hide Run;
    var s := "'" + (u + "'");
    var t := To(To(INITIAL, Start), String).(pb := "", quote := '\'');
    assert s[1..] == u + "'";
    Starts(s, t, 1, max);
    RunOfAll(u, "'");
    assert (u + "'")[..|u|] == u && "" + u == u && (u + "'")[|u|..] == "'" && (u + "'")[|u| + 1..] == "";
    var t' := Done(t.(pb := u), Str(u));
    hide PlainRun;
    GoesOn(t, u + "'", max, t', |u| + 1);
    WholeText(t', Str(u), max);
  }

  lemma {:induction false} RunOfAll(u: string, rest: string)
    requires '\'' !in u && '\\' !in u && NUL !in u && rest != "" && rest[0] == '\''
    ensures PlainRun(u + rest, '\'') == |u|
  {
    if u == "" {
      assert u + rest == rest;
    } else {
      assert u[0] in u && (u + rest)[1..] == u[1..] + rest;
      assert forall c :: c in u[1..] ==> c in u;
      RunOfAll(u[1..], rest);
    }
  }

  // ----- Comments -----

  /** The same but for the buffer. */
  predicate SameLevels(t: Tok, t': Tok) { t'.stack == t.stack && t'.obj == t.obj }

  /** A comment without a star is skipped like white space. */
  lemma BlockComment(t: Tok, u: string, s: string, max: nat) returns (t': Tok)
    requires Stacked(t) && Top(t).state.EatWs? && '*' !in u && NUL !in u
    ensures Stacked(t') && SameLevels(t, t') && Run(t, "/*" + (u + ("*/" + s)), max) == Run(t', s, max)
  {
    hide Run;
    var c := "/*" + (u + ("*/" + s));
    assert Spaces(c) == 0 && c[0..] == c && c[1..] == "*" + (u + ("*/" + s)) && c[1..][1..] == u + ("*/" + s);
    var t1 := To(t, CommentStart).(pb := "/");
    GoesOn(t, c, max, t1, 1);
    GoesOn(t1, c[1..], max, To(t1, Comment), 1);
    SkipBody(To(t1, Comment), u, "*/" + s, max);
    assert ("*/" + s)[1..] == "/" + s && ("/" + s)[1..] == s;
    GoesOn(To(t1, Comment), "*/" + s, max, To(t1, CommentEnd), 1);
    t' := To(t1, EatWs);
    GoesOn(To(t1, CommentEnd), "/" + s, max, t', 1);
  }

  lemma {:induction false} SkipBody(t: Tok, u: string, rest: string, max: nat)
    requires Stacked(t) && Top(t).state.Comment? && '*' !in u && NUL !in u
    ensures Run(t, u + rest, max) == Run(t, rest, max)
    decreases |u|
  {
    hide Run;
    if u == "" {
      assert u + rest == rest;
    } else {
      assert u[0] in u && (u + rest)[1..] == u[1..] + rest;
      assert forall c :: c in u[1..] ==> c in u;
      GoesOn(t, u + rest, max, t, 1);
      SkipBody(t, u[1..], rest, max);
    }
  }

  /** A comment to the end of the line too. */
  lemma LineComment(t: Tok, u: string, s: string, max: nat) returns (t': Tok)
    requires Stacked(t) && Top(t).state.EatWs? && '\n' !in u && NUL !in u
    ensures Stacked(t') && SameLevels(t, t') && Run(t, "//" + (u + ("\n" + s)), max) == Run(t', s, max)
  {
    hide Run;
    var c := "//" + (u + ("\n" + s));
    assert Spaces(c) == 0 && c[0..] == c && c[1..] == "/" + (u + ("\n" + s)) && c[1..][1..] == u + ("\n" + s);
    var t1 := To(t, CommentStart).(pb := "/");
    GoesOn(t, c, max, t1, 1);
    GoesOn(t1, c[1..], max, To(t1, CommentEol), 1);
    SkipLine(To(t1, CommentEol), u, "\n" + s, max);
    assert ("\n" + s)[1..] == s;
    t' := To(t1, EatWs);
    GoesOn(To(t1, CommentEol), "\n" + s, max, t', 1);
  }

  lemma {:induction false} SkipLine(t: Tok, u: string, rest: string, max: nat)
    requires Stacked(t) && Top(t).state.CommentEol? && '\n' !in u && NUL !in u
    ensures Run(t, u + rest, max) == Run(t, rest, max)
    decreases |u|
  {
    hide Run;
    if u == "" {
      assert u + rest == rest;
    } else {
      assert u[0] in u && (u + rest)[1..] == u[1..] + rest;
      assert forall c :: c in u[1..] ==> c in u;
      GoesOn(t, u + rest, max, t, 1);
      SkipLine(t, u[1..], rest, max);
    }
  }

  /** Two stars before the slash do not end a comment: the second one is taken for its text. */
  lemma StarsStayOpen(t: Tok, s: string, max: nat)
    requires Stacked(t) && Top(t).state.Comment?
    ensures Run(t, "**/" + s, max) == Run(t, "/" + s, max) == Run(t, s, max)
  {
    hide Run;
    assert ("**/" + s)[1..] == "*/" + s && ("*/" + s)[1..] == "/" + s && ("/" + s)[1..] == s;
    GoesOn(t, "**/" + s, max, To(t, CommentEnd), 1);
    GoesOn(To(t, CommentEnd), "*/" + s, max, t, 1);
    GoesOn(t, "/" + s, max, t, 1);
  }
}
