/**
 * What the escapes of a JSON string stand for, against a decoder of UTF-8 that knows nothing of the tokener:
 * the sequence lengths and continuation bytes of section 3 of RFC 3629, and the surrogate pairs of section 2.1
 * of RFC 2781.
 */
module JsonUnicode {
  import opened Arith
  import opened JsonTree
  import opened JsonTokener
  import opened JsonRoundTrip

  // ----- Decoding UTF-8 -----

  /** How many bytes a sequence has by its first one, 0 if it cannot be first. */
  function SequenceLength(lead: int): nat {
    if 0 <= lead <= 0x7F then 1 else if 0xC0 <= lead <= 0xDF then 2
    else if 0xE0 <= lead <= 0xEF then 3 else if 0xF0 <= lead <= 0xF7 then 4 else 0
  }

  /** The bits of the first byte that belong to the character. */
  function LeadBits(lead: int): int {
    if lead <= 0x7F then lead else if lead <= 0xDF then lead - 0xC0 else if lead <= 0xEF then lead - 0xE0 else lead - 0xF0
  }

  predicate Continues(c: char) { 0x80 <= c as int <= 0xBF }

  /** Six bits from each of the bytes that follow. */
  function SixBits(s: string, acc: int): int {
    if s == "" then acc else SixBits(s[1..], 64 * acc + (s[0] as int - 0x80))
  }

  /** The smallest character that needs n bytes. */
  function SmallestOf(n: nat): nat {
    if n <= 1 then 0 else if n == 2 then 0x80 else if n == 3 then 0x800 else 0x1_0000
  }

  predicate IsScalar(u: int) { 0 <= u <= 0x10_FFFF && !(0xD800 <= u <= 0xDFFF) }

  /** The character that the whole of s encodes in its shortest form. */
  function Decoded(s: string): (u: Option<int>) {
    if s == "" || |s| != SequenceLength(s[0] as int) || exists i :: 1 <= i < |s| && !Continues(s[i]) then None
    else
      var u := SixBits(s[1..], LeadBits(s[0] as int));
      if u < SmallestOf(|s|) || !IsScalar(u) then None else Some(u)
  }

  /** The encoder of the tokener is inverted by the decoder, on every character. */
  lemma Utf8Decodes(u: nat)
    requires IsScalar(u)
    ensures Decoded(Utf8(u)) == Some(u)
  {
    var s := Utf8(u);
    if u < 0x80 {
      assert s[1..] == "";
    } else if u < 0x800 {
      TwoBytes(u, s);
    } else if u < 0x1_0000 {
      ThreeBytes(u, s);
    } else {
      FourBytes(u, s);
    }
  }

  lemma TwoBytes(u: nat, s: string)
    requires 0x80 <= u < 0x800 && s == Utf8(u)
    ensures Decoded(s) == Some(u)
  {
    var lead := u / 0x40;
    assert s[1..] == [(0x80 + u % 0x40) as char];
    assert SixBits("", u) == u;
    assert s[1..][1..] == "" && SixBits(s[1..], lead) == 64 * lead + u % 0x40;
    assert |s| == 2 == SequenceLength(s[0] as int) && LeadBits(s[0] as int) == lead && Continues(s[1]);
  }

  lemma ThreeBytes(u: nat, s: string)
    requires 0x800 <= u < 0x1_0000 && s == Utf8(u) && IsScalar(u)
    ensures Decoded(s) == Some(u)
  {
    var a, b, c := u / 0x1000, u / 0x40 % 0x40, u % 0x40;
    var x, y := (0x80 + b) as char, (0x80 + c) as char;
    assert s[1..] == [x, y];
    Gathered([x, y], a);
    assert 64 * (64 * a + b) + c == u;
    assert |s| == 3 == SequenceLength(s[0] as int) && LeadBits(s[0] as int) == a && Continues(s[1]) && Continues(s[2]);
  }

  lemma FourBytes(u: nat, s: string)
    requires 0x1_0000 <= u < 0x11_0000 && s == Utf8(u)
    ensures Decoded(s) == Some(u)
  {
    var a, b, c, d := u / 0x40000, u / 0x1000 % 0x40, u / 0x40 % 0x40, u % 0x40;
    var x, y, z := (0x80 + b) as char, (0x80 + c) as char, (0x80 + d) as char;
    assert s[1..] == [x, y, z] && [x, y, z][1..] == [y, z];
    Gathered([y, z], 64 * a + b);
    BaseSixtyFour(u);
    assert |s| == 4 == SequenceLength(s[0] as int) && LeadBits(s[0] as int) == a;
    assert Continues(s[1]) && Continues(s[2]) && Continues(s[3]);
  }

  lemma BaseSixtyFour(u: nat)
    ensures 64 * (64 * (64 * (u / 0x40000) + u / 0x1000 % 0x40) + u / 0x40 % 0x40) + u % 0x40 == u
  {
    DivDiv(u, 0x40, 0x40);
    DivDiv(u, 0x1000, 0x40);
    var v, w := u / 0x40, u / 0x1000;
    DivModSpec(u, 0x40);
    DivModSpec(v, 0x40);
    DivModSpec(w, 0x40);
  }

  lemma Gathered(s: string, acc: int)
    requires |s| == 2
    ensures SixBits(s, acc) == 64 * (64 * acc + (s[0] as int - 0x80)) + (s[1] as int - 0x80)
  {
    assert s[1..] == [s[1]] && s[1..][1..] == "";
    assert SixBits(s[1..], 64 * acc + (s[0] as int - 0x80)) == 64 * (64 * acc + (s[0] as int - 0x80)) + (s[1] as int - 0x80);
  }

  /** And it is the only sequence that decodes to the character. */
  lemma OnlySequence(s: string, u: int)
    requires Decoded(s) == Some(u)
    ensures IsScalar(u) && s == Utf8(u)
  {
    if |s| == 1 {
      assert s == [s[0]] && SixBits(s[1..], s[0] as int) == s[0] as int;
    } else {
      assert forall i :: 1 <= i < |s| ==> Continues(s[i]);
      if |s| == 2 { OnlyTwo(s, u); } else if |s| == 3 { OnlyThree(s, u); } else { OnlyFour(s, u); }
    }
  }

  lemma OnlyTwo(s: string, u: int)
    requires Decoded(s) == Some(u) && |s| == 2 && Continues(s[1])
    ensures IsScalar(u) && s == Utf8(u)
  {
    OneMore(s);
    hide SixBits;
    PairOf(s[0] as int - 0xC0, s[1] as int - 0x80);
    assert s == [s[0], s[1]];
  }

  lemma OnlyThree(s: string, u: int)
    requires Decoded(s) == Some(u) && |s| == 3 && Continues(s[1]) && Continues(s[2])
    ensures IsScalar(u) && s == Utf8(u)
  {
    TwoMore(s);
    hide SixBits;
    TripleOf(s[0] as int - 0xE0, s[1] as int - 0x80, s[2] as int - 0x80);
    assert s == [s[0], s[1], s[2]];
  }

  lemma OnlyFour(s: string, u: int)
    requires Decoded(s) == Some(u) && |s| == 4 && Continues(s[1]) && Continues(s[2]) && Continues(s[3])
    ensures IsScalar(u) && s == Utf8(u)
  {
    ThreeMore(s);
    hide SixBits;
    FourOf(s[0] as int - 0xF0, s[1] as int - 0x80, s[2] as int - 0x80, s[3] as int - 0x80);
    assert s == [s[0], s[1], s[2], s[3]];
  }

  lemma OneMore(s: string)
    requires |s| == 2
    ensures SixBits(s[1..], LeadBits(s[0] as int)) == 64 * LeadBits(s[0] as int) + (s[1] as int - 0x80)
  {
    assert s[1..] == [s[1]] && s[1..][1..] == "";
    assert SixBits("", 64 * LeadBits(s[0] as int) + (s[1] as int - 0x80)) == 64 * LeadBits(s[0] as int) + (s[1] as int - 0x80);
  }

  lemma TwoMore(s: string)
    requires |s| == 3
    ensures SixBits(s[1..], LeadBits(s[0] as int)) == 64 * (64 * LeadBits(s[0] as int) + (s[1] as int - 0x80)) + (s[2] as int - 0x80)
  {
    Gathered(s[1..], LeadBits(s[0] as int));
  }

  lemma ThreeMore(s: string)
    requires |s| == 4
    ensures SixBits(s[1..], LeadBits(s[0] as int)) ==
      64 * (64 * (64 * LeadBits(s[0] as int) + (s[1] as int - 0x80)) + (s[2] as int - 0x80)) + (s[3] as int - 0x80)
  {
    assert s[1..][1..] == s[2..];
    Gathered(s[2..], 64 * LeadBits(s[0] as int) + (s[1] as int - 0x80));
  }

  lemma PairOf(a: int, b: int)
    requires 0 <= a && 0 <= b < 64
    ensures (64 * a + b) / 0x40 == a && (64 * a + b) % 0x40 == b
  {}

  lemma TripleOf(a: int, b: int, c: int)
    requires 0 <= a && 0 <= b < 64 && 0 <= c < 64
    ensures var u := 64 * (64 * a + b) + c; u / 0x1000 == a && u / 0x40 % 0x40 == b && u % 0x40 == c
  {}

  lemma FourOf(a: int, b: int, c: int, d: int)
    requires 0 <= a && 0 <= b < 64 && 0 <= c < 64 && 0 <= d < 64
    ensures var u := 64 * (64 * (64 * a + b) + c) + d;
      u / 0x40000 == a && u / 0x1000 % 0x40 == b && u / 0x40 % 0x40 == c && u % 0x40 == d
  {
    var v, w := 64 * (64 * a + b) + c, 64 * a + b;
    var u := 64 * v + d;
    PairOf(v, d);
    PairOf(w, c);
    PairOf(a, b);
    DivModUnique(u, 0x1000, w, 64 * c + d);
    DivModUnique(u, 0x40000, a, 64 * (64 * b + c) + d);
  }

  /** U+FFFD, which stands for a surrogate without a partner. */
  lemma ReplacementBytes()
    ensures REPLACEMENT == [0xEF as char, 0xBF as char, 0xBD as char] && Decoded(REPLACEMENT) == Some(0xFFFD)
  {
    Utf8Decodes(0xFFFD);
  }

  // ----- Four hexadecimal digits -----

  const LOWER_HEX: string := "0123456789abcdef"
  const UPPER_HEX: string := "0123456789ABCDEF"

  predicate SpellsDigit(c: char, d: nat)
    requires d < 16
  {
    c == LOWER_HEX[d] || c == UPPER_HEX[d]
  }

  /** h is u in four digits, each in either case. */
  predicate Spells(h: string, u: nat) {
    |h| == 4 && u < 0x1_0000
    && SpellsDigit(h[0], u / 0x1000) && SpellsDigit(h[1], u / 0x100 % 0x10) && SpellsDigit(h[2], u / 0x10 % 0x10) && SpellsDigit(h[3], u % 0x10)
  }

  lemma DigitMeans(c: char, d: nat)
    requires d < 16 && SpellsDigit(c, d)
    ensures IsHex(c) && HexValue(c) == d
  {
    LowerHexAt(d);
    UpperHexAt(d);
  }

  lemma LowerHexAt(d: nat)
    requires d < 16
    ensures LOWER_HEX[d] == if d < 10 then '0' + d as char else 'a' + (d - 10) as char
  {}

  lemma UpperHexAt(d: nat)
    requires d < 16
    ensures UPPER_HEX[d] == if d < 10 then '0' + d as char else 'A' + (d - 10) as char
  {}

  lemma SpelledHex(h: string, u: nat, s: string)
    requires Spells(h, u)
    ensures HexRun(h + s, 4) == 4 && Hex4(h + s) == u && (h + s)[4..] == s
  {
    DigitMeans(h[0], u / 0x1000);
    DigitMeans(h[1], u / 0x100 % 0x10);
    DigitMeans(h[2], u / 0x10 % 0x10);
    DigitMeans(h[3], u % 0x10);
    hide SpellsDigit, HexValue, IsHex, HexRun;
    var r := h + s;
    assert r[0] == h[0] && r[1] == h[1] && r[2] == h[2] && r[3] == h[3];
    FourHex(r);
    var v := u / 0x10;
    assert u / 0x100 == v / 0x10 && u / 0x1000 == v / 0x10 / 0x10;
  }

  // ----- Escapes in a string -----

  /** The tokener after the backslash and the letter u. */
  function AtFour(t: Tok): (u: Tok)
    requires t.stack != []
  {
    To(SetTop(t, Top(t).(state := StringEscape, saved := Top(t).state)), EscapeUnicode)
  }

  /** The tokener back in the string, with more text. */
  function Back(t: Tok, bytes: string): (t': Tok)
    requires t.stack != []
  {
    var u := AtFour(t);
    To(u, Top(u).saved).(pb := u.pb + bytes)
  }

  lemma BackReadsOn(t: Tok, bytes: string)
    requires InText(t)
    ensures ReadOn(t, bytes, Back(t, bytes))
  {}

  lemma UnicodeStart(t: Tok, s: string, max: nat)
    requires Stacked(t) && InText(t)
    ensures Stacked(AtFour(t)) && Run(t, "\\u" + s, max) == Run(AtFour(t), s, max)
  {
    hide Run, Stacked;
    assert "\\u" + s == "\\" + ("u" + s);
    Backslash(t, "u" + s, max);
    LetterU(SetTop(t, Top(t).(state := StringEscape, saved := Top(t).state)), s, max);
  }

  /** From the four digits back to the string. */
  lemma UnicodeEnd(t: Tok, bytes: string, s: string, n: nat, max: nat)
    requires Stacked(t) && InText(t) && AtUnicode(AtFour(t), s, 0, 0) == Go(Back(t, bytes), n)
    ensures Stacked(Back(t, bytes)) && n <= |s| && Run(t, "\\u" + s, max) == Run(Back(t, bytes), s[n..], max)
  {
    UnicodeStart(t, s, max);
    hide Run, Stacked, AtUnicode;
    GoesOn(AtFour(t), s, max, Back(t, bytes), n);
  }

  predicate Surrogate(u: nat) { 0xD800 <= u <= 0xDFFF }

  /** A character of the basic plane, in any spelling of its four digits: bytes that decode to it are appended. */
  lemma BasicEscape(t: Tok, h: string, u: nat, s: string, max: nat) returns (t': Tok, bytes: string)
    requires Stacked(t) && InText(t) && Spells(h, u) && !Surrogate(u)
    ensures Decoded(bytes) == Some(u) && Stacked(t') && ReadOn(t, bytes, t')
    ensures Run(t, "\\u" + (h + s), max) == Run(t', s, max)
  {
    assert u < 0x1_0000;
    hide Run, Spells, Decoded;
    bytes := Utf8(u);
    Utf8Decodes(u);
    SpelledHex(h, u, s);
    BasicMove(AtFour(t), h + s, u);
    hide HexRun, Hex4, Utf8, Stacked;
    t' := Back(t, bytes);
    BackReadsOn(t, bytes);
    hide AtUnicode;
    UnicodeEnd(t, bytes, h + s, 4, max);
  }

  lemma BasicMove(t: Tok, r: string, u: nat)
    requires t.stack != [] && HexRun(r, 4) == 4 && Hex4(r) == u && !Surrogate(u)
    ensures AtUnicode(t, r, 0, 0) == Go(To(t, Top(t).saved).(pb := t.pb + Utf8(u)), 4)
  {
    hide HexRun, Hex4, Utf8;
  }

  /** A character above it is written as a pair of surrogates. */
  lemma PairEscape(t: Tok, u: nat, h: string, l: string, s: string, max: nat) returns (t': Tok, bytes: string)
    requires Stacked(t) && InText(t) && 0x1_0000 <= u <= 0x10_FFFF
    requires Spells(h, 0xD800 + (u - 0x1_0000) / 0x400) && Spells(l, 0xDC00 + (u - 0x1_0000) % 0x400)
    ensures Decoded(bytes) == Some(u) && Stacked(t') && ReadOn(t, bytes, t')
    ensures Run(t, "\\u" + (h + ("\\u" + (l + s))), max) == Run(t', s, max)
  {
    assert t.stack != [];
    hide Run, Spells, Decoded, Stacked, AtUnicode, InText, ReadOn, Back, AtFour;
    var hi, lo := 0xD800 + (u - 0x1_0000) / 0x400, 0xDC00 + (u - 0x1_0000) % 0x400;
    PairNumbers(u, hi, lo);
    bytes := Utf8(u);
    Utf8Decodes(u);
    hide Utf8, IsHigh, IsLow;
    t' := Back(t, bytes);
    BackReadsOn(t, bytes);
    var r := PairGo(t, u, hi, lo, h, l, s);
    UnicodeEnd(t, bytes, r, 10, max);
  }

  lemma PairGo(t: Tok, u: nat, hi: nat, lo: nat, h: string, l: string, s: string) returns (r: string)
    requires t.stack != [] && u < 0x11_0000 && Spells(h, hi) && Spells(l, lo) && IsHigh(hi) && IsLow(lo)
    requires (hi - 0xD800) * 0x400 + (lo - 0xDC00) + 0x1_0000 == u
    ensures r == h + ("\\u" + (l + s)) && |r| >= 10 && r[10..] == s
    ensures AtUnicode(AtFour(t), r, 0, 0) == Go(Back(t, Utf8(u)), 10)
  {
    r := h + ("\\u" + (l + s));
    PairTail(h, l, s);
    SpelledHex(h, hi, "\\u" + (l + s));
    SpelledHex(l, lo, s);
    hide HexRun, Hex4, Utf8, AtUnicode, IsHigh, IsLow, AtFour, To;
    PairMove(AtFour(t), h, hi, l, lo, s);
  }

  lemma PairTail(h: string, l: string, s: string)
    requires |h| == 4 && |l| == 4
    ensures var r := h + ("\\u" + (l + s)); |r| >= 10 && r[10..] == s
  {}

  lemma PairNumbers(u: nat, hi: nat, lo: nat)
    requires 0x1_0000 <= u <= 0x10_FFFF && hi == 0xD800 + (u - 0x1_0000) / 0x400 && lo == 0xDC00 + (u - 0x1_0000) % 0x400
    ensures IsHigh(hi) && IsLow(lo) && (hi - 0xD800) * 0x400 + (lo - 0xDC00) + 0x1_0000 == u
  {}

  lemma PairMove(u: Tok, h: string, hi: nat, l: string, lo: nat, s: string)
    requires u.stack != [] && |h| == 4 && |l| == 4
    requires |l| == 4 && |h| == 4 && IsHigh(hi) && IsLow(lo)
    requires var r := h + ("\\u" + (l + s)); HexRun(r, 4) == 4 && Hex4(r) == hi
    requires HexRun(l + s, 4) == 4 && Hex4(l + s) == lo
    ensures AtUnicode(u, h + ("\\u" + (l + s)), 0, 0) ==
      Go(To(u, Top(u).saved).(pb := u.pb + Utf8((hi - 0xD800) * 0x400 + (lo - 0xDC00) + 0x1_0000)), 10)
  {
    hide HexRun, Hex4, Utf8;
    var r := h + ("\\u" + (l + s));
    assert r[4] == '\\' && r[5] == 'u' && r[6..] == l + s;
    assert AtUnicode(u, l + s, hi, 6) == Go(To(u, Top(u).saved).(pb := u.pb + Utf8((hi - 0xD800) * 0x400 + (lo - 0xDC00) + 0x1_0000)), 10);
  }

  /** A low surrogate, or a high one that no escape follows, gives the replacement character. */
  lemma LoneEscape(t: Tok, h: string, u: nat, s: string, max: nat) returns (t': Tok)
    requires Stacked(t) && InText(t) && Spells(h, u) && Surrogate(u)
    requires u < 0xDC00 ==> !(|s| >= 2 && s[0] == '\\' && s[1] == 'u')
    ensures Stacked(t') && ReadOn(t, [0xEF as char, 0xBF as char, 0xBD as char], t')
    ensures Run(t, "\\u" + (h + s), max) == Run(t', s, max)
  {
    hide Run, Spells;
    ReplacementBytes();
    SpelledHex(h, u, s);
    LoneMove(AtFour(t), h + s, u);
    hide HexRun, Hex4, Utf8, Stacked, AtUnicode;
    t' := Back(t, REPLACEMENT);
    BackReadsOn(t, REPLACEMENT);
    UnicodeEnd(t, REPLACEMENT, h + s, 4, max);
  }

  lemma LoneMove(t: Tok, r: string, u: nat)
    requires t.stack != [] && HexRun(r, 4) == 4 && Hex4(r) == u && Surrogate(u)
    requires u < 0xDC00 ==> !(|r| >= 6 && r[4] == '\\' && r[5] == 'u')
    ensures AtUnicode(t, r, 0, 0) == Go(To(t, Top(t).saved).(pb := t.pb + REPLACEMENT), 4)
  {
    hide HexRun, Hex4, Utf8;
  }

  /** A high surrogate before an escape that is no low one: the replacement, and the second escape on its own. */
  lemma BrokenPair(t: Tok, h: string, u: nat, l: string, v: nat, s: string, max: nat) returns (t': Tok)
    requires Stacked(t) && InText(t) && Spells(h, u) && 0xD800 <= u < 0xDC00 && Spells(l, v) && !(0xDC00 <= v < 0xE000)
    ensures Stacked(t') && ReadOn(t, [0xEF as char, 0xBF as char, 0xBD as char], t')
    ensures Run(t, "\\u" + (h + ("\\u" + (l + s))), max) == Run(t', "\\u" + (l + s), max)
  {
    hide Run, Spells;
    ReplacementBytes();
    SpelledHex(h, u, "\\u" + (l + s));
    SpelledHex(l, v, s);
    t' := t.(pb := t.pb + REPLACEMENT);
    BrokenMove(AtFour(t), h, u, l, v, s);
    hide HexRun, Hex4, Utf8, AtUnicode;
    UnicodeStart(t, h + ("\\u" + (l + s)), max);
    UnicodeStart(t', l + s, max);
    SameMoves(AtFour(t), AtFour(t'), h + ("\\u" + (l + s)), l + s, max);
  }

  lemma BrokenMove(t: Tok, h: string, u: nat, l: string, v: nat, s: string)
    requires t.stack != [] && |h| == 4 && |l| == 4
    requires var r := h + ("\\u" + (l + s)); HexRun(r, 4) == 4 && Hex4(r) == u && IsHigh(u)
    requires HexRun(l + s, 4) == 4 && Hex4(l + s) == v && !IsLow(v)
    ensures Shifted(AtUnicode(t, h + ("\\u" + (l + s)), 0, 0), AtUnicode(t.(pb := t.pb + REPLACEMENT), l + s, 0, 0), 6)
  {
    hide Hex4, Utf8, HexRun, AtUnicode;
    var r := h + ("\\u" + (l + s));
    assert r[4] == '\\' && r[5] == 'u' && r[6..] == l + s;
    ToPartner(t, r, u);
    LostPartner(t, l + s, u, 6);
    EatenShift(t.(pb := t.pb + REPLACEMENT), l + s, 0, 0, 6);
  }

  lemma ToPartner(t: Tok, r: string, u: nat)
    requires t.stack != [] && |r| >= 6 && r[4] == '\\' && r[5] == 'u' && HexRun(r, 4) == 4 && Hex4(r) == u && IsHigh(u)
    ensures AtUnicode(t, r, 0, 0) == AtUnicode(t, r[6..], u, 6)
  {
    hide Hex4, Utf8, HexRun;
  }

  lemma LostPartner(t: Tok, s: string, hi: nat, n: nat)
    requires t.stack != [] && IsHigh(hi) && HexRun(s, 4) == 4 && !IsLow(Hex4(s))
    ensures AtUnicode(t, s, hi, n) == AtUnicode(t.(pb := t.pb + REPLACEMENT), s, 0, n)
  {
    hide Hex4, Utf8, HexRun;
  }

  /** The same move, n characters later. */
  predicate Shifted(m: Move, m': Move, n: nat) {
    if m'.Go? then m == Go(m'.tok, m'.n + n) else m == m'
  }

  lemma {:induction false} EatenShift(t: Tok, s: string, hi: nat, eaten: nat, n: nat)
    requires t.stack != [] && (hi == 0 || IsHigh(hi))
    ensures Shifted(AtUnicode(t, s, hi, eaten + n), AtUnicode(t, s, hi, eaten), n)
    decreases |s|
  {
    hide Hex4, Utf8;
    if HexRun(s, 4) == 4 && |s| > 5 && (hi == 0 || !IsLow(Hex4(s))) && IsHigh(Hex4(s)) {
      EatenShift(t.(pb := if hi != 0 then t.pb + REPLACEMENT else t.pb), s[6..], Hex4(s), eaten + 6, n);
    }
  }

  lemma SameMoves(u: Tok, u': Tok, r: string, r': string, max: nat)
    requires Stacked(u) && Stacked(u') && Top(u).state.EscapeUnicode? && Top(u').state.EscapeUnicode?
    requires |r| >= 6 && r[6..] == r' && Shifted(AtUnicode(u, r, 0, 0), AtUnicode(u', r', 0, 0), 6)
    ensures Run(u, r, max) == Run(u', r', max)
  {
    hide Run, AtUnicode, LevelRank;
    Once(u, r, max);
    Once(u', r', max);
    var m, m' := Step(u, r, max), Step(u', r', max);
    assert m == AtUnicode(u, r, 0, 0) && m' == AtUnicode(u', r', 0, 0);
    if m'.Go? {
      assert r[m.n..] == r'[m'.n..];
    }
  }

  // ----- Escapes of one letter -----

  /** The characters that the eight short escapes stand for, by their codes. */
  function EscapeCode(x: char): Option<nat> {
    if x == '\"' then Some(0x22) else if x == '\\' then Some(0x5C) else if x == '/' then Some(0x2F)
    else if x == 'b' then Some(0x08) else if x == 'f' then Some(0x0C) else if x == 'n' then Some(0x0A)
    else if x == 'r' then Some(0x0D) else if x == 't' then Some(0x09) else None
  }

  lemma LetterEscape(t: Tok, x: char, s: string, max: nat) returns (t': Tok)
    requires Stacked(t) && InText(t) && EscapeCode(x).Some?
    ensures Stacked(t') && ReadOn(t, [EscapeCode(x).value as char], t') && Run(t, ['\\', x] + s, max) == Run(t', s, max)
  {
    hide Run, Stacked, ReadOn;
    t' := ShortEscape(t, x, EscapeCode(x).value as char, s, max);
  }

  /** A backslash before anything else is an error, at the end of the text an early end. */
  lemma WrongEscape(t: Tok, s: string, max: nat)
    requires Stacked(t) && InText(t) && Peek(s) != 'u' && EscapeCode(Peek(s)).None?
    ensures Run(t, "\\" + s, max) == Err(if Peek(s) == NUL then EofError else StringError)
  {
    hide Run, EscapeCode;
    assert Unescaped(Peek(s)) == "" by { NoLetter(Peek(s)); }
    var e := SetTop(t, Top(t).(state := StringEscape, saved := Top(t).state));
    Backslash(t, s, max);
    Once(e, s, max);
  }

  lemma NoLetter(x: char)
    requires EscapeCode(x).None?
    ensures Unescaped(x) == ""
  {}

  /** What the printer writes for each character, by its code. */
  lemma EscapeTable(c: char, f: Layout)
    ensures EscapeChar(c, f) ==
      if c as int == 0x08 then "\\b" else if c as int == 0x09 then "\\t" else if c as int == 0x0A then "\\n"
      else if c as int == 0x0C then "\\f" else if c as int == 0x0D then "\\r" else if c as int == 0x22 then "\\\""
      else if c as int == 0x5C then "\\\\" else if c as int == 0x2F then (if f.bareSlash then "/" else "\\/")
      else if c as int < 0x20 then "\\u00" + [LOWER_HEX[c as int / 16], LOWER_HEX[c as int % 16]] else [c]
  {
    if c < ' ' {
      LowerHexAt(c as int / 16);
      LowerHexAt(c as int % 16);
    }
  }

  // ----- Whole texts -----

  /** The closing quote of the outermost string ends the text. */
  lemma StringEnds(t: Tok, max: nat)
    requires Stacked(t) && InText(t) && Top(t).state.String? && |t.stack| == 1
    ensures Run(t, "\"", max) == Ok(Str(t.pb))
  {
    hide Run;
    assert "\"" + "" == "\"";
    QuoteEnds(t, "", max);
    var t1 := AfterQuote(t);
    EatAll(t1, "", max);
    Once(To(t1, Finish), "", max);
  }

  lemma StringBegins(s: string, max: nat) returns (t: Tok)
    ensures Stacked(t) && InText(t) && Top(t).state.String? && |t.stack| == 1 && t.pb == ""
    ensures Run(INITIAL, "\"" + s, max) == Run(t, s, max)
  {
    hide Run;
    assert ("\"" + s)[1..] == s;
    Begin(INITIAL, "\"" + s, max);
    t := Begun(INITIAL, '\"');
  }

  /** A stretch of a string as a sender may spell it. */
  datatype Piece = Plain(c: char) | Letter(x: char) | Basic(h: string, u: nat) | Pair(h: string, l: string, u: nat)

  predicate Proper(p: Piece) {
    match p
    case Plain(c) => Ordinary(c)
    case Letter(x) => EscapeCode(x).Some?
    case Basic(h, u) => Spells(h, u) && !Surrogate(u)
    case Pair(h, l, u) =>
      0x1_0000 <= u <= 0x10_FFFF && Spells(h, 0xD800 + (u - 0x1_0000) / 0x400) && Spells(l, 0xDC00 + (u - 0x1_0000) % 0x400)
  }

  function Spelling(p: Piece): string {
    match p
    case Plain(c) => [c]
    case Letter(x) => ['\\', x]
    case Basic(h, _) => "\\u" + h
    case Pair(h, l, _) => "\\u" + (h + ("\\u" + l))
  }

  /** The bytes that a piece stands for. */
  ghost predicate Means(p: Piece, bytes: string) {
    match p
    case Plain(c) => bytes == [c]
    case Letter(x) => EscapeCode(x).Some? && bytes == [EscapeCode(x).value as char]
    case Basic(_, u) => Decoded(bytes) == Some(u)
    case Pair(_, _, u) => Decoded(bytes) == Some(u)
  }

  function Spelled(ps: seq<Piece>): string {
    if ps == [] then "" else Spelling(ps[0]) + Spelled(ps[1..])
  }

  ghost predicate AllMean(ps: seq<Piece>, bytes: seq<string>) {
    |bytes| == |ps| && forall i :: 0 <= i < |ps| ==> Means(ps[i], bytes[i])
  }

  function Joined(bytes: seq<string>): string {
    if bytes == [] then "" else bytes[0] + Joined(bytes[1..])
  }

  lemma PieceRead(t: Tok, p: Piece, s: string, max: nat) returns (t': Tok, bytes: string)
    requires Stacked(t) && InText(t) && Proper(p)
    ensures Stacked(t') && ReadOn(t, bytes, t') && Means(p, bytes) && Run(t, Spelling(p) + s, max) == Run(t', s, max)
  {
    hide Run, Stacked, ReadOn, Decoded, Spells, InText;
    match p
    case Plain(c) =>
      bytes := [c];
      t' := PlainChar(t, c, s, max);
    case Letter(x) =>
      bytes := [EscapeCode(x).value as char];
      t' := LetterEscape(t, x, s, max);
    case Basic(h, u) =>
      assert Spelling(p) + s == "\\u" + (h + s);
      t', bytes := BasicEscape(t, h, u, s, max);
    case Pair(h, l, u) =>
      assert Spelling(p) + s == "\\u" + (h + ("\\u" + (l + s)));
      t', bytes := PairEscape(t, u, h, l, s, max);
  }

  lemma {:induction false} PiecesRead(t: Tok, ps: seq<Piece>, s: string, max: nat) returns (t': Tok, bytes: seq<string>)
    requires Stacked(t) && InText(t) && forall p <- ps :: Proper(p)
    ensures Stacked(t') && ReadOn(t, Joined(bytes), t') && AllMean(ps, bytes) && Run(t, Spelled(ps) + s, max) == Run(t', s, max)
    decreases |ps|
  {
    hide Run, Stacked, Proper, Means, Spelling;
    if ps == [] {
      t', bytes := t, [];
      assert Spelled(ps) + s == s && t.pb + "" == t.pb;
    } else {
      assert Spelled(ps) + s == Spelling(ps[0]) + (Spelled(ps[1..]) + s);
      var t1, b := PieceRead(t, ps[0], Spelled(ps[1..]) + s, max);
      var more;
      t', more := PiecesRead(t1, ps[1..], s, max);
      bytes := [b] + more;
      assert bytes[1..] == more && (t.pb + b) + Joined(more) == t.pb + Joined(bytes);
    }
  }

  /** A string in any such spelling is read as the bytes that its pieces stand for, each character in UTF-8. */
  lemma AnyString(ps: seq<Piece>, max: nat) returns (bytes: seq<string>)
    requires forall p <- ps :: Proper(p)
    ensures AllMean(ps, bytes) && Run(INITIAL, "\"" + (Spelled(ps) + "\""), max) == Ok(Str(Joined(bytes)))
  {
    hide Run, Stacked, Proper, Means;
    var t := StringBegins(Spelled(ps) + "\"", max);
    var t1;
    t1, bytes := PiecesRead(t, ps, "\"", max);
    assert "" + Joined(bytes) == Joined(bytes);
    StringEnds(t1, max);
  }

  /** Small e with an acute accent. */
  lemma AccentExample(max: nat)
    ensures Run(INITIAL, "\"" + ("\\u" + ("00e9" + "\"")), max) == Ok(Str([0xC3 as char, 0xA9 as char]))
  {
    ExampleBytes();
    hide Run, Stacked, Decoded, Utf8;
    var t := StringBegins("\\u" + ("00e9" + "\""), max);
    var t1, e := BasicEscape(t, "00e9", 0xE9, "\"", max);
    OnlySequence(e, 0xE9);
    OnlySequence([0xC3 as char, 0xA9 as char], 0xE9);
    assert "" + e == e;
    StringEnds(t1, max);
  }

  /** A character outside the basic plane. */
  lemma PairExample(max: nat)
    ensures Run(INITIAL, "\"" + ("\\u" + ("D83D" + ("\\u" + ("de00" + "\"")))), max) ==
      Ok(Str([0xF0 as char, 0x9F as char, 0x98 as char, 0x80 as char]))
  {
    ExampleBytes();
    PairDigits();
    hide Run, Stacked, Decoded, Utf8, Spells, InText;
    var t := StringBegins("\\u" + ("D83D" + ("\\u" + ("de00" + "\""))), max);
    var t1, e := PairEscape(t, 0x1_F600, "D83D", "de00", "\"", max);
    OnlySequence(e, 0x1_F600);
    OnlySequence([0xF0 as char, 0x9F as char, 0x98 as char, 0x80 as char], 0x1_F600);
    assert "" + e == e;
    StringEnds(t1, max);
  }

  lemma PairDigits()
    ensures Spells("D83D", 0xD800 + (0x1_F600 - 0x1_0000) / 0x400) && Spells("de00", 0xDC00 + (0x1_F600 - 0x1_0000) % 0x400)
  {
    assert UPPER_HEX[13] == 'D' && LOWER_HEX[13] == 'd' && LOWER_HEX[14] == 'e';
  }

  lemma ExampleBytes()
    ensures Decoded([0xC3 as char, 0xA9 as char]) == Some(0xE9)
    ensures Decoded([0xF0 as char, 0x9F as char, 0x98 as char, 0x80 as char]) == Some(0x1_F600)
  {
    OneMore([0xC3 as char, 0xA9 as char]);
    ThreeMore([0xF0 as char, 0x9F as char, 0x98 as char, 0x80 as char]);
  }
}
