/**
 * The tokener (json-c's json_tokener.c) as json_tokener_parse runs it: flags 0, one whole C string. The
 * text ends where the terminating zero is read.
 */
module JsonTokener {
  import opened Arith
  import opened Decimal
  import opened JsonTree

  datatype State =
    | EatWs | Start | Finish | Inf | Nul | Boolean | Number
    | CommentStart | Comment | CommentEol | CommentEnd
    | String | StringEscape | EscapeUnicode
    | Array | ArrayAfterSep | ArrayAdd | ArraySep
    | FieldStart | FieldStartAfterSep | Field | FieldEnd | Value | ValueAdd | ObjectSep

  /** One entry of the explicit stack; a missing object is Null, a missing name is empty. */
  datatype Level = Level(state: State, saved: State, current: Json, name: string)

  datatype Tok = Tok(stack: seq<Level>, pb: string, pos: nat, quote: char, isDouble: bool, obj: Json)

  datatype Error =
    | DepthError | EofError | UnexpectedError | NullError | BooleanError | NumberError | ArrayError
    | KeyNameError | KeySepError | ValueSepError | StringError | CommentError | SizeError

  datatype Result = Ok(value: Json) | Err(error: Error)

  /** What one pass through the switch does: go on after n more characters, or leave the loop. */
  datatype Move = Go(tok: Tok, n: nat) | Halt(result: Result)

  const NUL: char := '\0'

  function Peek(s: string): char { if s == "" then NUL else s[0] }

  function Top(t: Tok): Level
    requires t.stack != []
  {
    t.stack[|t.stack| - 1]
  }

  function SetTop(t: Tok, l: Level): (t': Tok)
    requires t.stack != []
    ensures |t'.stack| == |t.stack| && Top(t') == l
  {
    t.(stack := t.stack[|t.stack| - 1 := l])
  }

  /** state := q */
  function To(t: Tok, q: State): Tok
    requires t.stack != []
  {
    SetTop(t, Top(t).(state := q))
  }

  /** state := eatws; saved_state := q */
  function EatThen(t: Tok, q: State): Tok
    requires t.stack != []
  {
    SetTop(t, Top(t).(state := EatWs, saved := q))
  }

  /** current := v, to be finished when the white space is eaten. */
  function Done(t: Tok, v: Json): Tok
    requires t.stack != []
  {
    SetTop(t, Top(t).(state := EatWs, saved := Finish, current := v))
  }

  const FRESH: Level := Level(EatWs, Start, Null, "")

  /** Lines 956-991: leaving with an error, unless the text was at its end too early. */
  function Fail(t: Tok, e: Error, c: char): Move
    requires t.stack != []
  {
    Halt(Err(if c == NUL && !Top(t).state.Finish? && !Top(t).saved.Finish? then EofError else e))
  }

  /** Leaving without an error. */
  function Out(t: Tok, c: char): Move
    requires t.stack != []
  {
    if c == NUL && !Top(t).state.Finish? && !Top(t).saved.Finish? then Halt(Err(EofError))
    else Halt(Ok(Top(t).current))
  }

  /** The end of the switch: on to the next character, or out at the terminating zero. */
  function Advance(t: Tok, s: string): Move
    requires t.stack != []
  {
    if Peek(s) == NUL then Out(t, NUL) else Go(t, 1)
  }

  function Spaces(s: string): (k: nat)
    ensures k <= |s|
    ensures forall i :: 0 <= i < k ==> IsSpace(s[i])
    ensures k < |s| ==> !IsSpace(s[k])
  {
    if s != "" && IsSpace(s[0]) then 1 + Spaces(s[1..]) else 0
  }

  function Lower(c: char): char { if 'A' <= c <= 'Z' then 'a' + (c - 'A') else c }

  /** strncasecmp(word, pb, n) == 0 */
  predicate Matches(word: string, pb: string, n: nat) {
    n <= |word| && n <= |pb| && forall i :: 0 <= i < n ==> Lower(pb[i]) == word[i]
  }

  // ----- Strings -----

  /** The run of characters that a string takes over as they are. */
  function PlainRun(s: string, quote: char): (k: nat)
    ensures k <= |s|
  {
    if s == "" || s[0] == quote || s[0] == '\\' || s[0] == NUL then 0 else 1 + PlainRun(s[1..], quote)
  }

  function InString(t: Tok, s: string, q: State): Move
    requires t.stack != [] && (q.String? || q.Field?)
  {
    var k := PlainRun(s, t.quote);
    var t' := t.(pb := t.pb + s[..k]);
    var c := Peek(s[k..]);
    if c == t.quote && k < |s| then
      Go(if q.String? then Done(t', Str(t'.pb))
         else SetTop(t', Top(t').(state := EatWs, saved := FieldEnd, name := UpToNul(t'.pb))), k + 1)
    else if c == '\\' then Go(SetTop(t', Top(t').(state := StringEscape, saved := q)), k + 1)
    else Out(t', NUL)
  }

  /** strdup copies up to the first zero. */
  function UpToNul(s: string): string {
    if s == "" || s[0] == NUL then "" else [s[0]] + UpToNul(s[1..])
  }

  function Unescaped(c: char): (r: string) {
    if c == '\"' || c == '\\' || c == '/' then [c]
    else if c == 'b' then [BACKSPACE]
    else if c == 'n' then "\n"
    else if c == 'r' then "\r"
    else if c == 't' then "\t"
    else if c == 'f' then [FORM_FEED]
    else ""
  }

  function AtEscape(t: Tok, s: string): Move
    requires t.stack != []
  {
    var c := Peek(s);
    if Unescaped(c) != "" then Advance(To(t, Top(t).saved).(pb := t.pb + Unescaped(c)), s)
    else if c == 'u' then Advance(To(t, EscapeUnicode), s)
    else Fail(t, StringError, c)
  }

  predicate IsHex(c: char) { '0' <= c <= '9' || 'a' <= c <= 'f' || 'A' <= c <= 'F' }

  /** jt_hexdigit */
  function HexValue(c: char): (d: nat)
    requires IsHex(c)
    ensures d < 16
  {
    if c <= '9' then (c - '0') as int else if c <= 'F' then (c - 'A') as int + 10 else (c - 'a') as int + 10
  }

  /** How many of the next four characters are hexadecimal digits. */
  function HexRun(s: string, n: nat): (k: nat)
    ensures k <= |s| && k <= n && forall i :: 0 <= i < k ==> IsHex(s[i])
  {
    if n == 0 || s == "" || !IsHex(s[0]) then 0 else 1 + HexRun(s[1..], n - 1)
  }

  function Hex4(s: string): (u: nat)
    requires HexRun(s, 4) == 4
    ensures u < 0x10000
  {
    ((HexValue(s[0]) * 16 + HexValue(s[1])) * 16 + HexValue(s[2])) * 16 + HexValue(s[3])
  }

  const REPLACEMENT: string := "\U{EF}\U{BF}\U{BD}"

  predicate IsHigh(u: nat) { 0xD800 <= u < 0xDC00 }

  predicate IsLow(u: nat) { 0xDC00 <= u < 0xE000 }

  /** The bytes of a character outside the surrogate range. */
  function Utf8(u: nat): string
    requires u < 0x110000
  {
    if u < 0x80 then [u as char]
    else if u < 0x800 then [(0xC0 + u / 0x40) as char, (0x80 + u % 0x40) as char]
    else if u < 0x10000 then [(0xE0 + u / 0x1000) as char, (0x80 + u / 0x40 % 0x40) as char, (0x80 + u % 0x40) as char]
    else [(0xF0 + u / 0x40000) as char, (0x80 + u / 0x1000 % 0x40) as char, (0x80 + u / 0x40 % 0x40) as char, (0x80 + u % 0x40) as char]
  }

  /** Lines 590-691; hi is a high surrogate that waits for its partner, or 0. */
  function AtUnicode(t: Tok, s: string, hi: nat, eaten: nat): Move
    requires t.stack != [] && (hi == 0 || IsHigh(hi))
    decreases |s|
  {
    if HexRun(s, 4) < 4 then Fail(t, StringError, Peek(s[HexRun(s, 4)..]))
    else
      var u := Hex4(s);
      var pair := hi != 0 && IsLow(u);
      var pb := if hi != 0 && !pair then t.pb + REPLACEMENT else t.pb;
      if !pair && IsHigh(u) && |s| > 5 && s[4] == '\\' && s[5] == 'u' then
        AtUnicode(t.(pb := pb), s[6..], u, eaten + 6)
      else
        var bytes :=
          if pair then Utf8((hi - 0xD800) * 0x400 + (u - 0xDC00) + 0x10000)
          else if IsHigh(u) || IsLow(u) then REPLACEMENT
          else Utf8(u);
        Go(To(t, Top(t).saved).(pb := pb + bytes), eaten + 4)
  }

  // ----- Words and numbers -----

  function AtNull(t: Tok, s: string): Move
    requires t.stack != []
  {
    var c := Peek(s);
    var t' := t.(pb := t.pb + [c]);
    if Matches("null", t'.pb, Min(t.pos + 1, 4)) then
      if t.pos == 4 then Go(Done(t', Null), 0) else Advance(t'.(pos := t.pos + 1), s)
    else if Matches("nan", t'.pb, Min(t.pos + 1, 3)) then
      if t.pos == 3 then Go(Done(t', Double("NaN")), 0) else Advance(t'.(pos := t.pos + 1), s)
    else Fail(t', NullError, c)
  }

  function AtBoolean(t: Tok, s: string): Move
    requires t.stack != []
  {
    var c := Peek(s);
    var t' := t.(pb := t.pb + [c]);
    if Matches("true", t'.pb, Min(t.pos + 1, 4)) then
      if t.pos == 4 then Go(Done(t', Bool(true)), 0) else Advance(t'.(pos := t.pos + 1), s)
    else if Matches("false", t'.pb, Min(t.pos + 1, 5)) then
      if t.pos == 5 then Go(Done(t', Bool(false)), 0) else Advance(t'.(pos := t.pos + 1), s)
    else Fail(t', BooleanError, c)
  }

  function AtInf(t: Tok, s: string): Move
    requires t.stack != []
  {
    var k := CommonCase(s, "infinity");
    if k < 8 then Fail(t, UnexpectedError, Peek(s[k..]))
    else Go(Done(t, Double(if t.pb != "" && t.pb[0] == '-' then "-Infinity" else "Infinity")), 8)
  }

  function CommonCase(s: string, word: string): (k: nat)
    ensures k <= |s| && k <= |word|
  {
    if s == "" || word == "" || Lower(s[0]) != word[0] then 0 else 1 + CommonCase(s[1..], word[1..])
  }

  predicate IsNumberChar(c: char) { IsDigit(c) || c in ['.', '+', '-', 'e', 'E'] }

  datatype Scan = Scan(len: nat, isDouble: bool, wrong: bool)

  /** The loop at lines 737-778 from the character number `len`. */
  function ScanNumber(s: string, len: nat, isDouble: bool, isExponent: bool, signAt: nat): (r: Scan)
    ensures len <= r.len <= len + |s|
    decreases |s|
  {
    if s == "" || !IsNumberChar(s[0]) then Scan(len, isDouble, false)
    else
      var c := s[0];
      var exp := c == 'e' || c == 'E';
      if (c == '.' && isDouble) || (exp && isExponent) || (c == '-' && len + 1 != signAt) then Scan(len, isDouble, true)
      else ScanNumber(s[1..], len + 1, isDouble || c == '.' || exp, isExponent || exp, if exp then len + 2 else signAt)
  }

  function Clamp64(n: int): int {
    if n < INT64_MIN then INT64_MIN else if n > INT64_MAX then INT64_MAX else n
  }

  /** strtoll finds a digit to convert. */
  predicate HasDigits(pb: string) {
    var d := if pb != "" && pb[0] in ['-', '+'] then pb[1..] else pb;
    d != "" && IsDigit(d[0])
  }

  /** sscanf finds a floating-point number to convert. */
  predicate HasDouble(pb: string) {
    var d := if pb != "" && pb[0] in ['-', '+'] then pb[1..] else pb;
    d != "" && (IsDigit(d[0]) || (d[0] == '.' && |d| > 1 && IsDigit(d[1])))
  }

  function AtNumber(t: Tok, s: string): Move
    requires t.stack != []
  {
    var r := ScanNumber(s, 0, t.isDouble, false, 1);
    var c := Peek(s[r.len..]);
    var t' := t.(pb := t.pb + s[..r.len], isDouble := r.isDouble);
    if r.wrong then Fail(t, NumberError, c)
    else if t'.pb != "" && t'.pb[0] == '-' && r.len <= 1 && (c == 'i' || c == 'I') then Go(To(t', Inf).(pos := 0), r.len)
    else if !r.isDouble && HasDigits(t'.pb) then Go(Done(t', Int(Clamp64(Scanned(t'.pb)))), r.len)
    else if r.isDouble && HasDouble(t'.pb) then Go(Done(t', Double(t'.pb)), r.len)
    else Fail(t', NumberError, c)
  }

  // ----- The switch -----

  function AtStart(t: Tok, s: string): Move
    requires t.stack != []
  {
    var c := Peek(s);
    var reset := t.(pb := "", pos := 0);
    if c == '{' then Advance(SetTop(t, Top(t).(state := EatWs, saved := FieldStart, current := Obj([]))), s)
    else if c == '[' then Advance(SetTop(t, Top(t).(state := EatWs, saved := Array, current := Arr([]))), s)
    else if c == 'i' || c == 'I' then Go(To(reset, Inf), 0)
    else if c == 'n' || c == 'N' then Go(To(reset, Nul), 0)
    else if c == '\"' || c == '\'' then Advance(To(t, String).(pb := "", quote := c), s)
    else if c in ['t', 'T', 'f', 'F'] then Go(To(reset, Boolean), 0)
    else if IsDigit(c) || c == '-' then Go(To(t, Number).(pb := "", isDouble := false), 0)
    else Fail(t, UnexpectedError, c)
  }

  /** A new level for an element or a member value; the old one waits to add it. */
  function Push(t: Tok, waiting: State, max: nat, c: char): Move
    requires t.stack != []
  {
    if |t.stack| >= max then Fail(t, DepthError, c)
    else Go(To(t, waiting).(stack := To(t, waiting).stack + [FRESH]), 0)
  }

  function AtFinish(t: Tok, c: char): Move
    requires t.stack != []
  {
    if |t.stack| == 1 then Out(t, c)
    else Go(t.(obj := Top(t).current, stack := t.stack[..|t.stack| - 1]), 0)
  }

  function Added(t: Tok): Tok
    requires t.stack != []
  {
    var l := Top(t);
    match l.current
    case Arr(items) => SetTop(t, l.(state := EatWs, saved := ArraySep, current := Arr(items + [t.obj])))
    case Obj(members) =>
      SetTop(t, l.(state := EatWs, saved := ObjectSep, current := Obj(PutMember(members, l.name, t.obj)), name := ""))
    case _ => EatThen(t, ArraySep)
  }

  function Step(t: Tok, s: string, max: nat): (m: Move)
    requires t.stack != []
  {
    var c := Peek(s);
    match Top(t).state
    case EatWs =>
      var k := Spaces(s);
      if Peek(s[k..]) == '/' then Go(To(t, CommentStart).(pb := "/"), k + 1)
      else Go(To(t, Top(t).saved), k)
    case Start => AtStart(t, s)
    case Finish => AtFinish(t, c)
    case Inf => AtInf(t, s)
    case Nul => AtNull(t, s)
    case Boolean => AtBoolean(t, s)
    case Number => AtNumber(t, s)
    case CommentStart =>
      if c == '*' then Advance(To(t, Comment), s)
      else if c == '/' then Advance(To(t, CommentEol), s)
      else Fail(t, CommentError, c)
    case Comment => Advance(if c == '*' then To(t, CommentEnd) else t, s)
    case CommentEol => Advance(if c == '\n' then To(t, EatWs) else t, s)
    case CommentEnd => Advance(To(t, if c == '/' then EatWs else Comment), s)
    case String => InString(t, s, String)
    case Field => InString(t, s, Field)
    case StringEscape => AtEscape(t, s)
    case EscapeUnicode => AtUnicode(t, s, 0, 0)
    case Array => if c == ']' then Advance(EatThen(t, Finish), s) else Push(t, ArrayAdd, max, c)
    case ArrayAfterSep => if c == ']' then Advance(EatThen(t, Finish), s) else Push(t, ArrayAdd, max, c)
    case ArrayAdd => Go(Added(t), 0)
    case ArraySep =>
      if c == ']' then Advance(EatThen(t, Finish), s)
      else if c == ',' then Advance(EatThen(t, ArrayAfterSep), s)
      else Fail(t, ArrayError, c)
    case FieldStart => AtFieldStart(t, s)
    case FieldStartAfterSep => AtFieldStart(t, s)
    case FieldEnd => if c == ':' then Advance(EatThen(t, Value), s) else Fail(t, KeySepError, c)
    case Value => Push(t, ValueAdd, max, c)
    case ValueAdd => Go(Added(t), 0)
    case ObjectSep =>
      if c == '}' then Advance(EatThen(t, Finish), s)
      else if c == ',' then Advance(EatThen(t, FieldStartAfterSep), s)
      else Fail(t, ValueSepError, c)
  }

  function AtFieldStart(t: Tok, s: string): Move
    requires t.stack != []
  {
    var c := Peek(s);
    if c == '}' then Advance(EatThen(t, Finish), s)
    else if c == '\"' || c == '\'' then Advance(To(t, Field).(pb := "", quote := c), s)
    else Fail(t, KeyNameError, c)
  }

  // ----- The loop -----

  /** How often the switch can still be entered without reading on. */
  function Rank(q: State): nat {
    match q
    case Array => 9
    case ArrayAfterSep => 9
    case Value => 9
    case Start => 7
    case Number => 6
    case Nul => 5
    case Boolean => 5
    case Finish => 3
    case ArrayAdd => 2
    case ValueAdd => 2
    case _ => 0
  }

  function LevelRank(l: Level): nat {
    if l.state.EatWs? then 1 + Rank(l.saved) else Rank(l.state)
  }

  /** Every level below the top waits for the one above it. */
  ghost predicate Stacked(t: Tok) {
    && t.stack != []
    && (forall i :: 0 <= i < |t.stack| - 1 ==> t.stack[i].state.ArrayAdd? || t.stack[i].state.ValueAdd?)
    && (forall i :: 0 <= i < |t.stack| ==> !t.stack[i].saved.EatWs?)
  }

  ghost predicate Progress(t: Tok, s: string, m: Move)
    requires t.stack != []
  {
    m.Go? ==> Stacked(m.tok) && m.n <= |s| && (m.n > 0 || LevelRank(Top(m.tok)) < LevelRank(Top(t)))
  }

  lemma {:induction false} UnicodeProgress(t: Tok, s: string, hi: nat, eaten: nat)
    requires Stacked(t) && (hi == 0 || IsHigh(hi))
    ensures var m := AtUnicode(t, s, hi, eaten); m.Go? ==> Stacked(m.tok) && eaten < m.n <= eaten + |s|
    decreases |s|
  {
    hide Hex4, Utf8;
    if HexRun(s, 4) == 4 && |s| > 5 {
      if hi == 0 || !IsLow(Hex4(s)) {
        var pb := if hi != 0 then t.pb + REPLACEMENT else t.pb;
        if IsHigh(Hex4(s)) {
          UnicodeProgress(t.(pb := pb), s[6..], Hex4(s), eaten + 6);
        }
      }
    }
  }

  lemma WordProgress(t: Tok, s: string)
    requires Stacked(t) && (Top(t).state.Nul? || Top(t).state.Boolean?)
    ensures Top(t).state.Nul? ==> Progress(t, s, AtNull(t, s))
    ensures Top(t).state.Boolean? ==> Progress(t, s, AtBoolean(t, s))
  {
    hide Matches;
  }

  lemma NumberProgress(t: Tok, s: string)
    requires Stacked(t) && (Top(t).state.Inf? || Top(t).state.Number?)
    ensures Top(t).state.Inf? ==> Progress(t, s, AtInf(t, s))
    ensures Top(t).state.Number? ==> Progress(t, s, AtNumber(t, s))
  {
    hide CommonCase, ScanNumber, Scanned, HasDigits, HasDouble;
  }

  lemma TextProgress(t: Tok, s: string, q: State)
    requires Stacked(t) && (q.String? || q.Field?)
    ensures Progress(t, s, InString(t, s, q))
  {
    hide PlainRun, UpToNul;
  }

  lemma EscapeProgress(t: Tok, s: string)
    requires Stacked(t)
    ensures Progress(t, s, AtEscape(t, s))
  {
    hide Unescaped;
  }

  lemma StartProgress(t: Tok, s: string)
    requires Stacked(t)
    ensures Top(t).state.Start? ==> Progress(t, s, AtStart(t, s))
  {}

  lemma FieldProgress(t: Tok, s: string)
    requires Stacked(t)
    ensures Progress(t, s, AtFieldStart(t, s))
  {}

  lemma LevelProgress(t: Tok, s: string, waiting: State, max: nat)
    requires Stacked(t) && (waiting.ArrayAdd? || waiting.ValueAdd?)
    ensures Top(t).state in {Array, ArrayAfterSep, Value} ==> Progress(t, s, Push(t, waiting, max, Peek(s)))
    ensures Top(t).state.Finish? ==> Progress(t, s, AtFinish(t, Peek(s)))
    ensures Top(t).state in {ArrayAdd, ValueAdd} ==> Progress(t, s, Go(Added(t), 0))
  {
    hide PutMember;
  }

  lemma SepProgress(t: Tok, s: string, max: nat)
    requires Stacked(t)
    requires Top(t).state in {EatWs, CommentStart, Comment, CommentEol, CommentEnd, Array, ArrayAfterSep, ArraySep, FieldEnd, ObjectSep}
    requires Top(t).state in {Array, ArrayAfterSep} ==> Peek(s) == ']'
    ensures Progress(t, s, Step(t, s, max))
  {
    hide Push;
  }

  /** Each pass through the switch reads on or comes closer to doing so. */
  lemma StepProgress(t: Tok, s: string, max: nat)
    requires Stacked(t)
    ensures Progress(t, s, Step(t, s, max))
  {
    if Top(t).state in {Nul, Boolean} { WordProgress(t, s); }
    if Top(t).state in {Inf, Number} { NumberProgress(t, s); }
    TextProgress(t, s, String);
    TextProgress(t, s, Field);
    EscapeProgress(t, s);
    StartProgress(t, s);
    FieldProgress(t, s);
    LevelProgress(t, s, ArrayAdd, max);
    LevelProgress(t, s, ValueAdd, max);
    UnicodeProgress(t, s, 0, 0);
    if Top(t).state in {EatWs, CommentStart, Comment, CommentEol, CommentEnd, ArraySep, FieldEnd, ObjectSep}
      || (Top(t).state in {Array, ArrayAfterSep} && Peek(s) == ']')
    {
      SepProgress(t, s, max);
    }
    hide Stacked, AtUnicode, AtStart, AtFinish, AtInf, AtNull, AtBoolean, AtNumber, InString, AtEscape, Push, Added, AtFieldStart;
  }

  /** The main loop from any state of the tokener, with s still to be read. */
  function Run(t: Tok, s: string, max: nat): Result
    requires Stacked(t)
    decreases |s|, LevelRank(Top(t))
  {
    StepProgress(t, s, max);
    match Step(t, s, max)
    case Go(t', n) => Run(t', s[n..], max)
    case Halt(r) => r
  }

  /** One pass. */
  lemma Once(t: Tok, s: string, max: nat)
    requires Stacked(t)
    ensures Progress(t, s, Step(t, s, max))
    ensures var m := Step(t, s, max); Run(t, s, max) == if m.Go? then Run(m.tok, s[m.n..], max) else m.result
  {
    hide Step, Stacked, LevelRank;
    StepProgress(t, s, max);
  }

  const INT32_MAX: int := 0x7fff_ffff

  const INITIAL: Tok := Tok([FRESH], "", 0, NUL, false, Null)

  /** json_tokener_parse_ex with a tokener of max levels: the loop ends, for every text. */
  method ParseEx(str: string, max: nat) returns (r: Result)
    requires max >= 1
    ensures r == if |str| > INT32_MAX then Err(SizeError) else Run(INITIAL, str, max)
  {
    hide Step, Run, LevelRank;
    if |str| > INT32_MAX {
      return Err(SizeError);
    }
    var t, i := INITIAL, 0;
    assert str[0..] == str;
    while true
      invariant 0 <= i <= |str| && Stacked(t)
      invariant Run(t, str[i..], max) == Run(INITIAL, str, max)
      decreases |str| - i, LevelRank(Top(t))
    {
      Once(t, str[i..], max);
      match Step(t, str[i..], max) {
        case Go(t', n) =>
          assert str[i..][n..] == str[i + n..];
          t, i := t', i + n;
        case Halt(result) =>
          return result;
      }
    }
  }

  // ----- Which texts are accepted -----

  predicate InComment(q: State) { q.Comment? || q.CommentEol? || q.CommentEnd? }

  /** A level that waits to finish is eating white space or a comment, or is finishing. */
  predicate Orderly(l: Level) {
    l.saved.Finish? ==> l.state.EatWs? || l.state.Finish? || l.state.CommentStart? || InComment(l.state)
  }

  ghost predicate Sane(t: Tok) {
    Stacked(t) && forall i :: 0 <= i < |t.stack| ==> Orderly(t.stack[i])
  }

  ghost predicate StaysSane(m: Move) {
    m.Go? ==> m.tok.stack != [] && forall i :: 0 <= i < |m.tok.stack| ==> Orderly(m.tok.stack[i])
  }

  /** When a pass leaves the loop with a value, and with which. */
  ghost predicate Accepts(t: Tok, s: string)
    requires t.stack != []
  {
    || (Top(t).state.Finish? && |t.stack| == 1)
    || (InComment(Top(t).state) && Top(t).saved.Finish? && Peek(s) == NUL)
  }

  ghost predicate Decides(t: Tok, s: string, m: Move)
    requires t.stack != []
  {
    && StaysSane(m)
    && (m.Halt? ==> (m.result.Ok? <==> Accepts(t, s)) && (m.result.Ok? ==> m.result.value == Top(t).current))
    && (Accepts(t, s) ==> m.Halt?)
  }

  lemma WordDecides(t: Tok, s: string)
    requires Sane(t)
    ensures Top(t).state.Nul? ==> Decides(t, s, AtNull(t, s))
    ensures Top(t).state.Boolean? ==> Decides(t, s, AtBoolean(t, s))
  {
    hide Matches;
  }

  lemma NumberDecides(t: Tok, s: string)
    requires Sane(t)
    ensures Top(t).state.Inf? ==> Decides(t, s, AtInf(t, s))
    ensures Top(t).state.Number? ==> Decides(t, s, AtNumber(t, s))
  {
    hide CommonCase, ScanNumber, Scanned, HasDigits, HasDouble;
  }

  lemma TextDecides(t: Tok, s: string, q: State)
    requires Sane(t) && (q.String? || q.Field?) && Top(t).state == q
    ensures Decides(t, s, InString(t, s, q))
  {
    hide PlainRun, UpToNul;
  }

  lemma EscapeDecides(t: Tok, s: string)
    requires Sane(t) && Top(t).state.StringEscape?
    ensures Decides(t, s, AtEscape(t, s))
  {
    hide Unescaped;
  }

  lemma {:induction false} UnicodeDecides(t: Tok, s: string, hi: nat, eaten: nat)
    requires Sane(t) && Top(t).state.EscapeUnicode? && (hi == 0 || IsHigh(hi))
    ensures var m := AtUnicode(t, s, hi, eaten); StaysSane(m) && (m.Halt? ==> m.result.Err?)
    decreases |s|
  {
    hide Hex4, Utf8;
    if HexRun(s, 4) == 4 && |s| > 5 {
      if hi == 0 || !IsLow(Hex4(s)) {
        var pb := if hi != 0 then t.pb + REPLACEMENT else t.pb;
        if IsHigh(Hex4(s)) {
          UnicodeDecides(t.(pb := pb), s[6..], Hex4(s), eaten + 6);
        }
      }
    }
  }

  lemma StartDecides(t: Tok, s: string)
    requires Sane(t)
    ensures Top(t).state.Start? ==> Decides(t, s, AtStart(t, s))
  {}

  lemma FieldDecides(t: Tok, s: string)
    requires Sane(t) && (Top(t).state.FieldStart? || Top(t).state.FieldStartAfterSep?)
    ensures Decides(t, s, AtFieldStart(t, s))
  {}

  lemma LevelDecides(t: Tok, s: string, waiting: State, max: nat)
    requires Sane(t) && (waiting.ArrayAdd? || waiting.ValueAdd?)
    ensures Top(t).state in {Array, ArrayAfterSep, Value} ==> Decides(t, s, Push(t, waiting, max, Peek(s)))
    ensures Top(t).state.Finish? ==> Decides(t, s, AtFinish(t, Peek(s)))
    ensures Top(t).state in {ArrayAdd, ValueAdd} ==> Decides(t, s, Go(Added(t), 0))
  {
    hide PutMember;
  }

  lemma CommentDecides(t: Tok, s: string, max: nat)
    requires Sane(t) && (Top(t).state.EatWs? || Top(t).state.CommentStart? || InComment(Top(t).state))
    ensures Decides(t, s, Step(t, s, max))
  {
    hide Push;
  }

  lemma SepDecides(t: Tok, s: string, max: nat)
    requires Sane(t) && Top(t).state in {Array, ArrayAfterSep, ArraySep, FieldEnd, ObjectSep}
    requires Top(t).state in {Array, ArrayAfterSep} ==> Peek(s) == ']'
    ensures Decides(t, s, Step(t, s, max))
  {
    hide Push;
  }

  lemma StepDecides(t: Tok, s: string, max: nat)
    requires Sane(t)
    ensures Decides(t, s, Step(t, s, max))
  {
    var q := Top(t).state;
    if q in {Nul, Boolean} { WordDecides(t, s); }
    else if q in {Inf, Number} { NumberDecides(t, s); }
    else if q in {String, Field} { TextDecides(t, s, q); }
    else if q.StringEscape? { EscapeDecides(t, s); }
    else if q.EscapeUnicode? { UnicodeDecides(t, s, 0, 0); }
    else if q.Start? { StartDecides(t, s); }
    else if q in {FieldStart, FieldStartAfterSep} { FieldDecides(t, s); }
    else if q in {Finish, ArrayAdd, ValueAdd, Value} || (q in {Array, ArrayAfterSep} && Peek(s) != ']') {
      LevelDecides(t, s, if q.Value? then ValueAdd else ArrayAdd, max);
    } else if q in {Array, ArrayAfterSep, ArraySep, FieldEnd, ObjectSep} {
      SepDecides(t, s, max);
    } else {
      CommentDecides(t, s, max);
    }
    hide Sane, AtUnicode, AtStart, AtFinish, AtInf, AtNull, AtBoolean, AtNumber, InString, AtEscape, Push, Added, AtFieldStart, StaysSane;
  }

  /** The tokener and the unread text at the last pass. */
  ghost function Last(t: Tok, s: string, max: nat): (Tok, string)
    requires Stacked(t)
    decreases |s|, LevelRank(Top(t))
  {
    StepProgress(t, s, max);
    match Step(t, s, max)
    case Go(t', n) => Last(t', s[n..], max)
    case Halt(_) => (t, s)
  }

  /**
   * For every text: a value is returned exactly if the last pass finishes the outermost level, or if the
   * text ends inside a comment after a finished value, on whatever level; it is the value on the top level.
   */
  lemma {:induction false} AcceptsExactly(t: Tok, s: string, max: nat)
    requires Sane(t)
    ensures var (u, r) := Last(t, s, max);
      && u.stack != [] && (Run(t, s, max).Ok? <==> Accepts(u, r))
      && (Run(t, s, max).Ok? ==> Run(t, s, max).value == Top(u).current)
    decreases |s|, LevelRank(Top(t))
  {
    Once(t, s, max);
    StepDecides(t, s, max);
    hide Step, Run, LevelRank, Accepts, Orderly;
    match Step(t, s, max)
    case Go(t', n) => AcceptsExactly(t', s[n..], max);
    case Halt(_) =>
  }

  /** A value comes from an inner level exactly if the text ends inside a comment that follows it there. */
  lemma InnerValue(s: string, max: nat)
    ensures var (u, r) := Last(INITIAL, s, max);
      Run(INITIAL, s, max).Ok? && |u.stack| > 1 <==>
      |u.stack| > 1 && InComment(Top(u).state) && Top(u).saved.Finish? && Peek(r) == NUL
  {
    AcceptsExactly(INITIAL, s, max);
    hide Run, Last;
  }

  // ----- Texts without a comment -----

  /** No slash is followed by a star or a slash, not even inside a string. */
  predicate NoComment(s: string) {
    forall i :: 0 <= i < |s| - 1 ==> s[i] != '/' || (s[i + 1] != '*' && s[i + 1] != '/')
  }

  predicate Calm(l: Level) {
    !InComment(l.state) && !InComment(l.saved) && !l.state.CommentStart? && !l.saved.CommentStart?
  }

  ghost predicate AllCalm(t: Tok) {
    forall i :: 0 <= i < |t.stack| ==> Calm(t.stack[i])
  }

  ghost predicate StaysCalm(m: Move) {
    m.Go? ==> AllCalm(m.tok)
  }

  lemma WordCalm(t: Tok, s: string)
    requires t.stack != [] && AllCalm(t)
    ensures StaysCalm(AtNull(t, s)) && StaysCalm(AtBoolean(t, s))
  {
    hide Matches;
  }

  lemma NumberCalm(t: Tok, s: string)
    requires t.stack != [] && AllCalm(t)
    ensures StaysCalm(AtInf(t, s)) && StaysCalm(AtNumber(t, s))
  {
    hide CommonCase, ScanNumber, Scanned, HasDigits, HasDouble;
  }

  lemma TextCalm(t: Tok, s: string, q: State)
    requires t.stack != [] && AllCalm(t) && (q.String? || q.Field?)
    ensures StaysCalm(InString(t, s, q)) && StaysCalm(AtEscape(t, s))
  {
    hide PlainRun, UpToNul, Unescaped;
  }

  lemma {:induction false} UnicodeCalm(t: Tok, s: string, hi: nat, eaten: nat)
    requires t.stack != [] && AllCalm(t) && (hi == 0 || IsHigh(hi))
    ensures StaysCalm(AtUnicode(t, s, hi, eaten))
    decreases |s|
  {
    hide Hex4, Utf8;
    if HexRun(s, 4) == 4 && |s| > 5 {
      if hi == 0 || !IsLow(Hex4(s)) {
        var pb := if hi != 0 then t.pb + REPLACEMENT else t.pb;
        if IsHigh(Hex4(s)) {
          UnicodeCalm(t.(pb := pb), s[6..], Hex4(s), eaten + 6);
        }
      }
    }
  }

  lemma LevelCalm(t: Tok, s: string, waiting: State, max: nat)
    requires t.stack != [] && AllCalm(t) && (waiting.ArrayAdd? || waiting.ValueAdd?)
    ensures StaysCalm(Push(t, waiting, max, Peek(s))) && StaysCalm(AtFinish(t, Peek(s))) && StaysCalm(Go(Added(t), 0))
  {
    hide PutMember;
  }

  lemma StartCalm(t: Tok, s: string)
    requires t.stack != [] && AllCalm(t)
    ensures StaysCalm(AtStart(t, s))
  {}

  lemma FieldCalm(t: Tok, s: string)
    requires t.stack != [] && AllCalm(t)
    ensures StaysCalm(AtFieldStart(t, s))
  {}

  lemma SepCalm(t: Tok, s: string, max: nat)
    requires t.stack != [] && AllCalm(t) && Top(t).state in {EatWs, Array, ArrayAfterSep, ArraySep, FieldEnd, ObjectSep}
    requires Top(t).state in {Array, ArrayAfterSep} ==> Peek(s) == ']'
    requires Top(t).state.EatWs? ==> Peek(s[Spaces(s)..]) != '/'
    ensures StaysCalm(Step(t, s, max))
  {
    hide Push;
  }

  /** Only a slash after white space leads into a comment. */
  lemma StepCalm(t: Tok, s: string, max: nat)
    requires t.stack != [] && AllCalm(t) && (Top(t).state.EatWs? ==> Peek(s[Spaces(s)..]) != '/')
    ensures StaysCalm(Step(t, s, max))
  {
    var q := Top(t).state;
    assert Calm(Top(t));
    if q in {Nul, Boolean} { WordCalm(t, s); }
    else if q in {Inf, Number} { NumberCalm(t, s); }
    else if q in {String, Field, StringEscape} { TextCalm(t, s, if q.Field? then Field else String); }
    else if q.EscapeUnicode? { UnicodeCalm(t, s, 0, 0); }
    else if q in {EatWs, ArraySep, FieldEnd, ObjectSep} || (q in {Array, ArrayAfterSep} && Peek(s) == ']') {
      SepCalm(t, s, max);
    } else if q.Start? {
      StartCalm(t, s);
    } else if q in {FieldStart, FieldStartAfterSep} {
      FieldCalm(t, s);
    } else {
      LevelCalm(t, s, if q.Value? then ValueAdd else ArrayAdd, max);
    }
    hide AllCalm, AtUnicode, AtStart, AtFinish, AtInf, AtNull, AtBoolean, AtNumber, InString, AtEscape, Push, Added, AtFieldStart, StaysCalm;
  }

  /** A slash that opens no comment is an error. */
  lemma SlashFails(t: Tok, s: string, max: nat)
    requires Stacked(t) && Top(t).state.EatWs? && NoComment(s) && Peek(s[Spaces(s)..]) == '/'
    ensures Run(t, s, max).Err?
  {
    var k := Spaces(s);
    var t' := To(t, CommentStart).(pb := "/");
    assert Step(t, s, max) == Go(t', k + 1);
    Once(t, s, max);
    var r := s[k + 1..];
    assert Peek(r) != '*' && Peek(r) != '/' by {
      assert s[k..][0] == s[k];
      if r != "" { assert r[0] == s[k + 1]; }
    }
    assert Step(t', r, max).Halt?;
    hide Run;
    Once(t', r, max);
  }

  /** Without a comment in the text only the outermost value is returned. */
  lemma {:induction false} OuterOnly(t: Tok, s: string, max: nat)
    requires Sane(t) && AllCalm(t) && NoComment(s)
    ensures var (u, r) := Last(t, s, max); Run(t, s, max).Ok? ==> u.stack != [] && Top(u).state.Finish? && |u.stack| == 1
    decreases |s|, LevelRank(Top(t))
  {
    if Top(t).state.EatWs? && Peek(s[Spaces(s)..]) == '/' {
      SlashFails(t, s, max);
    } else {
      assert Calm(Top(t));
      Once(t, s, max);
      StepDecides(t, s, max);
      StepCalm(t, s, max);
      hide Step, Run, LevelRank, Orderly, Calm;
      match Step(t, s, max)
      case Go(t', n) => OuterOnly(t', s[n..], max);
      case Halt(_) =>
    }
  }

  /** A text that opens no comment never yields an inner value. */
  lemma NoInnerValue(s: string, max: nat)
    requires NoComment(s)
    ensures Run(INITIAL, s, max).Ok? ==> |Last(INITIAL, s, max).0.stack| == 1
  {
    hide Run, Last;
    OuterOnly(INITIAL, s, max);
  }
}
