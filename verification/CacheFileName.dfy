/** The names of the cache files (offlinemsgcache.c): written from a header, read back at reload. */
module CacheFileName {
  import opened Decimal
  import opened OfflineQueue

  const DEFAULT_PRIORITY: int := 8

  /** get_cache_file_path, below the cache directory. */
  function FileName(e: Entry): (name: string) {
    if e.priority >= 0 then Printed(e.timestamp) + "-" + Printed(e.priority) + ".cache"
    else Printed(e.timestamp) + ".cache"
  }

  /** get_file_base_name: what stands before the last dot, nothing if there is none. */
  function BaseName(name: string): (base: string)
    ensures |base| <= |name| && base == name[..|base|]
    ensures base != "" ==> |base| < |name| && name[|base|] == '.'
    decreases |name|
  {
    if name == "" then ""
    else if name[|name| - 1] == '.' then name[..|name| - 1]
    else
      var base := BaseName(name[..|name| - 1]);
      base
  }

  function IndexOf(s: string, c: char): (i: nat)
    ensures i <= |s| && c !in s[..i]
    ensures i < |s| ==> s[i] == c
  {
    if s == "" || s[0] == c then 0 else
      var i := IndexOf(s[1..], c);
      assert s[..i + 1] == [s[0]] + s[1..][..i];
      i + 1
  }

  /** get_cache_file_header_from_file_base */
  function Header(base: string): (e: Entry) {
    var i := IndexOf(base, '-');
    if i == |base| then Entry(DEFAULT_PRIORITY, Scanned(base))
    else
      var p := base[i + 1..];
      Entry(if p == "" then DEFAULT_PRIORITY else Scanned(p), Scanned(base[..i]))
  }

  lemma {:induction false} BaseOf(base: string, suffix: string)
    requires '.' !in suffix
    ensures BaseName(base + "." + suffix) == base
    decreases |suffix|
  {
    var name := base + "." + suffix;
    var before := name[..|name| - 1];
    if suffix == "" {
      assert before == base;
    } else {
      var shorter := suffix[..|suffix| - 1];
      assert before == base + "." + shorter;
      assert name[|name| - 1] == suffix[|suffix| - 1];
      assert '.' !in shorter;
      BaseOf(base, shorter);
    }
  }

  lemma {:induction false} SeparatorAt(s: string, rest: string)
    requires '-' !in s && (rest == "" || rest[0] == '-')
    ensures IndexOf(s + rest, '-') == |s|
  {
    if s == "" {
      assert s + rest == rest;
    } else {
      assert (s + rest)[1..] == s[1..] + rest;
      SeparatorAt(s[1..], rest);
    }
  }

  /**
   * Reading a name gives back the header. A negative priority is left out of the name and comes back
   * as the default.
   */
  lemma HeaderOfName(e: Entry)
    requires e.timestamp > 0
    ensures Header(BaseName(FileName(e))) == if e.priority >= 0 then e else Entry(DEFAULT_PRIORITY, e.timestamp)
  {
    hide Scanned, Natural;
    var t := Printed(e.timestamp);
    assert t + "" == t;
    ScannedPrinted(e.timestamp, "");
    if e.priority >= 0 {
      var p := Printed(e.priority);
      var base := t + "-" + p;
      assert FileName(e) == base + "." + "cache";
      BaseOf(base, "cache");
      assert base == t + ("-" + p);
      SeparatorAt(t, "-" + p);
      assert base[..|t|] == t && base[|t| + 1..] == p && p + "" == p;
      ScannedPrinted(e.priority, "");
    } else {
      assert FileName(e) == t + "." + "cache";
      BaseOf(t, "cache");
      SeparatorAt(t, "");
    }
  }

  /** So names tell headers apart exactly as far as the priority is written. */
  lemma NamesApart(a: Entry, b: Entry)
    requires a.timestamp > 0 && b.timestamp > 0
    ensures FileName(a) == FileName(b) <==> a.timestamp == b.timestamp && (a.priority == b.priority || (a.priority < 0 && b.priority < 0))
  {
    if FileName(a) == FileName(b) {
      HeaderOfName(a);
      HeaderOfName(b);
    }
  }

  // ----- What a name looks like -----

  /** A name that is timestamp, dash and priority is read in this order; without a priority the default is 8. */
  lemma HeaderOfTexts(t: string, p: string)
    requires '-' !in t
    ensures Header(t + "-" + p) == Entry(if p == "" then 8 else Scanned(p), Scanned(t))
    ensures Header(t) == Entry(8, Scanned(t))
  {
    hide Scanned;
    var base := t + "-" + p;
    assert base == t + ("-" + p) && t + "" == t;
    SeparatorAt(t, "-" + p);
    SeparatorAt(t, "");
    assert base[..|t|] == t && base[|t| + 1..] == p;
  }

  /** Two digit texts are the timestamp and the priority. */
  lemma HeaderOfDigits(t: string, p: string)
    requires t != "" && p != "" && AllDigits(t) && AllDigits(p)
    ensures Header(BaseName(t + "-" + p + ".cache")) == Entry(Value(p), Value(t))
    ensures Header(BaseName(t + ".cache")) == Entry(8, Value(t))
  {
    hide Header, BaseName, Value;
    HeaderOfTexts(t, p);
    ScannedWhole(t);
    ScannedWhole(p);
    hide *;
    assert t + "-" + p + ".cache" == (t + "-" + p) + "." + "cache" && t + ".cache" == t + "." + "cache";
    BaseOf(t + "-" + p, "cache");
    BaseOf(t, "cache");
  }

  lemma ScannedWhole(d: string)
    requires d != "" && AllDigits(d)
    ensures Scanned(d) == Value(d) && '-' !in d
  {
    ScannedDigits(d, "");
    assert d + "" == d;
  }

  /** A file without a dot in its name has no base name, and is skipped at reload. */
  lemma {:induction false} NoDot(name: string)
    requires '.' !in name
    ensures BaseName(name) == ""
    decreases |name|
  {
    if name != "" { NoDot(name[..|name| - 1]); }
  }

  ghost predicate EndsWith(s: string, n: int) {
    var k := LeadingDigits(s);
    k > 0 && Value(s[..k]) == n && s[k..] == ".cache"
  }

  /**
   * The name begins with the digits of the timestamp, goes on with a dash and the digits of the priority if
   * that is not negative, and ends in ".cache".
   */
  lemma NameShape(e: Entry)
    requires e.timestamp > 0
    ensures var name := FileName(e); var k := LeadingDigits(name); var rest := name[k..];
      && k > 0 && Value(name[..k]) == e.timestamp && name[0] != '0' && name[|name| - 6..] == ".cache"
      && (e.priority < 0 ==> rest == ".cache")
      && (e.priority >= 0 ==> rest[0] == '-' && EndsWith(rest[1..], e.priority))
  {
    hide Value, LeadingDigits, EndsWith, Natural;
    var t, name := Natural(e.timestamp), FileName(e);
    var rest := if e.priority >= 0 then "-" + Natural(e.priority) + ".cache" else ".cache";
    assert name == t + rest;
    NumberInFront(e.timestamp, rest);
    NoZeroInFront(e.timestamp);
    assert name[|t|..] == rest && name[..|t|] == t;
    if e.priority >= 0 {
      assert rest[1..] == Natural(e.priority) + ".cache" && rest == ("-" + Natural(e.priority)) + ".cache";
      NumberEnds(e.priority);
    }
  }

  lemma NumberInFront(n: nat, rest: string)
    requires rest != "" && !IsDigit(rest[0])
    ensures LeadingDigits(Natural(n) + rest) == |Natural(n)| > 0 && Value(Natural(n)) == n
  {
    hide Natural, Value;
    LeadingOf(Natural(n), rest);
    NaturalValue(n);
  }

  lemma NumberEnds(n: nat)
    ensures EndsWith(Natural(n) + ".cache", n)
  {
    hide Natural, Value;
    NumberInFront(n, ".cache");
    var s := Natural(n) + ".cache";
    assert s[..|Natural(n)|] == Natural(n) && s[|Natural(n)|..] == ".cache";
  }

  /** The entry of priority 8 at time 17. */
  lemma NameExample()
    ensures FileName(Entry(8, 17)) == "17-8.cache" && Header(BaseName("17-8.cache")) == Entry(8, 17)
  {
    assert DigitOf(1) == '1' && DigitOf(7) == '7' && DigitOf(8) == '8';
    assert Natural(17) == "17" by { assert Natural(1) == "1"; }
    HeaderOfName(Entry(8, 17));
  }
}
