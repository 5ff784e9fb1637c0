/**
 * Validation of year-folder names: a folder is a year folder when its name
 * matches `^(\d{4})(?:-(\d{4}))?$` (with Python's `re.match`) and the first
 * year is not after the second.
 */
module YearNames {
  import opened Outcomes

  /** The two capture groups of a successful match. */
  datatype YearGroups = YearGroups(first: string, second: Option<string>)

  predicate IsDigit(c: char)
  {
    '0' <= c <= '9'
  }

  predicate IsFourDigits(s: string)
  {
    |s| == 4 && IsDigit(s[0]) && IsDigit(s[1]) && IsDigit(s[2]) && IsDigit(s[3])
  }

  function DigitValue(c: char): nat
    requires IsDigit(c)
  {
    c as int - '0' as int
  }

  /** `int()` of a four-digit group. */
  function FourDigitsValue(s: string): (v: nat)
    requires IsFourDigits(s)
    ensures v < 10000
  {
    1000 * DigitValue(s[0]) + 100 * DigitValue(s[1]) + 10 * DigitValue(s[2]) + DigitValue(s[3])
  }

  /** The text the groups were matched from: `first`, or `first-second`. */
  function GroupsText(g: YearGroups): string
  {
    g.first + (if g.second.Some? then "-" + g.second.value else "")
  }

  /**
   * The match of the whole pattern. Python's `$` also matches just before a
   * newline that ends the string, so one trailing "\n" is tolerated.
   */
  function MatchYearPattern(s: string): (m: Option<YearGroups>)
    ensures m.Some? ==> IsFourDigits(m.value.first)
    ensures m.Some? && m.value.second.Some? ==> IsFourDigits(m.value.second.value)
    ensures m.Some? ==> s == GroupsText(m.value) || s == GroupsText(m.value) + "\n"
  {
    var body := if |s| > 0 && s[|s| - 1] == '\n' then s[..|s| - 1] else s;
    if IsFourDigits(body) then Some(YearGroups(body, None))
    else if |body| == 9 && IsFourDigits(body[..4]) && body[4] == '-' && IsFourDigits(body[5..]) then
      Some(YearGroups(body[..4], Some(body[5..])))
    else None
  }

  /** `parse_year_string`: true for a single year or an ascending range. */
  function ParseYearString(s: string): (ok: bool)
    ensures ok ==> |s| in {4, 5, 9, 10} && IsFourDigits(s[..4])
  {
    match MatchYearPattern(s)
    case None => false
    case Some(g) =>
      var start := FourDigitsValue(g.first);
      var end := if g.second.Some? then FourDigitsValue(g.second.value) else start;
      start <= end
  }

  /**
   * Conversely, four digits, or four digits, '-' and four digits, are
   * matched into exactly those groups, with or without one final newline.
   */
  lemma MatchGroupsText(g: YearGroups, newline: bool)
    requires IsFourDigits(g.first)
    requires g.second.Some? ==> IsFourDigits(g.second.value)
    ensures MatchYearPattern(GroupsText(g) + (if newline then "\n" else "")) == Some(g)
  {
    var t := GroupsText(g);
    var s := t + (if newline then "\n" else "");
    if g.second.Some? {
      var second := g.second.value;
      assert t == g.first + "-" + second && |t| == 9;
      assert t[|t| - 1] == second[3];
      assert t[..4] == g.first && t[4] == '-' && t[5..] == second;
    } else {
      assert t == g.first;
    }
    assert (if |s| > 0 && s[|s| - 1] == '\n' then s[..|s| - 1] else s) == t;
  }

  /** The zero-padded four-digit spelling of a year below 10000. */
  function FourDigits(n: nat): (s: string)
    requires n < 10000
    ensures IsFourDigits(s)
  {
    var r := n % 1000;
    [Digit(n / 1000), Digit(r / 100), Digit(r % 100 / 10), Digit(r % 10)]
  }

  function Digit(d: nat): (c: char)
    requires d < 10
    ensures IsDigit(c) && DigitValue(c) == d
  {
    ('0' as int + d) as char
  }

  lemma DivMod1000(q: nat, r: nat)
    requires r < 1000
    ensures (1000 * q + r) / 1000 == q && (1000 * q + r) % 1000 == r
  {
  }

  lemma DivMod100(q: nat, r: nat)
    requires r < 100
    ensures (100 * q + r) / 100 == q && (100 * q + r) % 100 == r
  {
  }

  lemma DivMod10(q: nat, r: nat)
    requires r < 10
    ensures (10 * q + r) / 10 == q && (10 * q + r) % 10 == r
  {
  }

  /** The folder name for a single year (`end` = None) or for a year range. */
  function YearFolderName(start: nat, end: Option<nat>): string
    requires start < 10000
    requires end.Some? ==> end.value < 10000
  {
    match end
    case None => FourDigits(start)
    case Some(e) => FourDigits(start) + "-" + FourDigits(e)
  }

  lemma FourDigitsRoundTrip(n: nat)
    requires n < 10000
    ensures FourDigitsValue(FourDigits(n)) == n
  {
    var a, r := n / 1000, n % 1000;
    var b, r2 := r / 100, r % 100;
    var c, d := r2 / 10, r2 % 10;
    assert n == 1000 * a + r && r == 100 * b + r2 && r2 == 10 * c + d;
    DivMod10(10 * b + c, d);
    assert r == 10 * (10 * b + c) + d;
    assert FourDigits(n) == [Digit(a), Digit(b), Digit(c), Digit(d)];
  }

  lemma FourDigitsOfValue(s: string)
    requires IsFourDigits(s)
    ensures FourDigits(FourDigitsValue(s)) == s
  {
    var a, b, c, d := DigitValue(s[0]), DigitValue(s[1]), DigitValue(s[2]), DigitValue(s[3]);
    var n := FourDigitsValue(s);
    var r := 100 * b + 10 * c + d;
    DivMod1000(a, r);
    DivMod100(b, 10 * c + d);
    DivMod10(c, d);
    assert r == 10 * (10 * b + c) + d;
    DivMod10(10 * b + c, d);
  }

  /**
   * Every rendered name is accepted exactly when it is a single year or an
   * ascending range, with or without a final newline.
   */
  lemma {:induction false} RenderedNameAccepted(start: nat, end: Option<nat>, newline: bool)
    requires start < 10000
    requires end.Some? ==> end.value < 10000
    ensures ParseYearString(YearFolderName(start, end) + (if newline then "\n" else ""))
            <==> (end.None? || start <= end.value)
  {
    var name := YearFolderName(start, end);
    var s := name + (if newline then "\n" else "");
    assert (if |s| > 0 && s[|s| - 1] == '\n' then s[..|s| - 1] else s) == name;
    FourDigitsRoundTrip(start);
    match end {
      case None =>
      case Some(e) =>
        FourDigitsRoundTrip(e);
        assert name[..4] == FourDigits(start);
        assert name[5..] == FourDigits(e);
    }
  }

  /** Every accepted name is the rendering of an ascending span. */
  lemma {:induction false} AcceptedNameIsRendered(s: string) returns (start: nat, end: Option<nat>, newline: bool)
    requires ParseYearString(s)
    ensures start < 10000 && (end.Some? ==> start <= end.value < 10000)
    ensures s == YearFolderName(start, end) + (if newline then "\n" else "")
  {
    newline := |s| > 0 && s[|s| - 1] == '\n';
    var body := if newline then s[..|s| - 1] else s;
    var g := MatchYearPattern(s).value;
    start := FourDigitsValue(g.first);
    FourDigitsOfValue(g.first);
    if g.second.None? {
      end := None;
      assert body == g.first;
    } else {
      end := Some(FourDigitsValue(g.second.value));
      FourDigitsOfValue(g.second.value);
      assert body == g.first + "-" + g.second.value;
    }
    assert s == body + (if newline then "\n" else "");
  }

  /** The examples the dashboard's year folders follow. */
  lemma YearStringExamples()
    ensures ParseYearString("1890")
    ensures ParseYearString("1891-1892")
    ensures ParseYearString("1890-1890")
    ensures !ParseYearString("1892-1891")
    ensures !ParseYearString("189")
    ensures !ParseYearString("1890-")
    ensures !ParseYearString("18a0")
  {
    assert "1891-1892"[..4] == "1891";
    assert "1891-1892"[5..] == "1892";
    assert "1890-1890"[..4] == "1890";
    assert "1890-1890"[5..] == "1890";
    assert "1892-1891"[..4] == "1892";
    assert "1892-1891"[5..] == "1891";
  }
}
