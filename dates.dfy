/** The dates of `scrape_news_source` (scrape_gp_stake_news.py): `datetime.strptime` with the
    format `'%B %d, %Y'`, the comparison with the cutoff `datetime`, and `strftime('%Y-%m-%d')`. */
module Dates {
  import opened Wrappers
  import opened Strings

  /** A calendar date as `datetime.date` holds it. */
  datatype Date = Date(year: int, month: int, day: int)

  /** A naive `datetime`: a date and a time of day. */
  datatype DateTime = DateTime(date: Date, hour: int, minute: int, second: int, microsecond: int)

  /** The English month names, which are `%B` in the C locale. */
  const MonthNames: seq<string> := ["January", "February", "March", "April", "May", "June",
    "July", "August", "September", "October", "November", "December"]

  predicate IsLeapYear(y: int) {
    y % 4 == 0 && (y % 100 != 0 || y % 400 == 0)
  }

  function DaysInMonth(y: int, m: int): (n: int)
    requires 1 <= m <= 12
    ensures 28 <= n <= 31
    ensures n == 29 <==> m == 2 && IsLeapYear(y)
  {
    if m == 2 then (if IsLeapYear(y) then 29 else 28)
    else if m == 4 || m == 6 || m == 9 || m == 11 then 30
    else 31
  }

  /** What `datetime.date(year, month, day)` accepts (`MINYEAR` is 1, `MAXYEAR` 9999). */
  predicate ValidDate(d: Date) {
    1 <= d.year <= 9999 && 1 <= d.month <= 12 && 1 <= d.day <= DaysInMonth(d.year, d.month)
  }

  predicate ValidTime(t: DateTime) {
    0 <= t.hour < 24 && 0 <= t.minute < 60 && 0 <= t.second < 60 && 0 <= t.microsecond < 1000000
  }

  // ---------------------------------------------------------------------------------------------
  // Parsing `'%B %d, %Y'`

  /** `%B` under `re.IGNORECASE`: `s` starts with the name of month `m + 1`, in any letter case. */
  predicate SpellsMonth(s: string, m: nat)
    requires m < 12
  {
    |MonthNames[m]| <= |s| && forall i :: 0 <= i < |MonthNames[m]| ==> LowerChar(s[i]) == LowerChar(MonthNames[m][i])
  }

  /** At most one month name starts a text (the names differ in their first three letters). */
  lemma SpellsMonthUnique(s: string, a: nat, b: nat)
    requires a < 12 && b < 12 && SpellsMonth(s, a) && SpellsMonth(s, b)
    ensures a == b
  {
    assert LowerChar(MonthNames[a][0]) == LowerChar(s[0]) == LowerChar(MonthNames[b][0]);
    assert LowerChar(MonthNames[a][1]) == LowerChar(s[1]) == LowerChar(MonthNames[b][1]);
    assert LowerChar(MonthNames[a][2]) == LowerChar(s[2]) == LowerChar(MonthNames[b][2]);
  }

  /** The month, from `m + 1` on, whose name starts `s`. */
  function MonthPrefix(s: string, m: nat): (r: Option<nat>)
    requires m <= 12
    ensures r.Some? ==> m <= r.value < 12 && SpellsMonth(s, r.value)
    ensures r.None? ==> forall k :: m <= k < 12 ==> !SpellsMonth(s, k)
    decreases 12 - m
  {
    if m == 12 then None
    else if SpellsMonth(s, m) then Some(m)
    else MonthPrefix(s, m + 1)
  }

  /** `%d`: `3[01]|[12]\d|0[1-9]|[1-9]` — one digit from 1 to 9, or two digits from 01 to 31. */
  predicate IsDayText(t: string) {
    (|t| == 1 || |t| == 2) && AllDigits(t) && 1 <= DigitsValue(t) <= 31
  }

  predicate AllSpace(t: string) {
    forall k :: 0 <= k < |t| ==> IsSpace(t[k])
  }

  /** A run of whitespace from `a` to `b` of `s` is a whitespace text. */
  lemma SpaceRunIsAllSpace(s: string, a: nat, b: nat)
    requires a <= b <= |s| && forall m :: a <= m < b ==> IsSpace(s[m])
    ensures AllSpace(s[a..b])
  {
    forall k | 0 <= k < b - a ensures IsSpace(s[a..b][k]) {
      assert s[a..b][k] == s[a + k];
    }
  }

  /** `s` is laid out as `'%B %d, %Y'` spelling `d`, where the day starts at `j`, the comma is at
      `c` and the year starts at `k`. Each space of the format stands for `\s+`, the month name
      may take any letter case, and the four-digit year ends the text. */
  predicate LaidOutAt(s: string, d: Date, j: nat, c: nat, k: nat) {
    1 <= d.month <= 12 && SpellsMonth(s, d.month - 1) && |MonthNames[d.month - 1]| < j < c &&
    c + 1 < k && k + 4 == |s| &&
    AllSpace(s[|MonthNames[d.month - 1]|..j]) &&
    IsDayText(s[j..c]) && DigitsValue(s[j..c]) == d.day && s[c] == ',' &&
    AllSpace(s[c + 1..k]) &&
    AllDigits(s[k..]) && DigitsValue(s[k..]) == d.year
  }

  /** `s` spells `d` in the format `'%B %d, %Y'`. */
  ghost predicate Spells(s: string, d: Date) {
    exists j, c, k :: LaidOutAt(s, d, j, c, k)
  }

  /** `datetime.strptime(s, '%B %d, %Y')`: `None` where it raises `ValueError`, either because
      the text does not match the format or because the date it spells does not exist. */
  function ParseLongDate(s: string): (r: Option<Date>)
    ensures r.Some? ==> ValidDate(r.value)
  {
    match MonthPrefix(s, 0)
    case None => None
    case Some(m) => ParseAfterMonth(s, m, |MonthNames[m]|)
  }

  /** The rest of `ParseLongDate` once the month `m + 1` has been read from `s[..n]`. */
  function ParseAfterMonth(s: string, m: nat, n: nat): (r: Option<Date>)
    requires n <= |s|
    ensures r.Some? ==> ValidDate(r.value) && r.value.month == m + 1
  {
    var j := SpaceRunEnd(s, n);
    var c := DigitRunEnd(s, j);
    if j == n || c == |s| || s[c] != ',' || !IsDayText(s[j..c]) then None
    else
      var k := SpaceRunEnd(s, c + 1);
      if k == c + 1 || k + 4 != |s| || !AllDigits(s[k..]) then None
      else
        var d := Date(DigitsValue(s[k..]), m + 1, DigitsValue(s[j..c]));
        if ValidDate(d) then Some(d) else None
  }

  /** A date the parser reads is spelled by the text, in the layout it found. */
  lemma ParseLongDateSound(s: string)
    ensures ParseLongDate(s).Some? ==> Spells(s, ParseLongDate(s).value)
  {
    if ParseLongDate(s).Some? {
      var m := MonthPrefix(s, 0).value;
      var n := |MonthNames[m]|;
      assert ParseLongDate(s) == ParseAfterMonth(s, m, n);
      var d := ParseLongDate(s).value;
      var j, c, k := ParseAfterMonthSound(s, m, n);
      assert LaidOutAt(s, d, j, c, k);
    }
  }

  /** Where the parser found the day, the comma and the year of the date it read. */
  lemma ParseAfterMonthSound(s: string, m: nat, n: nat) returns (j: nat, c: nat, k: nat)
    requires n <= |s| && ParseAfterMonth(s, m, n).Some?
    ensures var d := ParseAfterMonth(s, m, n).value;
      n < j < c && c + 1 < k && k + 4 == |s| && AllSpace(s[n..j]) &&
      IsDayText(s[j..c]) && DigitsValue(s[j..c]) == d.day && s[c] == ',' &&
      AllSpace(s[c + 1..k]) && AllDigits(s[k..]) && DigitsValue(s[k..]) == d.year
  {
    j := SpaceRunEnd(s, n);
    c := DigitRunEnd(s, j);
    k := SpaceRunEnd(s, c + 1);
    SpaceRunIsAllSpace(s, n, j);
    SpaceRunIsAllSpace(s, c + 1, k);
  }

  /** The parser finds the layout a text has. */
  lemma ParseLaidOut(s: string, d: Date, j: nat, c: nat, k: nat)
    requires LaidOutAt(s, d, j, c, k) && ValidDate(d)
    ensures ParseLongDate(s) == Some(d)
  {
    var m := MonthPrefix(s, 0).value;
    SpellsMonthUnique(s, m, d.month - 1);
    LaidOutRuns(s, d, j, c, k);
    assert d == Date(DigitsValue(s[k..]), m + 1, DigitsValue(s[j..c]));
    ParseLongDateFrom(s, m, j, c, k);
  }

  /** The parser's result once the month, the day, the comma and the year are where it looks. */
  lemma ParseLongDateFrom(s: string, m: nat, j: nat, c: nat, k: nat)
    requires MonthPrefix(s, 0) == Some(m) && m < 12
    requires SpaceRunEnd(s, |MonthNames[m]|) == j != |MonthNames[m]| && DigitRunEnd(s, j) == c < |s|
    requires s[c] == ',' && IsDayText(s[j..c])
    requires SpaceRunEnd(s, c + 1) == k != c + 1 && k + 4 == |s| && AllDigits(s[k..])
    requires ValidDate(Date(DigitsValue(s[k..]), m + 1, DigitsValue(s[j..c])))
    ensures ParseLongDate(s) == Some(Date(DigitsValue(s[k..]), m + 1, DigitsValue(s[j..c])))
  {
    var n := |MonthNames[m]|;
    assert ParseLongDate(s) == ParseAfterMonth(s, m, n);
    ParseAfterMonthFrom(s, m, n, j, c, k);
  }

  lemma ParseAfterMonthFrom(s: string, m: nat, n: nat, j: nat, c: nat, k: nat)
    requires n <= |s|
    requires SpaceRunEnd(s, n) == j != n && DigitRunEnd(s, j) == c < |s|
    requires s[c] == ',' && IsDayText(s[j..c])
    requires SpaceRunEnd(s, c + 1) == k != c + 1 && k + 4 == |s| && AllDigits(s[k..])
    requires ValidDate(Date(DigitsValue(s[k..]), m + 1, DigitsValue(s[j..c])))
    ensures ParseAfterMonth(s, m, n) == Some(Date(DigitsValue(s[k..]), m + 1, DigitsValue(s[j..c])))
  {
  }

  /** Where the runs of the layout end. */
  lemma LaidOutRuns(s: string, d: Date, j: nat, c: nat, k: nat)
    requires LaidOutAt(s, d, j, c, k)
    ensures SpaceRunEnd(s, |MonthNames[d.month - 1]|) == j && DigitRunEnd(s, j) == c && SpaceRunEnd(s, c + 1) == k
  {
    var n := |MonthNames[d.month - 1]|;
    assert s[j] == s[j..c][0];
    assert forall m :: n <= m < j ==> IsSpace(s[m]) by {
      forall m | n <= m < j ensures IsSpace(s[m]) {
        assert s[m] == s[n..j][m - n];
      }
    }
    SpaceRunEndAt(s, n, j);
    assert forall m :: j <= m < c ==> IsDigit(s[m]) by {
      forall m | j <= m < c ensures IsDigit(s[m]) {
        assert s[m] == s[j..c][m - j];
      }
    }
    DigitRunEndAt(s, j, c);
    assert s[k] == s[k..][0];
    assert forall m :: c + 1 <= m < k ==> IsSpace(s[m]) by {
      forall m | c + 1 <= m < k ensures IsSpace(s[m]) {
        assert s[m] == s[c + 1..k][m - c - 1];
      }
    }
    SpaceRunEndAt(s, c + 1, k);
  }

  /** Which texts `strptime` accepts, and the date it reads from each. */
  lemma ParseLongDateIff(s: string, d: Date)
    ensures ParseLongDate(s) == Some(d) <==> Spells(s, d) && ValidDate(d)
  {
    ParseLongDateSound(s);
    if Spells(s, d) && ValidDate(d) {
      var j, c, k := LayoutOf(s, d);
      ParseLaidOut(s, d, j, c, k);
    }
  }

  // ---------------------------------------------------------------------------------------------
  // Formatting `'%Y-%m-%d'`

  function DigitChar(n: int): char
    requires 0 <= n < 10
  {
    ('0' as int + n) as char
  }

  /** Two digits, zero-padded (`%m`, `%d`). */
  function Pad2(n: int): (r: string)
    requires 0 <= n < 100
    ensures |r| == 2 && AllDigits(r) && DigitsValue(r) == n
  {
    var r := [DigitChar(n / 10), DigitChar(n % 10)];
    TwoDigitsValue(r);
    r
  }

  lemma TwoDigitsValue(t: string)
    requires |t| == 2 && AllDigits(t)
    ensures DigitsValue(t) == (t[0] as int - '0' as int) * 10 + (t[1] as int - '0' as int)
  {
    assert t[..1][..0] == [];
    assert DigitsValue(t[..1]) == t[0] as int - '0' as int;
  }

  /** Four digits, zero-padded (`%Y`). */
  function Pad4(n: int): (r: string)
    requires 0 <= n < 10000
    ensures |r| == 4 && AllDigits(r) && DigitsValue(r) == n
  {
    var r := Pad2(n / 100) + Pad2(n % 100);
    DigitsValueAppend(Pad2(n / 100), Pad2(n % 100));
    r
  }

  /** The value of digits followed by two more digits. */
  lemma DigitsValueAppend(a: string, b: string)
    requires AllDigits(a) && |b| == 2 && AllDigits(b)
    ensures AllDigits(a + b) && DigitsValue(a + b) == DigitsValue(a) * 100 + DigitsValue(b)
  {
    var t := a + b;
    assert t[..|t| - 1] == a + [b[0]];
    assert (a + [b[0]])[..|a|] == a;
    TwoDigitsValue(b);
  }

  /** Two digits are the padding of their value. */
  lemma Pad2OfValue(t: string)
    requires |t| == 2 && AllDigits(t)
    ensures DigitsValue(t) < 100 && Pad2(DigitsValue(t)) == t
  {
    TwoDigitsValue(t);
  }

  /** Four digits are the padding of their value. */
  lemma Pad4OfValue(t: string)
    requires |t| == 4 && AllDigits(t)
    ensures DigitsValue(t) < 10000 && Pad4(DigitsValue(t)) == t
  {
    DigitsValueAppend(t[..2], t[2..]);
    assert t[..2] + t[2..] == t;
    Pad2OfValue(t[..2]);
    Pad2OfValue(t[2..]);
    var v := DigitsValue(t);
    assert v / 100 == DigitsValue(t[..2]) && v % 100 == DigitsValue(t[2..]);
  }

  /** `date.strftime('%Y-%m-%d')`, with the year padded to four digits. */
  function FormatIso(d: Date): (r: string)
    requires ValidDate(d)
    ensures |r| == 10 && r[4] == '-' && r[7] == '-'
  {
    Pad4(d.year) + "-" + Pad2(d.month) + "-" + Pad2(d.day)
  }

  /** Reads a `YYYY-MM-DD` text back: `date.fromisoformat` on its basic form. */
  function ParseIso(s: string): (r: Option<Date>)
    ensures r.Some? ==> ValidDate(r.value)
  {
    if |s| == 10 && s[4] == '-' && s[7] == '-' && AllDigits(s[..4]) && AllDigits(s[5..7]) && AllDigits(s[8..]) then
      var d := Date(DigitsValue(s[..4]), DigitsValue(s[5..7]), DigitsValue(s[8..]));
      if ValidDate(d) then Some(d) else None
    else None
  }

  /** Formatting loses nothing: the text reads back as the date. */
  lemma IsoRoundTrip(d: Date)
    requires ValidDate(d)
    ensures ParseIso(FormatIso(d)) == Some(d)
  {
    var s := FormatIso(d);
    assert s[..4] == Pad4(d.year);
    assert s[5..7] == Pad2(d.month);
    assert s[8..] == Pad2(d.day);
  }

  /** Every text that reads as a date is that date's formatting: the format is canonical. */
  lemma IsoCanonical(s: string, d: Date)
    requires ParseIso(s) == Some(d)
    ensures FormatIso(d) == s
  {
    Pad4OfValue(s[..4]);
    Pad2OfValue(s[5..7]);
    Pad2OfValue(s[8..]);
    assert s == s[..4] + "-" + s[5..7] + "-" + s[8..];
  }

  /** A text spells at most one date. */
  lemma SpellsUnique(s: string, d1: Date, d2: Date)
    requires Spells(s, d1) && Spells(s, d2)
    ensures d1 == d2
  {
    var j1, c1, k1 := LayoutOf(s, d1);
    var j2, c2, k2 := LayoutOf(s, d2);
    LaidOutUnique(s, d1, j1, c1, k1, d2, j2, c2, k2);
  }

  /** Where the day, the comma and the year of a text in the format are. */
  lemma LayoutOf(s: string, d: Date) returns (j: nat, c: nat, k: nat)
    requires Spells(s, d)
    ensures LaidOutAt(s, d, j, c, k)
  {
    j, c, k :| LaidOutAt(s, d, j, c, k);
  }

  lemma LaidOutUnique(s: string, d1: Date, j1: nat, c1: nat, k1: nat, d2: Date, j2: nat, c2: nat, k2: nat)
    requires LaidOutAt(s, d1, j1, c1, k1) && LaidOutAt(s, d2, j2, c2, k2)
    ensures d1 == d2
  {
    SpellsMonthUnique(s, d1.month - 1, d2.month - 1);
    LaidOutRuns(s, d1, j1, c1, k1);
    LaidOutRuns(s, d2, j2, c2, k2);
    assert j1 == j2 && c1 == c2 && k1 == k2;
    assert d1.day == DigitsValue(s[j1..c1]) == d2.day;
    assert d1.year == DigitsValue(s[k1..]) == d2.year;
  }

  /** A text in the format that names a day the month does not have (`February 30, 2023`), or
      year 0000, makes `strptime` raise `ValueError`. */
  lemma ImpossibleDateRejected(s: string, d: Date)
    requires Spells(s, d) && !ValidDate(d)
    ensures ParseLongDate(s) == None
  {
    if ParseLongDate(s).Some? {
      ParseLongDateSound(s);
      SpellsUnique(s, d, ParseLongDate(s).value);
    }
  }

  /** `date.strftime('%B %d, %Y')`, the layout the parsed format describes. */
  function LongDate(d: Date): (r: string)
    requires ValidDate(d)
  {
    MonthNames[d.month - 1] + " " + Pad2(d.day) + ", " + Pad4(d.year)
  }

  /** Every valid date written as `'%B %d, %Y'` parses back to itself. */
  lemma LongDateRoundTrip(d: Date)
    requires ValidDate(d)
    ensures ParseLongDate(LongDate(d)) == Some(d)
  {
    var s := LongDate(d);
    var n := |MonthNames[d.month - 1]|;
    assert s[..n] == MonthNames[d.month - 1];
    assert s[n..n + 1] == " ";
    assert s[n + 1..n + 3] == Pad2(d.day);
    assert s[n + 3] == ',';
    assert s[n + 4..n + 5] == " ";
    assert s[n + 5..] == Pad4(d.year);
    assert LaidOutAt(s, d, n + 1, n + 3, n + 5);
    ParseLaidOut(s, d, n + 1, n + 3, n + 5);
  }

  // ---------------------------------------------------------------------------------------------
  // Comparing with the cutoff

  /** The fields `datetime` compares, most significant first. */
  function Fields(t: DateTime): seq<int> {
    [t.date.year, t.date.month, t.date.day, t.hour, t.minute, t.second, t.microsecond]
  }

  /** Python's `a >= b` on tuples of the same length. */
  predicate TupleAtLeast(a: seq<int>, b: seq<int>)
    requires |a| == |b|
  {
    |a| == 0 || a[0] > b[0] || (a[0] == b[0] && TupleAtLeast(a[1..], b[1..]))
  }

  /** `a >= b` on naive datetimes. */
  predicate AtOrAfter(a: DateTime, b: DateTime) {
    TupleAtLeast(Fields(a), Fields(b))
  }

  /** The `datetime` `strptime` returns for a date: its midnight. */
  function Midnight(d: Date): (t: DateTime)
    ensures ValidTime(t) && t.date == d
  {
    DateTime(d, 0, 0, 0, 0)
  }

  predicate IsMidnight(t: DateTime) {
    t.hour == 0 && t.minute == 0 && t.second == 0 && t.microsecond == 0
  }

  /** Day `a` comes before day `b`. */
  predicate DateBefore(a: Date, b: Date) {
    a.year < b.year || (a.year == b.year && (a.month < b.month || (a.month == b.month && a.day < b.day)))
  }

  /** A date passes the cutoff when it is a later day, or the cutoff's own day and the cutoff is
      exactly midnight: an article from the cutoff's calendar day is dropped otherwise. */
  lemma {:induction false} MidnightAtOrAfter(d: Date, cutoff: DateTime)
    requires ValidTime(cutoff)
    ensures AtOrAfter(Midnight(d), cutoff) <==> DateBefore(cutoff.date, d) || (d == cutoff.date && IsMidnight(cutoff))
  {
    var a := Fields(Midnight(d));
    var b := Fields(cutoff);
    TupleStep(a, b, 0);
    TupleStep(a, b, 1);
    TupleStep(a, b, 2);
    TupleStep(a, b, 3);
    TupleStep(a, b, 4);
    TupleStep(a, b, 5);
    TupleStep(a, b, 6);
    assert a[7..] == [];
    assert a[..] == a[0..];
  }

  /** Comparing tuples from position `k` on. */
  lemma TupleStep(a: seq<int>, b: seq<int>, k: nat)
    requires |a| == |b| && k < |a|
    ensures TupleAtLeast(a[k..], b[k..]) <==> a[k] > b[k] || (a[k] == b[k] && TupleAtLeast(a[k + 1..], b[k + 1..]))
  {
    assert a[k..][1..] == a[k + 1..];
    assert b[k..][1..] == b[k + 1..];
  }
}
