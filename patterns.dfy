/** The three fixed regular expressions of `extract_deal_info` (scrape_gp_stake_news.py), each as
    a hand-written scanner with the semantics of Python's `re`. Every pattern is given twice: as a
    declarative description of the text a match covers (`IsMatch`), and as a scanner (`MatchAt`)
    proved to return the longest match at a position. That this is the match Python's backtracking
    picks, for these three patterns, is argued in the comments beside each scanner, not proved. `FindAllFrom` and `SearchFrom` are `re.findall` and `re.search`. */
module Patterns {
  import opened Wrappers
  import opened Strings
  import opened Dates

  datatype Pattern =
    | DealTerm         // \$(\d+\.?\d*\s(?:million|billion|M|B))  with re.IGNORECASE
    | TransactionDate  // \b(?:on|in)\s((?:January|...|December)\s\d{1,2},\s\d{4})
    | Party            // \b(?:acquired|invested in|sold to)\s([A-Za-z0-9\s,&-]+(?:Inc|Corp|LLC|Ltd|Group|Holdings))

  /** One match: `[start, end)` is the whole match and `[group, end)` its group 1. */
  datatype Span = Span(start: nat, group: nat, end: nat)

  const Verbs: seq<string> := ["acquired", "invested in", "sold to"]
  const Suffixes: seq<string> := ["Inc", "Corp", "LLC", "Ltd", "Group", "Holdings"]

  // ---------------------------------------------------------------------------------------------
  // The languages

  /** `\d+\.?\d*`: a digit, then digits with at most one dot. */
  predicate IsAmount(t: string) {
    |t| > 0 && IsDigit(t[0]) && (forall k :: 0 <= k < |t| ==> IsDigit(t[k]) || t[k] == '.') &&
    (forall k, l :: 0 <= k < l < |t| && t[k] == '.' ==> t[l] != '.')
  }

  /** `(?:million|billion|M|B)` under `re.IGNORECASE`. */
  predicate IsUnit(u: string) {
    Lower(u) in ["million", "billion", "m", "b"]
  }

  /** Group 1 of a deal term from `g` to `end` of `s`: the amount, the whitespace character at
      `w`, the unit. */
  predicate DealLaidOut(s: string, g: nat, w: nat, end: nat) {
    g < w < end <= |s| && IsAmount(s[g..w]) && IsSpace(s[w]) && IsUnit(s[w + 1..end])
  }

  /** A deal-term match: `$`, then group 1 = amount, one whitespace character, unit. */
  ghost predicate IsDealMatch(s: string, sp: Span) {
    sp.start < |s| && sp.end <= |s| && s[sp.start] == '$' && sp.group == sp.start + 1 &&
    exists w :: DealLaidOut(s, sp.group, w, sp.end)
  }

  /** `\d{1,2},\s\d{4}` */
  predicate IsDayAndYear(t: string) {
    (|t| == 7 || |t| == 8) && IsDigit(t[0]) && IsDigit(t[|t| - 7]) && t[|t| - 6] == ',' &&
    IsSpace(t[|t| - 5]) && IsDigit(t[|t| - 4]) && IsDigit(t[|t| - 3]) && IsDigit(t[|t| - 2]) && IsDigit(t[|t| - 1])
  }

  /** One of the English month names, capitalised. */
  predicate IsMonthName(x: string) {
    exists m :: 0 <= m < |MonthNames| && MonthNames[m] == x
  }

  /** `(?:January|...|December)\s\d{1,2},\s\d{4}` (month names case-sensitive) from `q` to
      `end` of `s`, the month name ending at `k`. */
  predicate DateLaidOut(s: string, q: nat, k: nat, end: nat) {
    q < k < end <= |s| && IsMonthName(s[q..k]) && IsSpace(s[k]) && IsDayAndYear(s[k + 1..end])
  }

  /** `on` or `in` starting at `i`. */
  predicate OnOrInAt(s: string, i: nat) {
    i + 2 <= |s| && (s[i] == 'o' || s[i] == 'i') && s[i + 1] == 'n'
  }

  /** A transaction-date match: a word boundary, `on` or `in`, one whitespace character, then
      group 1 = the date. */
  ghost predicate IsDateMatch(s: string, sp: Span) {
    sp.start + 3 == sp.group <= sp.end <= |s| && AtWordBoundary(s, sp.start) &&
    OnOrInAt(s, sp.start) && IsSpace(s[sp.start + 2]) &&
    exists k :: DateLaidOut(s, sp.group, k, sp.end)
  }

  /** `[A-Za-z0-9\s,&-]` */
  predicate InNameClass(c: char) {
    IsAsciiLetter(c) || IsDigit(c) || IsSpace(c) || c == ',' || c == '&' || c == '-'
  }

  /** `[A-Za-z0-9\s,&-]+(?:Inc|Corp|LLC|Ltd|Group|Holdings)` */
  ghost predicate IsPartyGroup(g: string) {
    exists e :: 0 < e < |g| && (forall k :: 0 <= k < e ==> InNameClass(g[k])) && g[e..] in Suffixes
  }

  /** A party match: a word boundary, a verb, one whitespace character, then group 1 = the name. */
  ghost predicate IsPartyMatch(s: string, sp: Span) {
    sp.start < sp.group <= sp.end <= |s| && AtWordBoundary(s, sp.start) &&
    s[sp.start..sp.group - 1] in Verbs && IsSpace(s[sp.group - 1]) && IsPartyGroup(s[sp.group..sp.end])
  }

  ghost predicate IsMatch(p: Pattern, s: string, sp: Span) {
    match p
    case DealTerm => IsDealMatch(s, sp)
    case TransactionDate => IsDateMatch(s, sp)
    case Party => IsPartyMatch(s, sp)
  }

  // ---------------------------------------------------------------------------------------------
  // Scanning helpers

  /** Where `\d+\.?\d*` starting at `k` can end before a non-amount character; `k` if no digit. */
  function AmountEnd(s: string, k: nat): nat
    requires k <= |s|
  {
    var d := DigitRunEnd(s, k);
    if d == k then k
    else if d < |s| && s[d] == '.' then DigitRunEnd(s, d + 1)
    else d
  }

  /** The length of the unit at `k`, trying the alternatives in the pattern's order; 0 if none. */
  function UnitLength(s: string, k: nat): nat
    requires k <= |s|
  {
    if k + 7 <= |s| && Lower(s[k..k + 7]) in ["million", "billion"] then 7
    else if k < |s| && Lower(s[k..k + 1]) in ["m", "b"] then 1
    else 0
  }

  /** The index of the first of `alts[m..]` that occurs in `s` at `k`, as an alternation tries them. */
  function FirstAlternative(alts: seq<string>, s: string, k: int, m: nat): (r: Option<nat>)
    requires m <= |alts|
    ensures r.Some? ==> m <= r.value < |alts| && OccursAt(alts[r.value], s, k)
    ensures r.None? ==> forall j :: m <= j < |alts| ==> !OccursAt(alts[j], s, k)
    decreases |alts| - m
  {
    if m == |alts| then None
    else if OccursAt(alts[m], s, k) then Some(m)
    else FirstAlternative(alts, s, k, m + 1)
  }

  // ---------------------------------------------------------------------------------------------
  // Deal terms

  function MatchDealAt(s: string, i: nat): (r: Option<Span>)
    ensures r.Some? ==> i < |s| && s[i] == '$' && r.value.start == i && r.value.group == i + 1 < r.value.end <= |s|
  {
    if i < |s| && s[i] == '$' then
      var w := AmountEnd(s, i + 1);
      if i + 1 < w < |s| && IsSpace(s[w]) && UnitLength(s, w + 1) > 0 then
        Some(Span(i, i + 1, w + 1 + UnitLength(s, w + 1)))
      else None
    else None
  }

  /** The amount the scanner finds is an amount. */
  lemma AmountEndIsAmount(s: string, k: nat)
    requires k <= |s| && k < AmountEnd(s, k)
    ensures AmountEnd(s, k) <= |s| && IsAmount(s[k..AmountEnd(s, k)])
  {
    var d := DigitRunEnd(s, k);
    var w := AmountEnd(s, k);
    var t := s[k..w];
    forall m | 0 <= m < |t| ensures IsDigit(t[m]) || (t[m] == '.' && k + m == d) {
      assert t[m] == s[k + m];
    }
  }

  /** An amount followed by whitespace can only end where the scanner says. */
  lemma AmountEndUnique(s: string, k: nat, w: nat)
    requires k < w < |s| && IsAmount(s[k..w]) && IsSpace(s[w])
    ensures w == AmountEnd(s, k)
  {
    var t := s[k..w];
    var d := DigitRunEnd(s, k);
    assert t[0] == s[k];
    if w > d {
      assert s[d] == t[d - k];
      var d2 := DigitRunEnd(s, d + 1);
      forall m | d + 1 <= m < w ensures IsDigit(s[m]) {
        assert s[m] == t[m - k] && t[d - k] == '.';
      }
    }
  }

  lemma UnitLengthLongest(s: string, k: nat, j: nat)
    requires k <= j <= |s| && IsUnit(s[k..j])
    ensures 0 < UnitLength(s, k) && j <= k + UnitLength(s, k)
  {
    assert |Lower(s[k..j])| == j - k;
  }

  /** Every deal-term match at `i` is found by the scanner, and ends no later than its result. */
  lemma DealScanComplete(s: string, i: nat, sp: Span)
    requires sp.start == i && IsDealMatch(s, sp)
    ensures MatchDealAt(s, i).Some? && sp.group == MatchDealAt(s, i).value.group
    ensures sp.end <= MatchDealAt(s, i).value.end
  {
    var w: nat :| DealLaidOut(s, sp.group, w, sp.end);
    DealScanAt(s, i, w, sp.end);
  }

  /** The scanner's result at a `$` followed by an amount, the whitespace at `w` and a unit
      ending at `end`: the same group, and a unit at least as long. */
  lemma DealScanAt(s: string, i: nat, w: nat, end: nat)
    requires i < |s| && s[i] == '$' && DealLaidOut(s, i + 1, w, end)
    ensures MatchDealAt(s, i) == Some(Span(i, i + 1, w + 1 + UnitLength(s, w + 1)))
    ensures end <= w + 1 + UnitLength(s, w + 1)
  {
    AmountEndUnique(s, i + 1, w);
    UnitLengthLongest(s, w + 1, end);
  }

  /** What the scanner finds is a deal-term match. */
  lemma DealScanSound(s: string, i: nat)
    requires MatchDealAt(s, i).Some?
    ensures var sp := MatchDealAt(s, i).value;
            sp.start == i < sp.group < sp.end <= |s| && IsDealMatch(s, sp)
  {
    var w := AmountEnd(s, i + 1);
    AmountEndIsAmount(s, i + 1);
    var n := UnitLength(s, w + 1);
    assert |Lower(s[w + 1..w + 1 + n])| == n;
    assert IsUnit(s[w + 1..w + 1 + n]);
    assert DealLaidOut(s, i + 1, w, w + 1 + n);
  }

  // ---------------------------------------------------------------------------------------------
  // Transaction dates

  /** The length of `\d{1,2},\s\d{4}` at `k`, trying two day digits first; 0 if none. */
  function DayAndYearLength(s: string, k: nat): nat
    requires k <= |s|
  {
    if k + 8 <= |s| && IsDayAndYear(s[k..k + 8]) then 8
    else if k + 7 <= |s| && IsDayAndYear(s[k..k + 7]) then 7
    else 0
  }

  function MatchDateAt(s: string, i: nat): (r: Option<Span>)
    ensures r.Some? ==> i + 3 <= |s| && AtWordBoundary(s, i) && OnOrInAt(s, i) && IsSpace(s[i + 2])
    ensures r.Some? ==> r.value.start == i && r.value.group == i + 3
  {
    if i + 3 <= |s| && AtWordBoundary(s, i) && OnOrInAt(s, i) && IsSpace(s[i + 2]) then
      match MonthNameEnd(s, i + 3)
      case None => None
      case Some(k) => DateMatchFrom(s, i, k)
    else None
  }

  /** Where the month-name alternation starting at `q` ends, if one of the names is there. */
  function MonthNameEnd(s: string, q: nat): (r: Option<nat>)
    ensures r.Some? ==> q < r.value <= |s| && IsMonthName(s[q..r.value])
  {
    match FirstAlternative(MonthNames, s, q, 0)
    case None => None
    case Some(m) => Some(q + |MonthNames[m]|)
  }

  /** The match of `on `/`in ` at `i` once the month name has been read up to `k`. */
  function DateMatchFrom(s: string, i: nat, k: nat): Option<Span> {
    match DateTailEnd(s, k)
    case None => None
    case Some(end) => Some(Span(i, i + 3, end))
  }

  /** Where `\s\d{1,2},\s\d{4}` starting at `k` ends. */
  function DateTailEnd(s: string, k: nat): Option<nat> {
    if k < |s| && IsSpace(s[k]) && DayAndYearLength(s, k + 1) > 0 then Some(k + 1 + DayAndYearLength(s, k + 1))
    else None
  }

  /** No month name is a prefix of another (their first three letters differ). */
  lemma MonthNamesPrefixFree(s: string, k: int, a: nat, b: nat)
    requires a < |MonthNames| && b < |MonthNames|
    requires OccursAt(MonthNames[a], s, k) && OccursAt(MonthNames[b], s, k)
    ensures a == b
  {
    assert s[k] == MonthNames[a][0] == MonthNames[b][0];
    assert s[k + 1] == MonthNames[a][1] == MonthNames[b][1];
    assert s[k + 2] == MonthNames[a][2] == MonthNames[b][2];
  }

  /** A day-and-year text at `k` has exactly the length the scanner finds. */
  lemma DayAndYearUnique(s: string, k: nat, j: nat)
    requires k <= j <= |s| && IsDayAndYear(s[k..j])
    ensures j == k + DayAndYearLength(s, k)
  {
    var t := s[k..j];
    if j == k + 7 {
      assert t[1] == s[k + 1] == ',';
    }
  }

  /** A month name at `q` is the one the alternation picks. */
  lemma MonthNameUnique(s: string, q: nat, k: nat)
    requires q <= k <= |s| && IsMonthName(s[q..k])
    ensures MonthNameEnd(s, q) == Some(k)
  {
    var mi :| 0 <= mi < |MonthNames| && MonthNames[mi] == s[q..k];
    assert OccursAt(MonthNames[mi], s, q);
    MonthNamesPrefixFree(s, q, FirstAlternative(MonthNames, s, q, 0).value, mi);
  }

  /** The scanner's result when the date text after `on `/`in ` is laid out piece by piece: the
      month name from `g` to `k`, the whitespace at `k`, the day and year from `k + 1` to `end`. */
  lemma DateScanAt(s: string, i: nat, g: nat, k: nat, end: nat)
    requires g == i + 3 && DateLaidOut(s, g, k, end) && AtWordBoundary(s, i) && OnOrInAt(s, i) && IsSpace(s[i + 2])
    ensures MatchDateAt(s, i) == Some(Span(i, g, end))
  {
    MonthNameUnique(s, g, k);
    DateTailEndAt(s, k, end);
  }

  /** Where the scanner finds the end of `\s\d{1,2},\s\d{4}` laid out from `k` to `end`. */
  lemma DateTailEndAt(s: string, k: nat, end: nat)
    requires k < end <= |s| && IsSpace(s[k]) && IsDayAndYear(s[k + 1..end])
    ensures DateTailEnd(s, k) == Some(end)
  {
    DayAndYearUnique(s, k + 1, end);
  }

  /** Every transaction-date match at `i` is the one the scanner finds. */
  lemma DateScanComplete(s: string, i: nat, sp: Span)
    requires sp.start == i && IsDateMatch(s, sp)
    ensures MatchDateAt(s, i).Some? && sp.group == MatchDateAt(s, i).value.group
    ensures sp.end <= MatchDateAt(s, i).value.end
  {
    var k: nat :| DateLaidOut(s, sp.group, k, sp.end);
    DateScanAt(s, sp.start, sp.group, k, sp.end);
  }

  /** What the scanner finds is a transaction-date match. */
  lemma DateScanSound(s: string, i: nat)
    requires MatchDateAt(s, i).Some?
    ensures var sp := MatchDateAt(s, i).value;
            sp.start == i < sp.group < sp.end <= |s| && IsDateMatch(s, sp)
  {
    var g := i + 3;
    var k := MonthNameEnd(s, g).value;
    var end := DateTailEnd(s, k).value;
    DateTailParts(s, k);
    assert DateLaidOut(s, g, k, end);
  }

  /** What the scanner finds after the month name is `\s\d{1,2},\s\d{4}`. */
  lemma DateTailParts(s: string, k: nat)
    requires DateTailEnd(s, k).Some?
    ensures var end := DateTailEnd(s, k).value;
            k < end <= |s| && IsSpace(s[k]) && IsDayAndYear(s[k + 1..end])
  {
  }

  // ---------------------------------------------------------------------------------------------
  // Parties

  /** End of the run of `[A-Za-z0-9\s,&-]` characters that starts at `k`. */
  function NameRunEnd(s: string, k: nat): (e: nat)
    requires k <= |s|
    ensures k <= e <= |s| && (forall m :: k <= m < e ==> InNameClass(s[m])) && (e < |s| ==> !InNameClass(s[e]))
    decreases |s| - k
  {
    if k < |s| && InNameClass(s[k]) then NameRunEnd(s, k + 1) else k
  }

  /** The greedy `[...]+` giving characters back until a suffix follows: the largest position in
      `(lo, hi]` at which a suffix occurs. */
  function LastSuffixStart(s: string, lo: nat, hi: nat): (r: Option<nat>)
    ensures r.Some? ==> lo < r.value <= hi && FirstAlternative(Suffixes, s, r.value, 0).Some?
    ensures r.Some? ==> forall y :: r.value < y <= hi ==> FirstAlternative(Suffixes, s, y, 0).None?
    ensures r.None? ==> forall y :: lo < y <= hi ==> FirstAlternative(Suffixes, s, y, 0).None?
    decreases hi
  {
    if hi <= lo then None
    else if FirstAlternative(Suffixes, s, hi, 0).Some? then Some(hi)
    else LastSuffixStart(s, lo, hi - 1)
  }

  /** Where the name group starting at `g` ends: the greedy run, then the suffix it gives back to. */
  function NameEnd(s: string, g: nat): Option<nat>
    requires g <= |s|
  {
    match LastSuffixStart(s, g, NameRunEnd(s, g))
    case None => None
    case Some(x) => Some(x + |Suffixes[FirstAlternative(Suffixes, s, x, 0).value]|)
  }

  function MatchPartyAt(s: string, i: nat): (r: Option<Span>)
    ensures r.Some? ==> i <= |s| && AtWordBoundary(s, i) && r.value.start == i < r.value.group <= |s|
    ensures r.Some? ==> IsSpace(s[r.value.group - 1])
  {
    if i <= |s| && AtWordBoundary(s, i) then
      match FirstAlternative(Verbs, s, i, 0)
      case None => None
      case Some(v) =>
        var g := i + |Verbs[v]| + 1;
        if g <= |s| && IsSpace(s[g - 1]) then
          match NameEnd(s, g)
          case None => None
          case Some(end) => Some(Span(i, g, end))
        else None
    else None
  }

  /** The verbs start with different letters. */
  lemma VerbsPrefixFree(s: string, k: int, a: nat, b: nat)
    requires a < |Verbs| && b < |Verbs|
    requires OccursAt(Verbs[a], s, k) && OccursAt(Verbs[b], s, k)
    ensures a == b
  {
    assert s[k] == Verbs[a][0] == Verbs[b][0];
  }

  /** Of two suffixes in `s`, the one starting later never ends earlier, and two starting at the
      same place are the same (the only overlap possible is "LLC" running into "Corp"). */
  lemma SuffixesOverlap(s: string, x: int, a: nat, y: int, b: nat)
    requires a < |Suffixes| && b < |Suffixes| && x <= y
    requires OccursAt(Suffixes[a], s, x) && OccursAt(Suffixes[b], s, y)
    ensures x + |Suffixes[a]| <= y + |Suffixes[b]|
    ensures x == y ==> a == b
  {
    if y < x + |Suffixes[a]| {
      assert s[y] == Suffixes[a][y - x] == Suffixes[b][0];
      if x == y {
        assert s[x + 1] == Suffixes[a][1] == Suffixes[b][1];
      } else if y == x + 1 {
        assert s[y + 1] == Suffixes[a][2] == Suffixes[b][1];
      }
    }
  }

  /** Suffixes are made of letters, so they belong to the name class. */
  lemma SuffixInNameClass(s: string, x: int, a: nat)
    requires a < |Suffixes| && OccursAt(Suffixes[a], s, x)
    ensures forall m :: x <= m < x + |Suffixes[a]| ==> InNameClass(s[m])
  {
    forall m | x <= m < x + |Suffixes[a]| ensures InNameClass(s[m]) {
      assert s[m] == Suffixes[a][m - x];
    }
  }

  /** Where the suffix of a party group begins. */
  lemma PartyGroupParts(g: string) returns (e: nat)
    requires IsPartyGroup(g)
    ensures 0 < e < |g| && (forall k :: 0 <= k < e ==> InNameClass(g[k])) && g[e..] in Suffixes
  {
    e :| 0 < e < |g| && (forall k :: 0 <= k < e ==> InNameClass(g[k])) && g[e..] in Suffixes;
  }

  /** Every party match whose name starts at `g` ends no later than the scanner's name end. */
  lemma NameEndLongest(s: string, g: nat, end: nat)
    requires g <= end <= |s| && IsPartyGroup(s[g..end])
    ensures NameEnd(s, g).Some? && end <= NameEnd(s, g).value
  {
    var grp := s[g..end];
    var e := PartyGroupParts(grp);
    var x' := g + e;
    var a :| 0 <= a < |Suffixes| && Suffixes[a] == grp[e..];
    assert s[x'..end] == grp[e..];
    assert OccursAt(Suffixes[a], s, x');
    SuffixInNameClass(s, x', a);
    forall m | g <= m < x' ensures InNameClass(s[m]) {
      assert s[m] == grp[m - g];
    }
    var E := NameRunEnd(s, g);
    assert end <= E;
    assert FirstAlternative(Suffixes, s, x', 0).Some?;
    assert g < x' <= E;
    var x := LastSuffixStart(s, g, E).value;
    var b := FirstAlternative(Suffixes, s, x, 0).value;
    SuffixesOverlap(s, x', a, x, b);
  }

  /** The name the scanner finds is a party group. */
  lemma NameEndSound(s: string, g: nat)
    requires g <= |s| && NameEnd(s, g).Some?
    ensures g < NameEnd(s, g).value <= |s| && IsPartyGroup(s[g..NameEnd(s, g).value])
  {
    var E := NameRunEnd(s, g);
    var x := LastSuffixStart(s, g, E).value;
    var b := FirstAlternative(Suffixes, s, x, 0).value;
    var end := x + |Suffixes[b]|;
    var grp := s[g..end];
    assert grp[x - g..] == Suffixes[b];
    forall k | 0 <= k < x - g ensures InNameClass(grp[k]) {
      assert grp[k] == s[g + k];
    }
  }

  /** Every party match at `i` is found by the scanner, and ends no later than its result. */
  lemma PartyScanComplete(s: string, i: nat, sp: Span)
    requires sp.start == i && IsPartyMatch(s, sp)
    ensures MatchPartyAt(s, i).Some? && sp.group == MatchPartyAt(s, i).value.group
    ensures sp.end <= MatchPartyAt(s, i).value.end
  {
    var vi :| 0 <= vi < |Verbs| && Verbs[vi] == s[i..sp.group - 1];
    assert OccursAt(Verbs[vi], s, i);
    VerbsPrefixFree(s, i, FirstAlternative(Verbs, s, i, 0).value, vi);
    NameEndLongest(s, sp.group, sp.end);
  }

  /** What the scanner finds is a party match. */
  lemma PartyScanSound(s: string, i: nat)
    requires MatchPartyAt(s, i).Some?
    ensures var sp := MatchPartyAt(s, i).value;
            sp.start == i < sp.group < sp.end <= |s| && IsPartyMatch(s, sp)
  {
    var v := FirstAlternative(Verbs, s, i, 0).value;
    var g := i + |Verbs[v]| + 1;
    NameEndSound(s, g);
    assert s[i..g - 1] == Verbs[v];
  }

  // ---------------------------------------------------------------------------------------------
  // Matching at a position, findall and search

  lemma DealScanCorrect(s: string, i: nat)
    ensures var r := MatchDealAt(s, i);
            && (r.Some? ==> r.value.start == i < r.value.group < r.value.end <= |s| && IsDealMatch(s, r.value))
            && (r.Some? ==> forall sp: Span :: sp.start == i && IsDealMatch(s, sp) ==> sp.group == r.value.group && sp.end <= r.value.end)
            && (r.None? ==> forall sp: Span :: sp.start == i ==> !IsDealMatch(s, sp))
  {
    if MatchDealAt(s, i).Some? {
      DealScanSound(s, i);
    }
    forall sp: Span | sp.start == i && IsDealMatch(s, sp)
      ensures MatchDealAt(s, i).Some? && sp.group == MatchDealAt(s, i).value.group && sp.end <= MatchDealAt(s, i).value.end
    {
      DealScanComplete(s, i, sp);
    }
  }

  lemma DateScanCorrect(s: string, i: nat)
    ensures var r := MatchDateAt(s, i);
            && (r.Some? ==> r.value.start == i < r.value.group < r.value.end <= |s| && IsDateMatch(s, r.value))
            && (r.Some? ==> forall sp: Span :: sp.start == i && IsDateMatch(s, sp) ==> sp.group == r.value.group && sp.end <= r.value.end)
            && (r.None? ==> forall sp: Span :: sp.start == i ==> !IsDateMatch(s, sp))
  {
    if MatchDateAt(s, i).Some? {
      DateScanSound(s, i);
    }
    forall sp: Span | sp.start == i && IsDateMatch(s, sp)
      ensures MatchDateAt(s, i).Some? && sp.group == MatchDateAt(s, i).value.group && sp.end <= MatchDateAt(s, i).value.end
    {
      DateScanComplete(s, i, sp);
    }
  }

  lemma PartyScanCorrect(s: string, i: nat)
    ensures var r := MatchPartyAt(s, i);
            && (r.Some? ==> r.value.start == i < r.value.group < r.value.end <= |s| && IsPartyMatch(s, r.value))
            && (r.Some? ==> forall sp: Span :: sp.start == i && IsPartyMatch(s, sp) ==> sp.group == r.value.group && sp.end <= r.value.end)
            && (r.None? ==> forall sp: Span :: sp.start == i ==> !IsPartyMatch(s, sp))
  {
    if MatchPartyAt(s, i).Some? {
      PartyScanSound(s, i);
    }
    forall sp: Span | sp.start == i && IsPartyMatch(s, sp)
      ensures MatchPartyAt(s, i).Some? && sp.group == MatchPartyAt(s, i).value.group && sp.end <= MatchPartyAt(s, i).value.end
    {
      PartyScanComplete(s, i, sp);
    }
  }

  /** The match `re` finds when it tries pattern `p` at position `i` of `s`: the longest match
      that starts there, or none. That backtracking reaches this match first, for these three
      patterns, is argued beside each scanner. */
  function MatchAt(p: Pattern, s: string, i: nat): Option<Span> {
    Scanner(p)(s, i)
  }

  /** The scanner of each pattern. */
  function Scanner(p: Pattern): (string, nat) -> Option<Span> {
    match p
    case DealTerm => MatchDealAt
    case TransactionDate => MatchDateAt
    case Party => MatchPartyAt
  }

  /** The scanners against the patterns: a match found is a match of the pattern, no other match
      at the same position has another group or ends later, and none is missed. */
  lemma MatchAtCorrect(p: Pattern, s: string, i: nat)
    ensures var r := MatchAt(p, s, i);
            && (r.Some? ==> r.value.start == i < r.value.group < r.value.end <= |s| && IsMatch(p, s, r.value))
            && (r.Some? ==> forall sp: Span :: sp.start == i && IsMatch(p, s, sp) ==> sp.group == r.value.group && sp.end <= r.value.end)
            && (r.None? ==> forall sp: Span :: sp.start == i ==> !IsMatch(p, s, sp))
  {
    match p
    case DealTerm => DealScanCorrect(s, i);
    case TransactionDate => DateScanCorrect(s, i);
    case Party => PartyScanCorrect(s, i);
  }

  /** Where a match found at `i` lies. */
  lemma MatchAtBounds(p: Pattern, s: string, i: nat)
    ensures MatchAt(p, s, i).Some? ==>
            var sp := MatchAt(p, s, i).value; sp.start == i < sp.group < sp.end <= |s|
  {
    MatchAtCorrect(p, s, i);
  }

  /** A match that runs to the end of the text is the match found at its start. */
  lemma MatchReachingEnd(p: Pattern, s: string, sp: Span)
    requires IsMatch(p, s, sp) && sp.end == |s|
    ensures MatchAt(p, s, sp.start) == Some(sp)
  {
    MatchAtCorrect(p, s, sp.start);
    var r := MatchAt(p, s, sp.start);
    assert r.Some?;
    assert r.value.group == sp.group && r.value.end == sp.end;
  }

  /** `r` is what a left-to-right scan from `pos` finds: matches, in text order, not overlapping,
      and no match starts at a position they leave uncovered. */
  ghost predicate FindsAll(p: Pattern, s: string, pos: nat, r: seq<Span>) {
    AllFound(p, s, pos, r) && InTextOrder(r) && Covers(p, s, pos, r)
  }

  /** Each span of `r` is the match the scanner finds where it starts, at or after `pos`. */
  ghost predicate AllFound(p: Pattern, s: string, pos: nat, r: seq<Span>) {
    forall k :: 0 <= k < |r| ==> pos <= r[k].start < r[k].group < r[k].end <= |s| && MatchAt(p, s, r[k].start) == Some(r[k])
  }

  /** The spans of `r` follow each other without overlapping. */
  ghost predicate InTextOrder(r: seq<Span>) {
    forall k :: 0 <= k < |r| - 1 ==> r[k].end <= r[k + 1].start
  }

  /** Every position from `pos` on where a match starts lies inside some span of `r`. */
  ghost predicate Covers(p: Pattern, s: string, pos: nat, r: seq<Span>) {
    forall i :: pos <= i < |s| && MatchAt(p, s, i).Some? ==>
      exists k :: 0 <= k < |r| && r[k].start <= i < r[k].end
  }

  lemma FindsAllAfterMatch(p: Pattern, s: string, pos: nat, sp: Span, rest: seq<Span>)
    requires MatchAt(p, s, pos) == Some(sp) && FindsAll(p, s, sp.end, rest)
    ensures FindsAll(p, s, pos, [sp] + rest)
  {
    MatchAtBounds(p, s, pos);
    AllFoundAfterMatch(p, s, pos, sp, rest);
    InTextOrderAfterMatch(sp, rest);
    CoversAfterMatch(p, s, pos, sp, rest);
  }

  lemma AllFoundAfterMatch(p: Pattern, s: string, pos: nat, sp: Span, rest: seq<Span>)
    requires pos == sp.start < sp.group < sp.end <= |s| && MatchAt(p, s, pos) == Some(sp)
    requires AllFound(p, s, sp.end, rest)
    ensures AllFound(p, s, pos, [sp] + rest)
  {
    var r := [sp] + rest;
    forall k | 0 < k < |r| ensures r[k] == rest[k - 1] { }
  }

  lemma InTextOrderAfterMatch(sp: Span, rest: seq<Span>)
    requires InTextOrder(rest) && (|rest| > 0 ==> sp.end <= rest[0].start)
    ensures InTextOrder([sp] + rest)
  {
    var r := [sp] + rest;
    forall k | 0 < k < |r| ensures r[k] == rest[k - 1] { }
  }

  lemma CoversAfterMatch(p: Pattern, s: string, pos: nat, sp: Span, rest: seq<Span>)
    requires pos == sp.start < sp.end && Covers(p, s, sp.end, rest)
    ensures Covers(p, s, pos, [sp] + rest)
  {
    var r := [sp] + rest;
    forall i | pos <= i < |s| && MatchAt(p, s, i).Some?
      ensures exists k :: 0 <= k < |r| && r[k].start <= i < r[k].end
    {
      if i < sp.end {
        assert r[0].start <= i < r[0].end;
      } else {
        var k :| 0 <= k < |rest| && rest[k].start <= i < rest[k].end;
        assert r[k + 1] == rest[k];
      }
    }
  }

  lemma FindsAllAfterMiss(p: Pattern, s: string, pos: nat, rest: seq<Span>)
    requires pos < |s| && MatchAt(p, s, pos).None? && FindsAll(p, s, pos + 1, rest)
    ensures FindsAll(p, s, pos, rest)
  {
  }

  /** `re.findall` from `pos` on, as spans: scanning left to right, each search resuming where the
      previous match ended. What it finds is stated by `FindAllFromCorrect`. */
  function FindAllFrom(p: Pattern, s: string, pos: nat): (r: seq<Span>)
    requires pos <= |s|
    ensures forall k :: 0 <= k < |r| ==> pos <= r[k].start < r[k].group < r[k].end <= |s|
    decreases |s| - pos
  {
    if pos == |s| then []
    else
      match MatchAt(p, s, pos)
      case None => FindAllFrom(p, s, pos + 1)
      case Some(sp) =>
        MatchAtBounds(p, s, pos);
        [sp] + FindAllFrom(p, s, sp.end)
  }

  /** `FindAllFrom` finds every match from `pos` on, in text order, without overlaps. */
  lemma {:induction false} FindAllFromCorrect(p: Pattern, s: string, pos: nat)
    requires pos <= |s|
    ensures FindsAll(p, s, pos, FindAllFrom(p, s, pos))
    decreases |s| - pos
  {
    if pos < |s| {
      match MatchAt(p, s, pos)
      case None =>
        var rest := FindAllFrom(p, s, pos + 1);
        FindAllFromCorrect(p, s, pos + 1);
        FindsAllAfterMiss(p, s, pos, rest);
        assert FindAllFrom(p, s, pos) == rest;
      case Some(sp) =>
        MatchAtBounds(p, s, pos);
        var rest := FindAllFrom(p, s, sp.end);
        FindAllFromCorrect(p, s, sp.end);
        FindsAllAfterMatch(p, s, pos, sp, rest);
        assert FindAllFrom(p, s, pos) == [sp] + rest;
    }
  }

  /** `re.search` from `pos` on: the first position at which the pattern matches. What it finds is
      stated by `SearchFromCorrect`. */
  function SearchFrom(p: Pattern, s: string, pos: nat): (r: Option<Span>)
    requires pos <= |s|
    ensures r.Some? ==> pos <= r.value.start < r.value.group < r.value.end <= |s|
    decreases |s| - pos
  {
    if pos == |s| then None
    else
      match MatchAt(p, s, pos)
      case Some(sp) => MatchAtBounds(p, s, pos); Some(sp)
      case None => SearchFrom(p, s, pos + 1)
  }

  /** `SearchFrom` finds the match at the first position from `pos` on where one starts. */
  lemma {:induction false} SearchFromCorrect(p: Pattern, s: string, pos: nat)
    requires pos <= |s|
    ensures var r := SearchFrom(p, s, pos);
            && (r.Some? ==> pos <= r.value.start < r.value.group < r.value.end <= |s| && MatchAt(p, s, r.value.start) == r)
            && (r.Some? ==> NoMatchIn(p, s, pos, r.value.start))
            && (r.None? ==> NoMatchIn(p, s, pos, |s|))
    decreases |s| - pos
  {
    if pos < |s| && MatchAt(p, s, pos).None? {
      SearchFromCorrect(p, s, pos + 1);
      var r := SearchFrom(p, s, pos + 1);
      assert SearchFrom(p, s, pos) == r;
      NoMatchExtend(p, s, pos, if r.Some? then r.value.start else |s|);
    }
  }

  /** No match starts at any position from `lo` up to `hi`. */
  ghost predicate NoMatchIn(p: Pattern, s: string, lo: nat, hi: nat) {
    forall i :: lo <= i < hi ==> MatchAt(p, s, i).None?
  }

  lemma NoMatchExtend(p: Pattern, s: string, lo: nat, hi: nat)
    requires MatchAt(p, s, lo).None? && NoMatchIn(p, s, lo + 1, hi)
    ensures NoMatchIn(p, s, lo, hi)
  {
  }

  /** The first span of a list, if any. */
  function First(r: seq<Span>): (f: Option<Span>)
    ensures f.Some? <==> r != []
  {
    if r == [] then None else Some(r[0])
  }

  /** `re.search` finds the first of the matches `re.findall` finds. */
  lemma {:induction false} SearchIsFirstFound(p: Pattern, s: string, pos: nat)
    requires pos <= |s|
    ensures SearchFrom(p, s, pos) == First(FindAllFrom(p, s, pos))
    decreases |s| - pos
  {
    if pos == |s| {
      assert SearchFrom(p, s, pos).None? && FindAllFrom(p, s, pos) == [];
    } else if MatchAt(p, s, pos).None? {
      SearchIsFirstFound(p, s, pos + 1);
      SearchAfterMiss(p, s, pos);
    } else {
      SearchAtHit(p, s, pos);
    }
  }

  /** Where no match starts at `pos`, both scans move on to `pos + 1`. */
  lemma SearchAfterMiss(p: Pattern, s: string, pos: nat)
    requires pos < |s| && MatchAt(p, s, pos).None?
    ensures SearchFrom(p, s, pos) == SearchFrom(p, s, pos + 1)
    ensures FindAllFrom(p, s, pos) == FindAllFrom(p, s, pos + 1)
  {
  }

  /** Where a match starts at `pos`, it is what both scans find first. */
  lemma SearchAtHit(p: Pattern, s: string, pos: nat)
    requires pos < |s| && MatchAt(p, s, pos).Some?
    ensures SearchFrom(p, s, pos) == MatchAt(p, s, pos) == First(FindAllFrom(p, s, pos))
  {
    MatchAtBounds(p, s, pos);
    var sp := MatchAt(p, s, pos).value;
    assert FindAllFrom(p, s, pos) == [sp] + FindAllFrom(p, s, sp.end);
  }

  /** The text of each span's group. */
  function Groups(s: string, spans: seq<Span>): seq<string>
    requires forall k :: 0 <= k < |spans| ==> spans[k].group <= spans[k].end <= |s|
  {
    seq(|spans|, k requires 0 <= k < |spans| => s[spans[k].group..spans[k].end])
  }

  /** `re.findall(pattern, s)` for a pattern with one group: the groups of all matches. */
  function FindAll(p: Pattern, s: string): (r: seq<string>)
    ensures |r| == |FindAllFrom(p, s, 0)|
    ensures forall k :: 0 <= k < |r| ==> r[k] != ""
  {
    Groups(s, FindAllFrom(p, s, 0))
  }

  /** The `k`-th group `re.findall` returns is the group of a match of the pattern. */
  lemma FoundMatch(p: Pattern, s: string, k: nat)
    requires k < |FindAllFrom(p, s, 0)|
    ensures var sp := FindAllFrom(p, s, 0)[k];
            sp.group < sp.end <= |s| && IsMatch(p, s, sp) && FindAll(p, s)[k] == s[sp.group..sp.end]
  {
    FindAllFromCorrect(p, s, 0);
    var sp := FindAllFrom(p, s, 0)[k];
    assert MatchAt(p, s, sp.start) == Some(sp);
    MatchAtCorrect(p, s, sp.start);
  }

  /** A deal term: an amount, one whitespace character and a unit. */
  ghost predicate IsDealTerm(t: string) {
    exists w :: DealLaidOut(t, 0, w, |t|)
  }

  /** The group of a deal-term match is a deal term, right after a `$`. */
  lemma DealGroupIsDealTerm(s: string, sp: Span)
    requires IsDealMatch(s, sp)
    ensures s[sp.group - 1] == '$' && IsDealTerm(s[sp.group..sp.end])
  {
    var w := DealMatchParts(s, sp);
    DealLaidOutWithin(s, sp.group, w, sp.end);
  }

  /** A deal term laid out in `s` from `g` to `end` is laid out the same way in `s[g..end]`. */
  lemma DealLaidOutWithin(s: string, g: nat, w: nat, end: nat)
    requires DealLaidOut(s, g, w, end)
    ensures DealLaidOut(s[g..end], 0, w - g, end - g)
  {
    var t := s[g..end];
    assert t[0..w - g] == s[g..w];
    assert t[w - g] == s[w];
    assert t[w - g + 1..end - g] == s[w + 1..end];
  }

  /** Where the whitespace of a deal-term match is. */
  lemma DealMatchParts(s: string, sp: Span) returns (w: nat)
    requires IsDealMatch(s, sp)
    ensures sp.group < w < sp.end && IsAmount(s[sp.group..w]) && IsSpace(s[w]) && IsUnit(s[w + 1..sp.end])
  {
    w :| DealLaidOut(s, sp.group, w, sp.end);
  }

  /** A party name: name-class characters ending with a corporate suffix. */
  predicate IsPartyName(t: string) {
    (forall m :: 0 <= m < |t| ==> InNameClass(t[m])) && exists a :: 0 <= a < |Suffixes| && EndsWith(t, Suffixes[a])
  }

  /** A party group is a party name. */
  lemma PartyGroupIsPartyName(g: string)
    requires IsPartyGroup(g)
    ensures IsPartyName(g)
  {
    var e := PartyGroupParts(g);
    var a :| 0 <= a < |Suffixes| && Suffixes[a] == g[e..];
    assert OccursAt(Suffixes[a], g, e);
    SuffixInNameClass(g, e, a);
    assert EndsWith(g, Suffixes[a]);
  }
}
