/** `extract_deal_info` (scrape_gp_stake_news.py): three pattern scans over an article's text and
    the "N/A" sentinel for a scan that finds nothing. */
module DealExtraction {
  import opened Wrappers
  import opened Strings
  import opened Patterns
  import opened Dates

  /** The three extracted fields, each a non-empty string. */
  datatype DealInfo = DealInfo(dealTerms: string, transactionDate: string, partiesInvolved: string)

  /** `', '.join(xs) if xs else 'N/A'` */
  function JoinOrNA(xs: seq<string>): string {
    if xs == [] then "N/A" else Join(", ", xs)
  }

  /** Some match of `p` starts somewhere in `s`. */
  ghost predicate AnyMatch(p: Pattern, s: string) {
    exists i :: 0 <= i < |s| && MatchAt(p, s, i).Some?
  }

  /** The deal-terms field: every amount found, in text order, or "N/A". */
  function DealTermsField(text: string): (r: string)
    ensures r != "" && (r == "N/A" <==> !AnyMatch(DealTerm, text))
    ensures r != "N/A" ==> r == Join(", ", FindAll(DealTerm, text))
  {
    FoundIffAnyMatch(DealTerm, text);
    DealTermsAreNotSentinel(text);
    JoinOrNA(FindAll(DealTerm, text))
  }

  /** The parties field: every party name found, in text order, or "N/A". */
  function PartiesField(text: string): (r: string)
    ensures r != "" && (r == "N/A" <==> !AnyMatch(Party, text))
    ensures r != "N/A" ==> r == Join(", ", FindAll(Party, text))
  {
    FoundIffAnyMatch(Party, text);
    PartiesAreNotSentinel(text);
    JoinOrNA(FindAll(Party, text))
  }

  /** The transaction-date field: the date of the first match only (`re.search`), or "N/A". */
  function DateField(text: string): (r: string)
    ensures r != "" && (r == "N/A" <==> !AnyMatch(TransactionDate, text))
    ensures r != "N/A" ==>
              (SearchFrom(TransactionDate, text, 0).Some? &&
               var sp := SearchFrom(TransactionDate, text, 0).value; r == text[sp.group..sp.end])
  {
    SearchFromCorrect(TransactionDate, text, 0);
    match SearchFrom(TransactionDate, text, 0)
    case None => "N/A"
    case Some(sp) =>
      MatchAtCorrect(TransactionDate, text, sp.start);
      DateGroupIsNotSentinel(text, sp);
      text[sp.group..sp.end]
  }

  /** A date group is longer than "N/A". */
  lemma DateGroupIsNotSentinel(s: string, sp: Span)
    requires IsDateMatch(s, sp)
    ensures sp.group + 3 < sp.end
  {
    var k: nat :| DateLaidOut(s, sp.group, k, sp.end);
  }

  /** `extract_deal_info(article_text)` */
  function ExtractDealInfo(text: string): (r: DealInfo)
    ensures r.dealTerms != "" && r.transactionDate != "" && r.partiesInvolved != ""
    ensures r.dealTerms == "N/A" <==> !AnyMatch(DealTerm, text)
    ensures r.transactionDate == "N/A" <==> !AnyMatch(TransactionDate, text)
    ensures r.partiesInvolved == "N/A" <==> !AnyMatch(Party, text)
    ensures r.dealTerms != "N/A" ==> r.dealTerms == Join(", ", FindAll(DealTerm, text))
    ensures r.partiesInvolved != "N/A" ==> r.partiesInvolved == Join(", ", FindAll(Party, text))
    ensures r.transactionDate != "N/A" ==>
              (SearchFrom(TransactionDate, text, 0).Some? &&
               var sp := SearchFrom(TransactionDate, text, 0).value; r.transactionDate == text[sp.group..sp.end])
  {
    DealInfo(DealTermsField(text), DateField(text), PartiesField(text))
  }

  /** `re.findall` finds something exactly when some match starts somewhere. */
  lemma FoundIffAnyMatch(p: Pattern, s: string)
    ensures FindAll(p, s) != [] <==> AnyMatch(p, s)
  {
    var r := FindAllFrom(p, s, 0);
    FindAllFromCorrect(p, s, 0);
    if r != [] {
      assert MatchAt(p, s, r[0].start).Some?;
      assert AnyMatch(p, s);
    } else if AnyMatch(p, s) {
      var i :| 0 <= i < |s| && MatchAt(p, s, i).Some?;
      assert false;
    }
  }

  /** Each deal term found has the shape of `\d+\.?\d*\s(?:million|billion|M|B)` and comes right
      after a `$` in the text; the terms are in text order and do not overlap. */
  lemma DealTermsWellFormed(text: string)
    ensures forall k :: 0 <= k < |FindAll(DealTerm, text)| ==> IsDealTerm(FindAll(DealTerm, text)[k])
    ensures forall k :: 0 <= k < |FindAllFrom(DealTerm, text, 0)| ==>
              var sp := FindAllFrom(DealTerm, text, 0)[k];
              text[sp.group - 1] == '$' && FindAll(DealTerm, text)[k] == text[sp.group..sp.end]
  {
    forall k | 0 <= k < |FindAllFrom(DealTerm, text, 0)|
      ensures var sp := FindAllFrom(DealTerm, text, 0)[k];
              text[sp.group - 1] == '$' && FindAll(DealTerm, text)[k] == text[sp.group..sp.end] &&
              IsDealTerm(FindAll(DealTerm, text)[k])
    {
      FoundMatch(DealTerm, text, k);
      DealGroupIsDealTerm(text, FindAllFrom(DealTerm, text, 0)[k]);
    }
  }

  /** Each party name found uses only letters, digits, whitespace, `,`, `&` and `-`, and ends with
      one of the corporate suffixes. */
  lemma PartyNamesWellFormed(text: string)
    ensures forall k :: 0 <= k < |FindAll(Party, text)| ==> IsPartyName(FindAll(Party, text)[k])
  {
    forall k | 0 <= k < |FindAllFrom(Party, text, 0)| ensures IsPartyName(FindAll(Party, text)[k]) {
      FoundMatch(Party, text, k);
      var sp := FindAllFrom(Party, text, 0)[k];
      PartyGroupIsPartyName(text[sp.group..sp.end]);
    }
  }

  lemma JoinFirst(sep: string, xs: seq<string>)
    requires xs != [] && xs[0] != []
    ensures |Join(sep, xs)| > 0 && Join(sep, xs)[0] == xs[0][0]
  {
  }

  lemma {:induction false} JoinLast(sep: string, xs: seq<string>)
    requires xs != [] && xs[|xs| - 1] != []
    ensures |Join(sep, xs)| > 0 && Join(sep, xs)[|Join(sep, xs)| - 1] == xs[|xs| - 1][|xs[|xs| - 1]| - 1]
  {
    if |xs| > 1 {
      JoinLast(sep, xs[1..]);
    }
  }

  /** Joined deal terms start with a digit, so they never read "N/A". */
  lemma DealTermsAreNotSentinel(text: string)
    ensures FindAll(DealTerm, text) != [] ==> Join(", ", FindAll(DealTerm, text)) != "N/A"
  {
    var ts := FindAll(DealTerm, text);
    if ts != [] {
      DealTermsWellFormed(text);
      assert IsDealTerm(ts[0]);
      JoinFirst(", ", ts);
    }
  }

  /** A party name ends in the last letter of a suffix, never in `A`. */
  lemma PartyNameEnd(t: string)
    requires IsPartyName(t)
    ensures |t| > 0 && t[|t| - 1] != 'A'
  {
    var a :| 0 <= a < |Suffixes| && EndsWith(t, Suffixes[a]);
    assert t[|t| - 1] == Suffixes[a][|Suffixes[a]| - 1];
  }

  /** Joined party names end with a suffix's last letter, so they never read "N/A". */
  lemma PartiesAreNotSentinel(text: string)
    ensures FindAll(Party, text) != [] ==> Join(", ", FindAll(Party, text)) != "N/A"
  {
    var ts := FindAll(Party, text);
    if ts != [] {
      PartyNamesWellFormed(text);
      PartyNameEnd(ts[|ts| - 1]);
      JoinLast(", ", ts);
    }
  }

  /** The whitespace before the unit is required: a text without whitespace, such as "$500M",
      yields no deal term. */
  lemma {:induction false} DealTermNeedsWhitespace(text: string)
    requires forall k :: 0 <= k < |text| ==> !IsSpace(text[k])
    ensures ExtractDealInfo(text).dealTerms == "N/A"
  {
    forall i | 0 <= i < |text| ensures MatchAt(DealTerm, text, i).None? {
      if MatchAt(DealTerm, text, i).Some? {
        MatchAtCorrect(DealTerm, text, i);
        var w := DealMatchParts(text, MatchAt(DealTerm, text, i).value);
        assert false;
      }
    }
  }

  /** "$500M" is not a deal term as written: the unit must follow whitespace. */
  lemma CompactAmountIsMissed()
    ensures ExtractDealInfo("$500M").dealTerms == "N/A"
  {
    DealTermNeedsWhitespace("$500M");
  }

  /** The transaction date is not checked as a date: after "on " or "in ", a month name, two
      digits of any value and a four-digit year are taken, whatever follows the year (a fifth
      digit included), as in "on May 99, 20245". */
  lemma DateIsNotValidated(prep: string, m: nat, dd: string, yyyy: string, rest: string)
    requires prep in ["on", "in"] && m < 12 && |dd| == 2 && AllDigits(dd) && |yyyy| == 4 && AllDigits(yyyy)
    ensures ExtractDealInfo(prep + " " + MonthNames[m] + " " + dd + ", " + yyyy + rest).transactionDate ==
            MonthNames[m] + " " + dd + ", " + yyyy
  {
    var g := MonthNames[m] + " " + dd + ", " + yyyy;
    var s := prep + " " + MonthNames[m] + " " + dd + ", " + yyyy + rest;
    DateTextLayout(prep, m, dd, yyyy, rest);
    DateScanAt(s, 0, 3, 3 + |MonthNames[m]|, 3 + |g|);
    assert MatchAt(TransactionDate, s, 0) == Some(Span(0, 3, 3 + |g|));
    assert s[3..3 + |g|] == g;
  }

  /** The pieces of "on May 99, 2024..." where the date scanner looks for them. */
  lemma DateTextLayout(prep: string, m: nat, dd: string, yyyy: string, rest: string)
    requires prep in ["on", "in"] && m < 12 && |dd| == 2 && AllDigits(dd) && |yyyy| == 4 && AllDigits(yyyy)
    ensures var s := prep + " " + MonthNames[m] + " " + dd + ", " + yyyy + rest;
            var n := |MonthNames[m]|;
            3 + n + 9 <= |s| && AtWordBoundary(s, 0) && OnOrInAt(s, 0) && IsSpace(s[2]) &&
            IsMonthName(s[3..3 + n]) && IsSpace(s[3 + n]) && IsDayAndYear(s[3 + n + 1..3 + n + 9]) &&
            s[3..3 + n + 9] == MonthNames[m] + " " + dd + ", " + yyyy
  {
    var g := MonthNames[m] + " " + dd + ", " + yyyy;
    var s := prep + " " + MonthNames[m] + " " + dd + ", " + yyyy + rest;
    assert s == prep + " " + g + rest;
    var n := |MonthNames[m]|;
    var end := 3 + |g|;
    assert s[..2] == prep;
    assert s[2] == ' ';
    assert OnOrInAt(s, 0);
    assert s[3..end] == g;
    assert g[..n] == MonthNames[m];
    assert IsMonthName(s[3..3 + n]);
    assert s[3 + n] == ' ';
    var t := s[3 + n + 1..end];
    assert t == dd + ", " + yyyy;
    assert IsDayAndYear(t);
  }

  /** The name pattern is greedy: after a verb, a run of name characters ending in a suffix is
      taken whole, even when it holds a second verb and a second name, so "acquired A Inc and
      sold to B Corp" yields the single party "A Inc and sold to B Corp". */
  lemma GreedyPartyTakesTheRest(v: nat, x: string, a: nat)
    requires v < |Verbs| && a < |Suffixes| && |Suffixes[a]| < |x| && EndsWith(x, Suffixes[a])
    requires forall k :: 0 <= k < |x| ==> InNameClass(x[k])
    ensures ExtractDealInfo(Verbs[v] + " " + x).partiesInvolved == x
  {
    GreedyPartyField(v, x, a);
  }

  lemma GreedyPartyField(v: nat, x: string, a: nat)
    requires v < |Verbs| && a < |Suffixes| && |Suffixes[a]| < |x| && EndsWith(x, Suffixes[a])
    requires forall k :: 0 <= k < |x| ==> InNameClass(x[k])
    ensures PartiesField(Verbs[v] + " " + x) == x
  {
    var s := Verbs[v] + " " + x;
    var sp := Span(0, |Verbs[v]| + 1, |s|);
    PartyMatchToEnd(v, x, a);
    MatchReachingEnd(Party, s, sp);
    OnlyMatchToEnd(Party, s, sp);
    assert s[sp.group..sp.end] == x;
  }

  /** The verb, a space and the name make one party match over the whole text. */
  lemma PartyMatchToEnd(v: nat, x: string, a: nat)
    requires v < |Verbs| && a < |Suffixes| && |Suffixes[a]| < |x| && EndsWith(x, Suffixes[a])
    requires forall k :: 0 <= k < |x| ==> InNameClass(x[k])
    ensures IsPartyMatch(Verbs[v] + " " + x, Span(0, |Verbs[v]| + 1, |Verbs[v] + " " + x|))
  {
    var s := Verbs[v] + " " + x;
    var g := |Verbs[v]| + 1;
    assert s[..g - 1] == Verbs[v];
    assert s[g..] == x;
    assert IsAsciiLetter(s[0]);
    var e := |x| - |Suffixes[a]|;
    assert s[g..|s|] == x;
    assert x[e..] == Suffixes[a];
    assert x[e..] in Suffixes;
    assert 0 < e < |x| && (forall k :: 0 <= k < e ==> InNameClass(x[k])) && x[e..] in Suffixes;
  }

  /** A match at the start that runs to the end is all `re.findall` finds. */
  lemma OnlyMatchToEnd(p: Pattern, s: string, sp: Span)
    requires MatchAt(p, s, 0) == Some(sp) && sp.group <= sp.end == |s| && 0 < |s|
    ensures FindAll(p, s) == [s[sp.group..]]
  {
    OnlySpanToEnd(p, s, sp);
    assert s[sp.group..sp.end] == s[sp.group..];
  }

  /** The spans `re.findall` finds when the match at the start runs to the end. */
  lemma OnlySpanToEnd(p: Pattern, s: string, sp: Span)
    requires MatchAt(p, s, 0) == Some(sp) && sp.end == |s| && 0 < |s|
    ensures FindAllFrom(p, s, 0) == [sp]
  {
    assert FindAllFrom(p, s, sp.end) == [];
  }
}
