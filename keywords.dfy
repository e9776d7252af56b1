/** The keyword matcher of the feed aggregator (`check_for_keywords`, aggregator.py). */
module Keywords {
  import opened Strings

  /** The keywords the aggregator searches titles and summaries for. */
  const GpStakeKeywords: seq<string> := [
    "GP stake", "general partner stake", "minority stake", "majority stake",
    "alternative asset manager", "asset manager investment",
    "private equity stake", "fund manager stake", "anchor investor"
  ]

  /** The four tests the source applies to one keyword, as written: padded substring, prefix,
      suffix, equality, all on lower-cased text. */
  predicate KeywordTest(text: string, keyword: string)
    ensures KeywordTest(text, keyword) ==> |keyword| <= |text|
    ensures text == "" ==> (KeywordTest(text, keyword) <==> keyword == "")
  {
    var t := Lower(text);
    var k := Lower(keyword);
    IsSubstring(" " + k + " ", " " + t + " ") || StartsWith(t, k + " ") ||
    EndsWith(t, " " + k) || t == k
  }

  /** The single test the four collapse to: the space-padded keyword is a substring of the
      space-padded text, case-insensitively. */
  predicate PaddedMatch(text: string, keyword: string) {
    IsSubstring(" " + Lower(keyword) + " ", " " + Lower(text) + " ")
  }

  /** The prefix, suffix and equality tests are each implied by the padded-substring test. */
  lemma KeywordTestCollapses(text: string, keyword: string)
    ensures KeywordTest(text, keyword) <==> PaddedMatch(text, keyword)
  {
    var t, k := Lower(text), Lower(keyword);
    var pk, pt := " " + k + " ", " " + t + " ";
    if StartsWith(t, k + " ") {
      assert pt[0..|pk|] == pk;
      assert OccursAt(pk, pt, 0);
    }
    if EndsWith(t, " " + k) {
      var i := |t| - |k| - 1;
      assert pt[i + 1..i + 1 + |pk|] == pk;
      assert OccursAt(pk, pt, i + 1);
    }
    if t == k {
      assert OccursAt(pk, pt, 0);
    }
  }

  /** `any(... for keyword in keywords)` over the four tests. */
  function AnyKeyword(text: string, keywords: seq<string>): (r: bool)
    ensures r <==> exists i :: 0 <= i < |keywords| && PaddedMatch(text, keywords[i])
  {
    if keywords == [] then false
    else
      KeywordTestCollapses(text, keywords[0]);
      var rest := AnyKeyword(text, keywords[1..]);
      assert rest <==> exists i :: 1 <= i < |keywords| && PaddedMatch(text, keywords[i]) by {
        forall i | 1 <= i < |keywords| ensures keywords[1..][i - 1] == keywords[i] { }
      }
      KeywordTest(text, keywords[0]) || rest
  }

  /** `check_for_keywords(text, keywords)`: false on empty text, otherwise some keyword passes. */
  function CheckForKeywords(text: string, keywords: seq<string>): (r: bool)
    ensures r <==> text != "" && exists i :: 0 <= i < |keywords| && PaddedMatch(text, keywords[i])
    ensures text == "" ==> !r
    ensures keywords == [] ==> !r
  {
    if text == "" then false else AnyKeyword(text, keywords)
  }

  /** `k` stands alone in `t` at `i`: it occurs there, with a space or the end of `t` on each side. */
  predicate StandsAlone(k: string, t: string, i: int) {
    OccursAt(k, t, i) && (i == 0 || t[i - 1] == ' ') && (i + |k| == |t| || t[i + |k|] == ' ')
  }

  /** At one position: the padded keyword sits in the padded text at `j` exactly when the keyword
      stands alone in the text at `j`. */
  lemma PaddedOccursAt(k: string, t: string, j: int)
    ensures OccursAt(" " + k + " ", " " + t + " ", j) <==> StandsAlone(k, t, j)
  {
    var pk, pt := " " + k + " ", " " + t + " ";
    if OccursAt(pk, pt, j) {
      forall m | 0 <= m < |k| ensures t[j + m] == k[m] {
        assert pt[j + 1 + m] == pt[j..j + |pk|][1 + m];
      }
      assert t[j..j + |k|] == k;
      assert j > 0 ==> t[j - 1] == pt[j] == pt[j..j + |pk|][0];
      assert j + |k| < |t| ==> t[j + |k|] == pt[j + |k| + 1] == pt[j..j + |pk|][|k| + 1];
    }
    if StandsAlone(k, t, j) {
      forall m | 0 <= m < |pk| ensures pt[j + m] == pk[m] {
        if 0 < m <= |k| {
          assert pt[j + m] == t[j + m - 1] == t[j..j + |k|][m - 1];
        }
      }
      assert pt[j..j + |pk|] == pk;
    }
  }

  /** The padded test is exactly a whole-phrase occurrence whose only delimiters are single
      spaces or the ends of the text: punctuation, letters and other whitespace do not delimit. */
  lemma PaddedMatchIsStandingAlone(text: string, keyword: string)
    ensures PaddedMatch(text, keyword) <==> exists i :: StandsAlone(Lower(keyword), Lower(text), i)
  {
    var t, k := Lower(text), Lower(keyword);
    if PaddedMatch(text, keyword) {
      var j :| 0 <= j <= |" " + t + " "| && OccursAt(" " + k + " ", " " + t + " ", j);
      PaddedOccursAt(k, t, j);
    }
    if i :| StandsAlone(k, t, i) {
      PaddedOccursAt(k, t, i);
      assert OccursAt(" " + k + " ", " " + t + " ", i);
    }
  }

  /** Upper-casing the text, or every keyword, never changes the verdict. */
  lemma CaseInsensitive(text: string, keywords: seq<string>)
    ensures CheckForKeywords(Upper(text), keywords) == CheckForKeywords(text, keywords)
    ensures CheckForKeywords(text, seq(|keywords|, i requires 0 <= i < |keywords| => Upper(keywords[i])))
         == CheckForKeywords(text, keywords)
  {
    LowerOfUpper(text);
    var upper := seq(|keywords|, i requires 0 <= i < |keywords| => Upper(keywords[i]));
    forall i | 0 <= i < |keywords|
      ensures PaddedMatch(text, upper[i]) == PaddedMatch(text, keywords[i])
    {
      LowerOfUpper(keywords[i]);
    }
  }

  /** A keyword inside a longer word does not match: "GP stake" is not found in "GP stakes". */
  lemma LongerWordIsNoMatch()
    ensures !CheckForKeywords("GP stakes", ["GP stake"])
  {
    assert Lower("GP stakes") == "gp stakes";
    assert Lower("GP stake") == "gp stake";
    PaddedMatchIsStandingAlone("GP stakes", "GP stake");
    assert !StandsAlone("gp stake", "gp stakes", 1);
  }

  /** Punctuation is not a boundary: "GP stake" is not found in "GP stake,". */
  lemma PunctuationIsNoBoundary()
    ensures !CheckForKeywords("GP stake,", ["GP stake"])
  {
    assert Lower("GP stake,") == "gp stake,";
    assert Lower("GP stake") == "gp stake";
    PaddedMatchIsStandingAlone("GP stake,", "GP stake");
    assert !StandsAlone("gp stake", "gp stake,", 1);
  }

  /** Whitespace is not normalised: "GP stake" is not found in "GP  stake". */
  lemma DoubleSpaceIsNoMatch()
    ensures !CheckForKeywords("GP  stake", ["GP stake"])
  {
    assert Lower("GP  stake") == "gp  stake";
    assert Lower("GP stake") == "gp stake";
    PaddedMatchIsStandingAlone("GP  stake", "GP stake");
    assert !StandsAlone("gp stake", "gp  stake", 0);
    assert !StandsAlone("gp stake", "gp  stake", 1);
  }

  /** Plain spaces around the text are absorbed by the padding: "GP stake" is found in " GP stake ". */
  lemma SurroundingSpacesMatch()
    ensures CheckForKeywords(" GP stake ", ["GP stake"])
  {
    assert Lower(" GP stake ") == " gp stake ";
    assert Lower("GP stake") == "gp stake";
    assert StandsAlone("gp stake", " gp stake ", 1);
    PaddedMatchIsStandingAlone(" GP stake ", "GP stake");
    assert ["GP stake"][0] == "GP stake";
  }

  /** Only the plain space delimits: "GP stake" is not found in "GP stake" followed by a newline. */
  lemma TrailingNewlineIsNoMatch()
    ensures !CheckForKeywords("GP stake\n", ["GP stake"])
  {
    assert Lower("GP stake\n") == "gp stake\n";
    assert Lower("GP stake") == "gp stake";
    PaddedMatchIsStandingAlone("GP stake\n", "GP stake");
    assert !StandsAlone("gp stake", "gp stake\n", 0);
    assert !StandsAlone("gp stake", "gp stake\n", 1);
  }

  /** A keyword standing alone matches in any letter case: "Firm sells GP stake" is relevant. */
  lemma StandingKeywordMatches()
    ensures CheckForKeywords("Firm sells gp STAKE", GpStakeKeywords)
  {
    assert GpStakeKeywords[0] == "GP stake";
    StandingPhraseMatches();
  }

  lemma StandingPhraseMatches()
    ensures PaddedMatch("Firm sells gp STAKE", "GP stake")
  {
    assert Lower("Firm ") == "firm " && Lower("sells ") == "sells " && Lower("gp STAKE") == "gp stake";
    LowerAppend("Firm ", "sells ");
    assert "Firm " + "sells " == "Firm sells ";
    LowerAppend("Firm sells ", "gp STAKE");
    assert "Firm sells " + "gp STAKE" == "Firm sells gp STAKE";
    assert Lower("Firm sells gp STAKE") == "firm sells gp stake";
    assert Lower("GP stake") == "gp stake";
    assert StandsAlone("gp stake", "firm sells gp stake", 11);
    PaddedMatchIsStandingAlone("Firm sells gp STAKE", "GP stake");
  }
}
