# GP stake news aggregator and scraper, modelled in Dafny

This project models the core of a small Python tool that collects news about GP-stake deals:

- **The RSS aggregator** (`aggregator.py`):
  - `check_for_keywords`, the whole-phrase, case-insensitive keyword test;
  - the loop of `get_gp_stake_news` over feeds and entries, which keeps an entry when its title or
    summary contains a keyword and defaults its missing fields.
- **The page scraper** (`scrape_gp_stake_news.py`):
  - `extract_deal_info`, three regular expressions run with `re.findall`/`re.search` over an
    article's text, with the `"N/A"` sentinel;
  - the block loop of `scrape_news_source`: the completeness check, the `href` lookup, parsing
    with `strptime('%B %d, %Y')`, the comparison with the cutoff, and the row written with
    `strftime('%Y-%m-%d')`.

Files and modules:

| file | module | contents |
|---|---|---|
| `wrappers.dfy` | `Wrappers` | `Option` |
| `strings.dfy` | `Strings` | ASCII case mapping, substrings, Python's character classes (`str.isspace`, `\d`, `\w`, `\b`), `str.join`, digit runs |
| `keywords.dfy` | `Keywords` | `check_for_keywords` and what its four tests amount to |
| `aggregator.dfy` | `Aggregator` | `get_gp_stake_news` as a method with nested loops, proved against `AllRows` |
| `patterns.dfy` | `Patterns` | the three regular expressions; `re.findall` and `re.search` |
| `dates.dfy` | `Dates` | `strptime('%B %d, %Y')`, `strftime('%Y-%m-%d')`, comparison of naive `datetime`s |
| `deal_info.dfy` | `DealExtraction` | `extract_deal_info` |
| `scraper.dfy` | `Scraper` | `scrape_news_source` as a method with a loop, proved against `ScrapeBlocks` |

**Regular expressions.** Each regular expression is written twice:

- as a declarative description of the text a match covers (`IsDealMatch`, `IsDateMatch`,
  `IsPartyMatch`);
- as a scanner for one position (`MatchDealAt`, `MatchDateAt`, `MatchPartyAt`).

The scanners are proved to return the longest match starting at that position. That Python's
backtracking engine takes the longest match for these three patterns is argued in comments
(the order of the alternatives, and that the suffix alternatives of the party pattern never end
one inside another), not proved. `FindAllFrom` and
`SearchFrom` are proved to be `re.findall` and `re.search`: every match found, left to right,
without overlaps; and the first position where a match starts.

**Inputs.** The network and the HTML/RSS parsers are not modelled; their outcome is an input.

- A feed is `Parsed(entries)`, or `Raised(seen)` when an exception ended its `try` block after
  the loop had handled the entries `seen`.
- A page is `FetchFailed`, or the article blocks in document order, each with the stripped text
  of the elements `find` located.
- The cutoff `datetime` is a parameter.

**Behaviour of the code worth knowing.** The model follows the code in each case.

- The deal-term pattern (`scrape_gp_stake_news.py:13`) needs whitespace between the amount and
  the unit, so `"$500M"` yields no deal term at all (`DealExtraction.CompactAmountIsMissed`).
- The comment at `scrape_gp_stake_news.py:59` asks for the articles "within the last year". The
  test at line 60 compares the parsed date, at midnight, with a cutoff `datetime` that carries the
  time of day (`datetime.now() - timedelta(days=365)`, line 78). An article from the cutoff's own
  calendar day is therefore dropped unless the cutoff is exactly midnight
  (`Dates.MidnightAtOrAfter`, `Scraper.BlockKeptIff`).
- The comment at `aggregator.py:29` asks for whole words. The four tests at lines 30-33 treat only
  the plain space as a word separator. Plain spaces around the text are harmless
  (`Keywords.SurroundingSpacesMatch`). A newline or tab at the end of the text, a punctuation
  mark after the phrase, or two spaces inside it blocks a match
  (`Keywords.TrailingNewlineIsNoMatch`, `Keywords.PunctuationIsNoBoundary`,
  `Keywords.DoubleSpaceIsNoMatch`).
- A link element without `href` makes `link_element['href']` (`scrape_gp_stake_news.py:48`)
  raise `KeyError`. The handler at line 72 catches only `RequestException`, so the `KeyError`
  escapes `scrape_news_source` and the rows collected so far are lost (`Scraper.KeyErrorIff`).

## Model

| member | source | states |
|---|---|---|
| Keywords.KeywordTest | aggregator.py:30-33 | the four tests on one keyword, as written; a keyword that passes is no longer than the text, and on empty text only the empty keyword passes (all four tests together are `KeywordTestCollapses`) |
| Keywords.CheckForKeywords | aggregator.py:25-34 | false for empty text; otherwise true exactly when some keyword, lower-cased and padded with one space on each side, occurs in the lower-cased text padded the same way; false for an empty keyword list |
| Keywords.AnyKeyword | aggregator.py:30-34 | the `any(...)` over the keywords holds exactly when the padded-substring test holds for some keyword |
| Keywords.KeywordTestCollapses | aggregator.py:30-33 | the disjunction of the four tests (padded substring, prefix with space, suffix with space, equality) holds exactly when the padded-substring test holds |
| Keywords.PaddedOccursAt | aggregator.py:30 | the padded keyword occurs in the padded text at position j exactly when the keyword occurs in the text at j with a single space or the end of the text on each side |
| Keywords.PaddedMatchIsStandingAlone | aggregator.py:29-33 | a keyword matches exactly when it stands alone somewhere in the lower-cased text |
| Keywords.CaseInsensitive | aggregator.py:30-33 | upper-casing the text, or every keyword, never changes the verdict |
| Keywords.LongerWordIsNoMatch | aggregator.py:29-33 | "GP stake" does not match "GP stakes" |
| Keywords.PunctuationIsNoBoundary | aggregator.py:30-33 | "GP stake" does not match "GP stake," |
| Keywords.DoubleSpaceIsNoMatch | aggregator.py:30-33 | "GP stake" does not match "GP  stake" |
| Keywords.SurroundingSpacesMatch | aggregator.py:30-33 | "GP stake" matches " GP stake ": plain spaces around the text are absorbed by the padding |
| Keywords.TrailingNewlineIsNoMatch | aggregator.py:30-33 | "GP stake" does not match "GP stake" followed by a newline: only the plain space delimits a word |
| Keywords.StandingKeywordMatches | aggregator.py:19-34 | "Firm sells gp STAKE" is relevant under the configured keywords |
| Aggregator.Row | aggregator.py:48-61 | the row carries the feed name as Source and each field the entry has; a missing title, link or summary becomes "" and a missing published date "N/A" |
| Aggregator.Relevant | aggregator.py:53-54 | no entry is relevant under an empty keyword list, nor when its title and its summary are both missing or empty |
| Aggregator.GetGpStakeNews | aggregator.py:36-66 | the nested loops return exactly `AllRows`: for each feed in order, the defaulted row of each relevant entry it handled, in entry order |
| Aggregator.EntryRowsMembership | aggregator.py:47-61 | a row comes from a feed exactly when it is the row, with defaults "", "", "" and "N/A", of an entry whose title or summary passes the keyword test |
| Aggregator.AllRowsMembership | aggregator.py:40-64 | a row is in the output exactly when some feed handled a relevant entry whose row it is, carrying that feed's name as Source |
| Aggregator.EntryRowsAppend | aggregator.py:47-61 | rows keep entry order: the rows of a concatenation of entry lists are the concatenation of their rows |
| Aggregator.AllRowsAppend | aggregator.py:40-64 | rows keep feed order: the rows of a concatenation of feed lists are the concatenation of their rows |
| Aggregator.RaisingFeedIsContained | aggregator.py:42-64 | a feed whose processing raises contributes only the rows of the entries handled before the exception, and the following feeds are still processed |
| Patterns.MatchDealAt | scrape_gp_stake_news.py:13 | a deal-term match found at i starts with the `$` at i, its group starts right after it and is non-empty, and it ends inside the text (full correctness is `DealScanCorrect`) |
| Patterns.MatchDateAt | scrape_gp_stake_news.py:14 | a date match found at i starts at a word boundary with `on` or `in` and a whitespace character, and its group starts right after them (full correctness is `DateScanCorrect`) |
| Patterns.MatchPartyAt | scrape_gp_stake_news.py:15 | a party match found at i starts at a word boundary, and its group starts after a whitespace character inside the text (full correctness is `PartyScanCorrect`) |
| Patterns.DealScanCorrect | scrape_gp_stake_news.py:13 | the deal-term scanner's result at a position is a match of the deal-term pattern (a `$`, digits with at most one dot, one whitespace character, and million, billion, M or B in any letter case) starting there; every other match there has the same group start and ends no later; it finds none only where none starts |
| Patterns.DateScanCorrect | scrape_gp_stake_news.py:14 | the same for the transaction-date pattern: at a word boundary, `on` or `in`, one whitespace character, a capitalised English month name, whitespace, one or two digits, a comma, whitespace and four digits |
| Patterns.PartyScanCorrect | scrape_gp_stake_news.py:15 | the same for the party pattern: at a word boundary, acquired, invested in or sold to, one whitespace character, then letters, digits, whitespace, commas, ampersands and hyphens ending in Inc, Corp, LLC, Ltd, Group or Holdings. The greedy name run gives characters back only as far as the last suffix |
| Patterns.MatchAtCorrect | scrape_gp_stake_news.py:13-15 | the correctness of the three scanners, stated once for any of the patterns |
| Patterns.MonthNamesPrefixFree | scrape_gp_stake_news.py:14 | two month names that both occur at one position are the same name, so the month alternation has one answer |
| Patterns.MatchReachingEnd | scrape_gp_stake_news.py:13-15 | a match that runs to the end of the text is the match the scanner finds at its start |
| Patterns.FindAllFrom | scrape_gp_stake_news.py:13-15 | every span the `re.findall` scan returns lies in the scanned part of the text, with a non-empty group after its start |
| Patterns.FindAllFromCorrect | scrape_gp_stake_news.py:13-15 | `re.findall`'s scan returns matches found by the scanner, in text order and not overlapping, and every position where a match starts lies inside one of them |
| Patterns.SearchFrom | scrape_gp_stake_news.py:14 | the span `re.search` returns lies in the scanned part of the text, with a non-empty group after its start |
| Patterns.SearchFromCorrect | scrape_gp_stake_news.py:14 | `re.search` returns the match at the first position where one starts, and none exactly when no position has one |
| Patterns.SearchIsFirstFound | scrape_gp_stake_news.py:13-15 | `re.search` finds the first of the matches `re.findall` finds |
| Patterns.FindAll | scrape_gp_stake_news.py:13-15 | `re.findall` returns one string per match the scan finds, and none of them is empty |
| Patterns.FoundMatch | scrape_gp_stake_news.py:13-15 | the k-th string `re.findall` returns is group 1 of a match of the pattern |
| Patterns.DealGroupIsDealTerm | scrape_gp_stake_news.py:13 | group 1 of a deal-term match follows a `$` and is an amount, one whitespace character and a unit |
| Patterns.PartyGroupIsPartyName | scrape_gp_stake_news.py:15 | group 1 of a party match uses only the name characters and ends in a corporate suffix |
| DealExtraction.ExtractDealInfo | scrape_gp_stake_news.py:7-21 | no field is empty; each field is "N/A" exactly when its pattern matches nowhere; otherwise the deal terms and the parties are all groups `re.findall` finds joined by ", ", and the transaction date is group 1 of the first match |
| DealExtraction.DealTermsField | scrape_gp_stake_news.py:13-18 | "N/A" exactly when no deal term matches, else the joined groups |
| DealExtraction.DateField | scrape_gp_stake_news.py:14-19 | "N/A" exactly when no date matches, else group 1 of the match `re.search` finds |
| DealExtraction.PartiesField | scrape_gp_stake_news.py:15-20 | "N/A" exactly when no party matches, else the joined groups |
| DealExtraction.FoundIffAnyMatch | scrape_gp_stake_news.py:18-20 | `re.findall` returns a non-empty list exactly when a match starts somewhere in the text |
| DealExtraction.DealTermsWellFormed | scrape_gp_stake_news.py:13 | every deal term returned is an amount, whitespace and a unit, right after a `$`, in the order of the text |
| DealExtraction.PartyNamesWellFormed | scrape_gp_stake_news.py:15 | every party returned consists of name characters and ends with a corporate suffix |
| DealExtraction.DealTermsAreNotSentinel | scrape_gp_stake_news.py:18 | joined deal terms never read "N/A", so the sentinel is unambiguous |
| DealExtraction.PartiesAreNotSentinel | scrape_gp_stake_news.py:20 | joined party names never read "N/A" |
| DealExtraction.DealTermNeedsWhitespace | scrape_gp_stake_news.py:13 | a text without whitespace yields no deal term |
| DealExtraction.CompactAmountIsMissed | scrape_gp_stake_news.py:13 | "$500M" yields "N/A" for the deal terms |
| DealExtraction.DateIsNotValidated | scrape_gp_stake_news.py:14-19 | after "on " or "in ", any month name, two digits of any value and four digits are taken as the date, whatever follows |
| DealExtraction.GreedyPartyTakesTheRest | scrape_gp_stake_news.py:15-20 | after a verb, a run of name characters ending in a suffix is one party, even when it holds a second verb and name |
| DealExtraction.OnlyMatchToEnd | scrape_gp_stake_news.py:13-15 | when the match at the start of the text runs to its end, `re.findall` returns just its group |
| Dates.DaysInMonth | scrape_gp_stake_news.py:54 | a month has 28 to 31 days, and 29 exactly for February of a Gregorian leap year |
| Dates.MonthPrefix | scrape_gp_stake_news.py:54 | the month found is the first, from the given one on, whose name starts the text in any letter case; none only when no name does |
| Dates.ParseLongDate | scrape_gp_stake_news.py:54-57 | a date `strptime` returns is a valid date |
| Dates.ParseLongDateSound | scrape_gp_stake_news.py:54 | a date `strptime` returns is spelled by the text in the layout `'%B %d, %Y'` |
| Dates.ParseLaidOut | scrape_gp_stake_news.py:54 | a text laid out as `'%B %d, %Y'` that spells a valid date parses to that date |
| Dates.ParseLongDateIff | scrape_gp_stake_news.py:52-57 | `strptime` returns d exactly when the text spells d in the format and d is a valid date; otherwise `ValueError` |
| Dates.SpellsUnique | scrape_gp_stake_news.py:54 | a text spells at most one date |
| Dates.ImpossibleDateRejected | scrape_gp_stake_news.py:52-57 | a text in the format that names a day the month lacks, or year 0, raises `ValueError` |
| Dates.LongDateRoundTrip | scrape_gp_stake_news.py:54 | every valid date written as `'%B %d, %Y'` parses back to itself |
| Dates.Pad2 | scrape_gp_stake_news.py:65 | `%m`/`%d`: two digits whose value is the number |
| Dates.Pad4 | scrape_gp_stake_news.py:65 | `%Y`: four digits whose value is the year |
| Dates.FormatIso | scrape_gp_stake_news.py:65 | `strftime('%Y-%m-%d')` gives ten characters with dashes at positions 4 and 7 (the digits are `Pad4` and `Pad2`, the round trip `IsoRoundTrip`) |
| Dates.IsoRoundTrip | scrape_gp_stake_news.py:65 | the `%Y-%m-%d` text of a date reads back as that date |
| Dates.IsoCanonical | scrape_gp_stake_news.py:65 | every text that reads back as a date is that date's `%Y-%m-%d` text |
| Dates.MidnightAtOrAfter | scrape_gp_stake_news.py:54-60 | the parsed date, at midnight, is at or after the cutoff exactly when it is a later day, or the cutoff's day with the cutoff at midnight |
| Scraper.BlockStep | scrape_gp_stake_news.py:39-69 | a kept block has all four elements and a date that parses, and its row carries its title, its `href` and a ten-character date (when it raises is `RaisesIff`) |
| Scraper.ScrapeNewsSource | scrape_gp_stake_news.py:23-74 | the loop returns exactly `ScrapeResult`: [] when the fetch fails, otherwise the outcome of the blocks in order |
| Scraper.ScrapeBlocksAppend | scrape_gp_stake_news.py:38-69 | blocks are handled in document order: an exception in the first stretch ends the call, otherwise the rows of both stretches follow each other |
| Scraper.KeyErrorIff | scrape_gp_stake_news.py:44-48 | the call raises `KeyError` exactly when some block with all four elements has a link without `href` |
| Scraper.RaisesIff | scrape_gp_stake_news.py:44-48 | one block raises exactly when it is complete and its link has no `href` |
| Scraper.RowsMembership | scrape_gp_stake_news.py:38-69 | a row is returned exactly when some block's step keeps it, and there are never more rows than blocks |
| Scraper.BlockKeptIff | scrape_gp_stake_news.py:44-61 | a block is kept exactly when it is complete, its link has an `href`, its date text spells a valid date, and that date is after the cutoff's day, or is the cutoff's day with the cutoff at midnight |
| Scraper.KeptRow | scrape_gp_stake_news.py:47-69 | a kept block's row carries its title, its `href`, the parsed date as `YYYY-MM-DD`, and the three fields `extract_deal_info` gives for its content |
| Scraper.SkippedBlockVanishes | scrape_gp_stake_news.py:44-57 | removing a skipped block (incomplete, unparseable date, or before the cutoff) changes nothing |
| Scraper.RowsWellFormed | scrape_gp_stake_news.py:60-69 | every returned row has a `YYYY-MM-DD` date that reads back as a date passing the cutoff, and three non-empty deal fields |

## Left out

- The network, with `requests.get`, its timeout and `raise_for_status`, is not modelled. So are `feedparser.parse` and `BeautifulSoup`. Their outcomes are inputs: the `Fetch` and `Page` datatypes.
- Which call inside a feed's `try` raises, and why, is not modelled. The model keeps only how many entries were handled before the exception.
- `get_text(strip=True)` is not modelled: a block holds its elements' text already stripped.
- The `rss_feeds` dictionary, the URL list and the `keywords` list (aggregator.py:19-23, used at line 54) are parameters: the feeds in dictionary order, the page, and the keyword list. `Keywords.GpStakeKeywords` holds the configured keywords.
- `print` calls are left out. This includes the bozo warning, which has no other effect.
- The `pandas` DataFrame, the CSV file and its directory, and the `__main__` blocks are left out. They are output handling outside the filtering logic.
- `datetime.now()` and `timedelta(days=365)` are left out. The cutoff is a parameter of `scrape_news_source` in the model.
- Strings.Lower: maps ASCII letters only. Python's `str.lower` also maps other Unicode letters and can change a string's length (e.g. `'İ'`). Full Unicode case tables are out of scope.
- Keywords.CheckForKeywords: lower-cases with the ASCII mapping of `Strings.Lower` for the same reason, so non-ASCII case differences count as different.
- Patterns.DealScanCorrect: `\d` is ASCII digits only, and IGNORECASE folds only ASCII units. Python's `str` patterns also accept other Unicode decimal digits.
- Patterns.DateScanCorrect: `\b` uses ASCII `\w`, and `\d` is ASCII digits. Python's `\w` and `\d` are Unicode-aware. `\s` follows Python's `str.isspace`.
- Patterns.PartyScanCorrect: `\b` uses ASCII `\w`, the same restriction as the date pattern.
- Dates.ParseLongDate: `%d`, `%Y` and month-name case folding are ASCII only. `strptime` compiles Unicode-aware `\d` and IGNORECASE, for the same reason as above.
- Dates.FormatIso: always pads the year to four digits. CPython's `strftime('%Y')` may write years below 1000 without padding, depending on the platform's C library.
- The timezone is not modelled: naive `datetime` values are compared, as in the code.
