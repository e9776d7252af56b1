/** The block loop of `scrape_news_source` (scrape_gp_stake_news.py). Fetching the page and
    finding the article blocks in its HTML are replaced by their outcome: the fetch failed, or the
    blocks in document order, each with the stripped text of the elements it has. */
module Scraper {
  import opened Wrappers
  import opened Dates
  import opened DealExtraction

  /** The `<a class="article-link">` element, with its `href` attribute when it has one. */
  datatype LinkElement = LinkElement(href: Option<string>)

  /** One `<article class="gp-stake-news-item">` block: for each element `find` looks up, `None`
      when the block has none, else its text with surrounding whitespace stripped. */
  datatype Block = Block(title: Option<string>, link: Option<LinkElement>,
                         date: Option<string>, content: Option<string>)

  /** The page: `FetchFailed` when `requests` raised (a timeout, a connection error or an HTTP
      error status), else the article blocks in document order. */
  datatype Page = FetchFailed | Fetched(blocks: seq<Block>)

  /** One output row: Title, Link, Published Date, Deal Terms, Transaction Date, Parties Involved. */
  datatype ScrapedArticle = ScrapedArticle(title: string, link: string, publishedDate: string,
                                           dealTerms: string, transactionDate: string,
                                           partiesInvolved: string)

  /** How a call ends: it returns the rows, or the `KeyError` of a link without `href` escapes. */
  datatype Outcome = Completed(rows: seq<ScrapedArticle>) | KeyErrorRaised

  /** Running two stretches of blocks one after the other: an exception in the first ends the
      call, otherwise the rows of both follow each other. */
  function Then(first: Outcome, second: Outcome): Outcome {
    match first
    case KeyErrorRaised => KeyErrorRaised
    case Completed(rows) =>
      match second
      case KeyErrorRaised => KeyErrorRaised
      case Completed(more) => Completed(rows + more)
  }

  /** What the loop body does with one block. */
  datatype Step = Skip | Keep(row: ScrapedArticle) | RaiseKeyError

  /** The block has all four elements (`all([...])`; a found element is always truthy). */
  predicate Complete(b: Block) {
    b.title.Some? && b.link.Some? && b.date.Some? && b.content.Some?
  }

  /** The loop body for one block. The `href` lookup comes before the date is parsed. */
  function BlockStep(b: Block, cutoff: DateTime): (r: Step)
    ensures r.Keep? ==> Complete(b) && b.link.value.href == Some(r.row.link) && r.row.title == b.title.value
    ensures r.Keep? ==> ParseLongDate(b.date.value).Some? && |r.row.publishedDate| == 10
  {
    if !Complete(b) then Skip
    else if b.link.value.href.None? then RaiseKeyError
    else
      match ParseLongDate(b.date.value)
      case None => Skip
      case Some(d) =>
        if AtOrAfter(Midnight(d), cutoff) then
          var info := ExtractDealInfo(b.content.value);
          Keep(ScrapedArticle(b.title.value, b.link.value.href.value, FormatIso(d),
                              info.dealTerms, info.transactionDate, info.partiesInvolved))
        else Skip
  }

  /** The outcome of the loop over `blocks`. */
  function ScrapeBlocks(blocks: seq<Block>, cutoff: DateTime): Outcome {
    if blocks == [] then Completed([])
    else
      match ScrapeBlocks(blocks[..|blocks| - 1], cutoff)
      case KeyErrorRaised => KeyErrorRaised
      case Completed(rows) =>
        match BlockStep(blocks[|blocks| - 1], cutoff)
        case Skip => Completed(rows)
        case Keep(row) => Completed(rows + [row])
        case RaiseKeyError => KeyErrorRaised
  }

  /** The outcome of `scrape_news_source(url, last_year_date)` for the page `url` serves. */
  function ScrapeResult(page: Page, cutoff: DateTime): Outcome {
    match page
    case FetchFailed => Completed([])
    case Fetched(blocks) => ScrapeBlocks(blocks, cutoff)
  }

  /** `scrape_news_source`: the loop over the blocks, appending a row for each kept one. */
  method ScrapeNewsSource(page: Page, cutoff: DateTime) returns (r: Outcome)
    ensures r == ScrapeResult(page, cutoff)
    ensures page.FetchFailed? ==> r == Completed([])
  {
    var articles: seq<ScrapedArticle> := [];
    if page.FetchFailed? {
      // the `except requests.exceptions.RequestException` branch
      return Completed(articles);
    }
    var blocks := page.blocks;
    var i := 0;
    while i < |blocks|
      invariant 0 <= i <= |blocks|
      invariant ScrapeBlocks(blocks[..i], cutoff) == Completed(articles)
    {
      var b := blocks[i];
      ScrapeBlocksStep(blocks, i, cutoff);
      if !(b.title.Some? && b.link.Some? && b.date.Some? && b.content.Some?) {
        assert BlockStep(b, cutoff) == Skip;
        i := i + 1;
        continue;
      }
      var title := b.title.value;
      if b.link.value.href.None? {
        // `link_element['href']` raises, and nothing catches it
        ScrapeBlocksAppend(blocks[..i + 1], blocks[i + 1..], cutoff);
        assert blocks[..i + 1] + blocks[i + 1..] == blocks;
        return KeyErrorRaised;
      }
      var link := b.link.value.href.value;
      var publishDate := ParseLongDate(b.date.value);
      if publishDate.None? {
        // `ValueError`: the block is skipped
        assert BlockStep(b, cutoff) == Skip;
        i := i + 1;
        continue;
      }
      if AtOrAfter(Midnight(publishDate.value), cutoff) {
        var info := ExtractDealInfo(b.content.value);
        articles := articles + [ScrapedArticle(title, link, FormatIso(publishDate.value),
                                               info.dealTerms, info.transactionDate, info.partiesInvolved)];
      }
      i := i + 1;
    }
    assert blocks[..i] == blocks;
    return Completed(articles);
  }

  /** One more block: the loop's outcome so far, followed by that block's step. */
  lemma ScrapeBlocksStep(blocks: seq<Block>, i: nat, cutoff: DateTime)
    requires i < |blocks|
    ensures ScrapeBlocks(blocks[..i + 1], cutoff) ==
            match ScrapeBlocks(blocks[..i], cutoff)
            case KeyErrorRaised => KeyErrorRaised
            case Completed(rows) =>
              match BlockStep(blocks[i], cutoff)
              case Skip => Completed(rows)
              case Keep(row) => Completed(rows + [row])
              case RaiseKeyError => KeyErrorRaised
  {
    assert blocks[..i + 1][..i] == blocks[..i];
  }

  /** The blocks are handled in document order: the outcome of a concatenation is the first
      stretch's outcome followed by the second's. */
  lemma {:induction false} ScrapeBlocksAppend(a: seq<Block>, b: seq<Block>, cutoff: DateTime)
    ensures ScrapeBlocks(a + b, cutoff) == Then(ScrapeBlocks(a, cutoff), ScrapeBlocks(b, cutoff))
    decreases |b|
  {
    if b == [] {
      assert a + b == a;
      match ScrapeBlocks(a, cutoff)
      case KeyErrorRaised =>
      case Completed(rows) => assert rows + [] == rows;
    } else {
      assert (a + b)[..|a + b| - 1] == a + b[..|b| - 1];
      assert (a + b)[|a + b| - 1] == b[|b| - 1];
      ScrapeBlocksAppend(a, b[..|b| - 1], cutoff);
      match ScrapeBlocks(a, cutoff)
      case KeyErrorRaised =>
      case Completed(rows) =>
        match ScrapeBlocks(b[..|b| - 1], cutoff)
        case KeyErrorRaised =>
        case Completed(more) =>
          match BlockStep(b[|b| - 1], cutoff)
          case Skip =>
          case RaiseKeyError =>
          case Keep(row) => assert rows + more + [row] == rows + (more + [row]);
    }
  }

  /** The block is complete and its link has no `href`: `link_element['href']` raises. */
  predicate LacksHref(b: Block) {
    Complete(b) && b.link.value.href.None?
  }

  /** The `KeyError` escapes exactly when some block that has all four elements has a link
      without `href`; the rows appended before it are lost with the exception. */
  lemma {:induction false} KeyErrorIff(blocks: seq<Block>, cutoff: DateTime)
    ensures ScrapeBlocks(blocks, cutoff) == KeyErrorRaised <==> exists k :: 0 <= k < |blocks| && LacksHref(blocks[k])
  {
    if blocks == [] {
      assert ScrapeBlocks(blocks, cutoff) == Completed([]);
    } else {
      var init := blocks[..|blocks| - 1];
      KeyErrorIff(init, cutoff);
      KeyErrorStep(blocks, cutoff);
      RaisesIff(blocks[|blocks| - 1], cutoff);
      SomeLacksHrefStep(blocks, init);
    }
  }

  /** Some block lacks an `href` exactly when one before the last does or the last one does. */
  lemma SomeLacksHrefStep(blocks: seq<Block>, init: seq<Block>)
    requires blocks != [] && init == blocks[..|blocks| - 1]
    ensures (exists k :: 0 <= k < |blocks| && LacksHref(blocks[k])) <==>
            (exists k :: 0 <= k < |init| && LacksHref(init[k])) || LacksHref(blocks[|blocks| - 1])
  {
    if k :| 0 <= k < |init| && LacksHref(init[k]) {
      assert blocks[k] == init[k];
    }
    if k :| 0 <= k < |blocks| && LacksHref(blocks[k]) {
      if k < |init| {
        assert init[k] == blocks[k];
      }
    }
  }

  /** The loop raises by the last block exactly when it raised before it or the last block raises. */
  lemma KeyErrorStep(blocks: seq<Block>, cutoff: DateTime)
    requires blocks != []
    ensures ScrapeBlocks(blocks, cutoff) == KeyErrorRaised <==>
            ScrapeBlocks(blocks[..|blocks| - 1], cutoff) == KeyErrorRaised ||
            BlockStep(blocks[|blocks| - 1], cutoff) == RaiseKeyError
  {
  }

  /** One block raises exactly when it is complete and its link has no `href`. */
  lemma RaisesIff(b: Block, cutoff: DateTime)
    ensures BlockStep(b, cutoff) == RaiseKeyError <==> LacksHref(b)
  {
  }

  /** The rows are the rows of the kept blocks: a row is returned exactly when some block's step
      keeps it, and there are never more rows than blocks. */
  lemma RowsMembership(blocks: seq<Block>, cutoff: DateTime, rows: seq<ScrapedArticle>, r: ScrapedArticle)
    requires ScrapeBlocks(blocks, cutoff) == Completed(rows)
    ensures |rows| <= |blocks|
    ensures r in rows <==> exists k :: 0 <= k < |blocks| && BlockStep(blocks[k], cutoff) == Keep(r)
  {
    if r in rows {
      var k := BlockOfRow(blocks, cutoff, rows, r);
    }
    if k :| 0 <= k < |blocks| && BlockStep(blocks[k], cutoff) == Keep(r) {
      RowOfBlock(blocks, cutoff, rows, k, r);
    }
    RowsAtMostBlocks(blocks, cutoff, rows);
  }

  /** The block a row comes from. */
  lemma {:induction false} BlockOfRow(blocks: seq<Block>, cutoff: DateTime, rows: seq<ScrapedArticle>, r: ScrapedArticle)
    returns (k: nat)
    requires ScrapeBlocks(blocks, cutoff) == Completed(rows) && r in rows
    ensures k < |blocks| && BlockStep(blocks[k], cutoff) == Keep(r)
  {
    var i := |blocks| - 1;
    var step := BlockStep(blocks[i], cutoff);
    ScrapeBlocksStep(blocks, i, cutoff);
    assert blocks[..i + 1] == blocks;
    var before := ScrapeBlocks(blocks[..i], cutoff).rows;
    if r in before {
      k := BlockOfRow(blocks[..i], cutoff, before, r);
      assert blocks[..i][k] == blocks[k];
    } else {
      k := i;
    }
  }

  /** A kept block's row is among the rows. */
  lemma {:induction false} RowOfBlock(blocks: seq<Block>, cutoff: DateTime, rows: seq<ScrapedArticle>, k: nat, r: ScrapedArticle)
    requires ScrapeBlocks(blocks, cutoff) == Completed(rows) && k < |blocks| && BlockStep(blocks[k], cutoff) == Keep(r)
    ensures r in rows
  {
    var i := |blocks| - 1;
    ScrapeBlocksStep(blocks, i, cutoff);
    assert blocks[..i + 1] == blocks;
    assert ScrapeBlocks(blocks[..i], cutoff).Completed?;
    var before := ScrapeBlocks(blocks[..i], cutoff).rows;
    var step := BlockStep(blocks[i], cutoff);
    if step.Keep? {
      assert rows == before + [step.row];
    } else {
      assert rows == before;
    }
    if k < i {
      assert blocks[..i][k] == blocks[k];
      RowOfBlock(blocks[..i], cutoff, before, k, r);
    } else {
      assert k == i && step == Keep(r);
      assert rows[|rows| - 1] == r;
    }
  }

  /** The loop appends at most one row per block. */
  lemma {:induction false} RowsAtMostBlocks(blocks: seq<Block>, cutoff: DateTime, rows: seq<ScrapedArticle>)
    requires ScrapeBlocks(blocks, cutoff) == Completed(rows)
    ensures |rows| <= |blocks|
  {
    if blocks != [] {
      var i := |blocks| - 1;
      ScrapeBlocksStep(blocks, i, cutoff);
      assert blocks[..i + 1] == blocks;
      RowsAtMostBlocks(blocks[..i], cutoff, ScrapeBlocks(blocks[..i], cutoff).rows);
    }
  }

  /** A block is kept exactly when it has all four elements, its link has an `href`, its date
      text spells a date that exists, and that date is after the cutoff's day, or is the cutoff's
      day with the cutoff at midnight. */
  lemma BlockKeptIff(b: Block, cutoff: DateTime)
    requires ValidTime(cutoff)
    ensures BlockStep(b, cutoff).Keep? <==>
            Complete(b) && b.link.value.href.Some? &&
            exists d :: Spells(b.date.value, d) && ValidDate(d) &&
                        (DateBefore(cutoff.date, d) || (d == cutoff.date && IsMidnight(cutoff)))
  {
    KeptWhenParsed(b, cutoff);
    if Complete(b) && b.link.value.href.Some? {
      ParsedPassesIff(b.date.value, cutoff);
    }
  }

  /** The step keeps a complete block with an `href` whose date parses and passes the cutoff. */
  lemma KeptWhenParsed(b: Block, cutoff: DateTime)
    ensures BlockStep(b, cutoff).Keep? <==>
            Complete(b) && b.link.value.href.Some? && ParseLongDate(b.date.value).Some? &&
            AtOrAfter(Midnight(ParseLongDate(b.date.value).value), cutoff)
  {
  }

  /** A date text passes the cutoff exactly when it spells an existing date after the cutoff's
      day, or the cutoff's day itself with the cutoff at midnight. */
  lemma ParsedPassesIff(s: string, cutoff: DateTime)
    requires ValidTime(cutoff)
    ensures ParseLongDate(s).Some? && AtOrAfter(Midnight(ParseLongDate(s).value), cutoff) <==>
            exists d :: Spells(s, d) && ValidDate(d) &&
                        (DateBefore(cutoff.date, d) || (d == cutoff.date && IsMidnight(cutoff)))
  {
    if ParseLongDate(s).Some? {
      var d := ParseLongDate(s).value;
      ParseLongDateIff(s, d);
      MidnightAtOrAfter(d, cutoff);
    }
    forall d | Spells(s, d) && ValidDate(d)
      ensures ParseLongDate(s) == Some(d)
    {
      ParseLongDateIff(s, d);
    }
  }

  /** A kept block's row: its title, its link's `href`, the parsed date written `YYYY-MM-DD`
      (which reads back as that date), and the deal information extracted from its content. */
  lemma KeptRow(b: Block, cutoff: DateTime, r: ScrapedArticle)
    requires BlockStep(b, cutoff) == Keep(r)
    ensures Complete(b) && b.link.value.href.Some?
    ensures r.title == b.title.value && r.link == b.link.value.href.value
    ensures ParseLongDate(b.date.value).Some? && ParseIso(r.publishedDate) == ParseLongDate(b.date.value)
    ensures AtOrAfter(Midnight(ParseLongDate(b.date.value).value), cutoff)
    ensures var info := ExtractDealInfo(b.content.value);
            r.dealTerms == info.dealTerms && r.transactionDate == info.transactionDate &&
            r.partiesInvolved == info.partiesInvolved
  {
    IsoRoundTrip(ParseLongDate(b.date.value).value);
  }

  /** A block the loop skips leaves no trace: removing it changes nothing. */
  lemma SkippedBlockVanishes(before: seq<Block>, b: Block, after: seq<Block>, cutoff: DateTime)
    requires BlockStep(b, cutoff) == Skip
    ensures ScrapeBlocks(before + [b] + after, cutoff) == ScrapeBlocks(before + after, cutoff)
  {
    ScrapeBlocksAppend(before + [b], after, cutoff);
    ScrapeBlocksAppend(before, [b], cutoff);
    ScrapeBlocksAppend(before, after, cutoff);
    assert [b][..0] == [];
    match ScrapeBlocks(before, cutoff)
    case KeyErrorRaised =>
    case Completed(rows) => assert rows + [] == rows;
  }

  /** Every returned row has a `YYYY-MM-DD` date that reads back as a date passing the cutoff,
      and three non-empty deal fields. */
  lemma RowsWellFormed(blocks: seq<Block>, cutoff: DateTime, rows: seq<ScrapedArticle>)
    requires ScrapeBlocks(blocks, cutoff) == Completed(rows)
    ensures forall r <- rows :: ParseIso(r.publishedDate).Some? &&
                                AtOrAfter(Midnight(ParseIso(r.publishedDate).value), cutoff) &&
                                r.dealTerms != "" && r.transactionDate != "" && r.partiesInvolved != ""
  {
    forall r <- rows
      ensures ParseIso(r.publishedDate).Some? && AtOrAfter(Midnight(ParseIso(r.publishedDate).value), cutoff) &&
              r.dealTerms != "" && r.transactionDate != "" && r.partiesInvolved != ""
    {
      var k := BlockOfRow(blocks, cutoff, rows, r);
      KeptRow(blocks[k], cutoff, r);
    }
  }
}
