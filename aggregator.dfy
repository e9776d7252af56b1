/** The feed-entry filter of the aggregator (`get_gp_stake_news`, aggregator.py). Fetching and
    parsing a feed is replaced by its outcome: the entries the parser returned, or the entries the
    loop got through before an exception ended that feed. */
module Aggregator {
  import opened Wrappers
  import opened Keywords

  /** One feed entry; a field the entry lacks is `None`. */
  datatype Entry = Entry(title: Option<string>, summary: Option<string>,
                         link: Option<string>, published: Option<string>)

  /** What processing one feed comes to. `Raised(seen)`: an exception ended the feed's `try`
      after the loop had handled the entries `seen` (empty when fetching or parsing failed). */
  datatype Fetch = Parsed(entries: seq<Entry>) | Raised(seen: seq<Entry>)

  /** A configured source, by name, with the outcome of fetching it. */
  datatype Feed = Feed(name: string, fetch: Fetch)

  /** One output row, in the column order Source, Title, Link, Published, Summary. */
  datatype Article = Article(source: string, title: string, link: string,
                             published: string, summary: string)

  /** The entries whose rows can reach the output. */
  function Handled(f: Fetch): seq<Entry> {
    match f
    case Parsed(es) => es
    case Raised(seen) => seen
  }

  /** The row an entry becomes, with the defaults for missing fields. */
  function Row(source: string, e: Entry): (r: Article)
    ensures r.source == source
    ensures e.title.Some? ==> r.title == e.title.value
    ensures e.title.None? ==> r.title == ""
    ensures e.link.Some? ==> r.link == e.link.value
    ensures e.link.None? ==> r.link == ""
    ensures e.published.Some? ==> r.published == e.published.value
    ensures e.published.None? ==> r.published == "N/A"
    ensures e.summary.Some? ==> r.summary == e.summary.value
    ensures e.summary.None? ==> r.summary == ""
  {
    Article(source, e.title.GetOr(""), e.link.GetOr(""), e.published.GetOr("N/A"), e.summary.GetOr(""))
  }

  /** An entry is kept when its title or its summary passes the keyword matcher. */
  predicate Relevant(e: Entry, keywords: seq<string>)
    ensures keywords == [] ==> !Relevant(e, keywords)
    ensures e.title.GetOr("") == "" && e.summary.GetOr("") == "" ==> !Relevant(e, keywords)
  {
    CheckForKeywords(e.title.GetOr(""), keywords) || CheckForKeywords(e.summary.GetOr(""), keywords)
  }

  /** The rows one feed contributes, in entry order. */
  function EntryRows(source: string, es: seq<Entry>, keywords: seq<string>): seq<Article> {
    if es == [] then []
    else
      var e := es[|es| - 1];
      EntryRows(source, es[..|es| - 1], keywords) + (if Relevant(e, keywords) then [Row(source, e)] else [])
  }

  /** The rows of all feeds, in feed order. */
  function AllRows(feeds: seq<Feed>, keywords: seq<string>): seq<Article> {
    if feeds == [] then []
    else
      var f := feeds[|feeds| - 1];
      AllRows(feeds[..|feeds| - 1], keywords) + EntryRows(f.name, Handled(f.fetch), keywords)
  }

  /** `get_gp_stake_news`: the nested loops over feeds and entries, appending matching rows. */
  method GetGpStakeNews(feeds: seq<Feed>, keywords: seq<string>) returns (articles: seq<Article>)
    ensures articles == AllRows(feeds, keywords)
  {
    articles := [];
    var i := 0;
    while i < |feeds|
      invariant 0 <= i <= |feeds|
      invariant articles == AllRows(feeds[..i], keywords)
    {
      var source := feeds[i].name;
      // the entries the loop gets through before the feed finishes or raises
      var entries := Handled(feeds[i].fetch);
      ghost var before := articles;
      var j := 0;
      while j < |entries|
        invariant 0 <= j <= |entries|
        invariant articles == before + EntryRows(source, entries[..j], keywords)
      {
        var entry := entries[j];
        EntryRowsStep(source, entries, j, keywords);
        var title := entry.title.GetOr("");
        var summary := entry.summary.GetOr("");
        var link := entry.link.GetOr("");
        var published := entry.published.GetOr("N/A");
        if CheckForKeywords(title, keywords) || CheckForKeywords(summary, keywords) {
          assert Relevant(entry, keywords);
          articles := articles + [Article(source, title, link, published, summary)];
        } else {
          assert !Relevant(entry, keywords);
        }
        j := j + 1;
      }
      assert entries[..j] == entries;
      AllRowsStep(feeds, i, keywords);
      i := i + 1;
    }
    assert feeds[..i] == feeds;
  }

  /** One more entry: the rows so far, then that entry's row if it is relevant. */
  lemma EntryRowsStep(source: string, es: seq<Entry>, j: nat, keywords: seq<string>)
    requires j < |es|
    ensures EntryRows(source, es[..j + 1], keywords) ==
            EntryRows(source, es[..j], keywords) + (if Relevant(es[j], keywords) then [Row(source, es[j])] else [])
  {
    assert es[..j + 1][..j] == es[..j];
  }

  /** One more feed: the rows so far, then that feed's rows. */
  lemma AllRowsStep(feeds: seq<Feed>, i: nat, keywords: seq<string>)
    requires i < |feeds|
    ensures AllRows(feeds[..i + 1], keywords) ==
            AllRows(feeds[..i], keywords) + EntryRows(feeds[i].name, Handled(feeds[i].fetch), keywords)
  {
    assert feeds[..i + 1][..i] == feeds[..i];
  }

  /** Rows keep entry order: the rows of a concatenation are the concatenated rows. */
  lemma {:induction false} EntryRowsAppend(source: string, a: seq<Entry>, b: seq<Entry>, keywords: seq<string>)
    ensures EntryRows(source, a + b, keywords) == EntryRows(source, a, keywords) + EntryRows(source, b, keywords)
    decreases |b|
  {
    if b != [] {
      assert (a + b)[..|a + b| - 1] == a + b[..|b| - 1];
      EntryRowsAppend(source, a, b[..|b| - 1], keywords);
    } else {
      assert a + b == a;
    }
  }

  /** Rows keep feed order: the rows of a concatenation of feed lists are the concatenated rows. */
  lemma {:induction false} AllRowsAppend(a: seq<Feed>, b: seq<Feed>, keywords: seq<string>)
    ensures AllRows(a + b, keywords) == AllRows(a, keywords) + AllRows(b, keywords)
    decreases |b|
  {
    if b != [] {
      assert (a + b)[..|a + b| - 1] == a + b[..|b| - 1];
      AllRowsAppend(a, b[..|b| - 1], keywords);
    } else {
      assert a + b == a;
    }
  }

  /** `a` is the row of entry `k` of `es`, which is relevant. */
  predicate EntryRow(source: string, es: seq<Entry>, keywords: seq<string>, k: int, a: Article) {
    0 <= k < |es| && Relevant(es[k], keywords) && a == Row(source, es[k])
  }

  /** A row comes from one feed exactly when it is the defaulted row of a relevant entry of it. */
  lemma {:induction false} EntryRowsMembership(source: string, es: seq<Entry>, keywords: seq<string>, a: Article)
    ensures a in EntryRows(source, es, keywords) <==> exists k :: EntryRow(source, es, keywords, k, a)
  {
    if es != [] {
      var init := es[..|es| - 1];
      EntryRowsMembership(source, init, keywords, a);
      if k :| EntryRow(source, init, keywords, k, a) {
        assert es[k] == init[k];
        assert EntryRow(source, es, keywords, k, a);
      }
      if k :| EntryRow(source, es, keywords, k, a) {
        if k < |init| {
          assert init[k] == es[k];
          assert EntryRow(source, init, keywords, k, a);
        } else {
          assert EntryRows(source, es, keywords) == EntryRows(source, init, keywords) + [a];
        }
      }
      if a in EntryRows(source, es, keywords) && a !in EntryRows(source, init, keywords) {
        assert EntryRow(source, es, keywords, |es| - 1, a);
      }
    }
  }

  /** `a` is the row of the relevant entry `k` that feed `i` handled, with that feed's name. */
  predicate FeedRow(feeds: seq<Feed>, keywords: seq<string>, i: int, k: int, a: Article) {
    0 <= i < |feeds| && EntryRow(feeds[i].name, Handled(feeds[i].fetch), keywords, k, a)
  }

  /** Every output row is the defaulted row of a relevant entry that some feed handled, carrying
      that feed's name as its Source; and every such entry's row is in the output. */
  lemma {:induction false} AllRowsMembership(feeds: seq<Feed>, keywords: seq<string>, a: Article)
    ensures a in AllRows(feeds, keywords) <==> exists i, k :: FeedRow(feeds, keywords, i, k, a)
  {
    if feeds != [] {
      var init, f := feeds[..|feeds| - 1], feeds[|feeds| - 1];
      AllRowsMembership(init, keywords, a);
      EntryRowsMembership(f.name, Handled(f.fetch), keywords, a);
      if i, k :| FeedRow(init, keywords, i, k, a) {
        assert feeds[i] == init[i];
        assert FeedRow(feeds, keywords, i, k, a);
      }
      if k :| EntryRow(f.name, Handled(f.fetch), keywords, k, a) {
        assert FeedRow(feeds, keywords, |feeds| - 1, k, a);
      }
      if i, k :| FeedRow(feeds, keywords, i, k, a) {
        if i < |init| {
          assert init[i] == feeds[i];
          assert FeedRow(init, keywords, i, k, a);
        } else {
          assert EntryRow(f.name, Handled(f.fetch), keywords, k, a);
        }
      }
    }
  }

  /** A feed that raises contributes only the rows of the entries handled before the exception,
      and the feeds after it are still processed. */
  lemma RaisingFeedIsContained(before: seq<Feed>, name: string, seen: seq<Entry>, after: seq<Feed>, keywords: seq<string>)
    ensures AllRows(before + [Feed(name, Raised(seen))] + after, keywords) ==
            AllRows(before, keywords) + EntryRows(name, seen, keywords) + AllRows(after, keywords)
  {
    AllRowsAppend(before + [Feed(name, Raised(seen))], after, keywords);
    AllRowsAppend(before, [Feed(name, Raised(seen))], keywords);
    assert [Feed(name, Raised(seen))][..0] == [];
  }
}
