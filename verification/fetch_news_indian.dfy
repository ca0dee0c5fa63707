/**
  fetch_news_indian.py: load the saved article list, append the articles of
  feed entries whose GUID is new, and rewrite the whole file after every
  append. The file system is not modelled: the saved file is an input and
  the sequence of file contents written is an output.
 */
module IndianFeed {
  import opened Seqs
  import opened FeedEntries

  /** The output file as the script finds it. */
  datatype SavedFile = Missing | Undecodable | Decoded(articles: seq<Article>)

  /** The initial article list: the decoded list, or empty for a missing or undecodable file. */
  function LoadArticles(f: SavedFile): (r: seq<Article>)
    ensures f.Decoded? ==> r == f.articles
    ensures !f.Decoded? ==> r == []
  {
    if f.Decoded? then f.articles else []
  }

  /**
    The script: the saved articles stay an unchanged prefix, followed by the
    articles of the first entry of each GUID seen neither in the saved list
    nor earlier in the run; one write per appended article, each holding the
    whole list as it stood after that append.
   */
  method Collect(file: SavedFile, feeds: seq<Feed>, now: string) returns (articles: seq<Article>, writes: seq<seq<Article>>)
    ensures var existing := LoadArticles(file);
            var kept := FirstByKey(Flatten(feeds), GuidKey, GuidsOf(existing));
            && articles == existing + ArticlesOf(kept, now)
            && |writes| == |kept|
            && forall k :: 0 <= k < |writes| ==> writes[k] == articles[..|existing| + k + 1]
    ensures !file.Decoded? ==> articles == ArticlesOf(FirstByKey(Flatten(feeds), GuidKey, {}), now)
    ensures |writes| > 0 ==> writes[|writes| - 1] == articles
  {
    var existing := LoadArticles(file);
    ghost var chosen;
    articles, writes, chosen := CollectFeeds(feeds, existing, now);
    CollectDone(file, existing, chosen, articles, writes, now);
  }

  /** The outer loop over the sources, starting from the saved articles. */
  method CollectFeeds(feeds: seq<Feed>, existing: seq<Article>, now: string)
    returns (articles: seq<Article>, writes: seq<seq<Article>>, ghost chosen: seq<Sourced>)
    ensures chosen == FirstByKey(Flatten(feeds), GuidKey, GuidsOf(existing))
    ensures articles == existing + ArticlesOf(chosen, now)
    ensures |writes| == |chosen|
    ensures forall k :: 0 <= k < |writes| ==> writes[k] == articles[..|existing| + k + 1]
  {
    articles := existing;
    var seenGuids := GuidsOf(articles);
    ghost var guids0 := seenGuids;
    chosen := [];
    writes := [];
    var s := 0;
    while s < |feeds|
      invariant 0 <= s <= |feeds|
      invariant chosen == FirstByKey(Flatten(feeds[..s]), GuidKey, guids0)
      invariant articles == existing + ArticlesOf(chosen, now)
      invariant seenGuids == guids0 + KeysOf(chosen, GuidKey)
      invariant |writes| == |chosen|
      invariant forall k :: 0 <= k < |writes| ==> writes[k] == articles[..|existing| + k + 1]
    {
      assert feeds[..s + 1][..s] == feeds[..s];
      articles, writes, seenGuids, chosen :=
        CollectFeed(feeds[s], guids0, Flatten(feeds[..s]), chosen, existing, articles, writes, seenGuids, now);
      s := s + 1;
    }
    assert feeds[..s] == feeds;
  }

  /** After the last feed: the last write holds the whole list, and a fresh file keeps no GUIDs. */
  lemma CollectDone(file: SavedFile, existing: seq<Article>, chosen: seq<Sourced>, articles: seq<Article>,
                    writes: seq<seq<Article>>, now: string)
    requires existing == LoadArticles(file)
    requires articles == existing + ArticlesOf(chosen, now)
    requires |writes| == |chosen|
    requires forall k :: 0 <= k < |writes| ==> writes[k] == articles[..|existing| + k + 1]
    ensures |writes| > 0 ==> writes[|writes| - 1] == articles
    ensures !file.Decoded? ==> existing == [] && GuidsOf(existing) == {}
  {
    if |writes| > 0 {
      assert |articles| == |existing| + |writes|;
      assert writes[|writes| - 1] == articles[..|existing| + |writes|];
    }
  }

  /** The inner loop over one feed's entries, writing the file after each append. */
  method CollectFeed(feed: Feed, ghost guids0: set<Guid>, ghost done: seq<Sourced>, ghost chosen0: seq<Sourced>,
                     ghost existing: seq<Article>, articles0: seq<Article>, writes0: seq<seq<Article>>,
                     seen0: set<Guid>, now: string)
    returns (articles: seq<Article>, writes: seq<seq<Article>>, seen: set<Guid>, ghost chosen: seq<Sourced>)
    requires chosen0 == FirstByKey(done, GuidKey, guids0)
    requires articles0 == existing + ArticlesOf(chosen0, now)
    requires seen0 == guids0 + KeysOf(chosen0, GuidKey)
    requires |writes0| == |chosen0|
    requires forall k :: 0 <= k < |writes0| ==> writes0[k] == articles0[..|existing| + k + 1]
    ensures chosen == FirstByKey(done + Tag(feed), GuidKey, guids0)
    ensures articles == existing + ArticlesOf(chosen, now)
    ensures seen == guids0 + KeysOf(chosen, GuidKey)
    ensures |writes| == |chosen|
    ensures forall k :: 0 <= k < |writes| ==> writes[k] == articles[..|existing| + k + 1]
  {
    articles, writes, seen, chosen := articles0, writes0, seen0, chosen0;
    ghost var items := done;
    var k := 0;
    assert Tag(feed)[..0] == [];
    while k < |feed.entries|
      invariant 0 <= k <= |feed.entries|
      invariant items == done + Tag(feed)[..k]
      invariant chosen == FirstByKey(items, GuidKey, guids0)
      invariant articles == existing + ArticlesOf(chosen, now)
      invariant seen == guids0 + KeysOf(chosen, GuidKey)
      invariant |writes| == |chosen|
      invariant forall j :: 0 <= j < |writes| ==> writes[j] == articles[..|existing| + j + 1]
    {
      PrefixSnoc(done, Tag(feed), k);
      var x := Sourced(feed.source, feed.entries[k]);
      articles, writes, seen, chosen := CollectEntry(x, guids0, items, chosen, existing, articles, writes, seen, now);
      items := items + [x];
      k := k + 1;
    }
    assert Tag(feed)[..k] == Tag(feed);
  }

  /** The body of the inner loop: `ScanEntry`, then a write of the whole list when an article was appended. */
  method CollectEntry(x: Sourced, ghost guids0: set<Guid>, ghost items: seq<Sourced>, ghost chosen0: seq<Sourced>,
                      ghost existing: seq<Article>, articles0: seq<Article>, writes0: seq<seq<Article>>,
                      seen0: set<Guid>, now: string)
    returns (articles: seq<Article>, writes: seq<seq<Article>>, seen: set<Guid>, ghost chosen: seq<Sourced>)
    requires chosen0 == FirstByKey(items, GuidKey, guids0)
    requires articles0 == existing + ArticlesOf(chosen0, now)
    requires seen0 == guids0 + KeysOf(chosen0, GuidKey)
    requires |writes0| == |chosen0|
    requires forall k :: 0 <= k < |writes0| ==> writes0[k] == articles0[..|existing| + k + 1]
    ensures chosen == FirstByKey(items + [x], GuidKey, guids0)
    ensures articles == existing + ArticlesOf(chosen, now)
    ensures seen == guids0 + KeysOf(chosen, GuidKey)
    ensures |writes| == |chosen|
    ensures forall k :: 0 <= k < |writes| ==> writes[k] == articles[..|existing| + k + 1]
  {
    var kept;
    articles, seen, chosen, kept := ScanEntry(x, guids0, items, chosen0, existing, articles0, seen0, now);
    writes := if kept then writes0 + [articles] else writes0;
    WritesAfterEntry(existing, chosen0, articles0, writes0, chosen, articles, writes, kept, now);
  }

  /**
    After one entry the writes still hold, in order, every prefix of the
    list that ended with an appended article.
   */
  lemma WritesAfterEntry(existing: seq<Article>, chosen0: seq<Sourced>, articles0: seq<Article>, writes0: seq<seq<Article>>,
                         chosen: seq<Sourced>, articles: seq<Article>, writes: seq<seq<Article>>, kept: bool, now: string)
    requires articles0 == existing + ArticlesOf(chosen0, now)
    requires |writes0| == |chosen0|
    requires forall k :: 0 <= k < |writes0| ==> writes0[k] == articles0[..|existing| + k + 1]
    requires kept ==> |articles| == |articles0| + 1 && articles0 <= articles && |chosen| == |chosen0| + 1
    requires !kept ==> articles == articles0 && chosen == chosen0
    requires writes == if kept then writes0 + [articles] else writes0
    ensures |writes| == |chosen|
    ensures forall k :: 0 <= k < |writes| ==> writes[k] == articles[..|existing| + k + 1]
  {
    if kept {
      assert |articles0| == |existing| + |chosen0|;
      WritesExtend(writes0, articles0, articles, |existing|);
    }
  }

  /** Appending one article keeps the earlier writes prefixes of the list. */
  lemma WritesExtend(writes: seq<seq<Article>>, before: seq<Article>, after: seq<Article>, n: nat)
    requires |after| == |before| + 1 && before <= after
    requires n + |writes| == |before|
    requires forall j :: 0 <= j < |writes| ==> writes[j] == before[..n + j + 1]
    ensures forall j :: 0 <= j < |writes| + 1 ==> (writes + [after])[j] == after[..n + j + 1]
  {
    assert after[..n + |writes| + 1] == after;
    forall j | 0 <= j < |writes| ensures writes[j] == after[..n + j + 1] {
      assert before[..n + j + 1] == after[..n + j + 1];
    }
  }

  /**
    Running the script again on the file it wrote appends nothing: the
    saved list then carries every GUID the feeds carry.
   */
  lemma CollectTwiceAddsNothing(existing: seq<Article>, feeds: seq<Feed>, now: string)
    ensures var kept := FirstByKey(Flatten(feeds), GuidKey, GuidsOf(existing));
            FirstByKey(Flatten(feeds), GuidKey, GuidsOf(existing + ArticlesOf(kept, now))) == []
  {
    var kept := FirstByKey(Flatten(feeds), GuidKey, GuidsOf(existing));
    GuidsOfAppend(existing, ArticlesOf(kept, now));
    GuidsOfArticles(kept, now);
    FirstByKeyAllSeen(Flatten(feeds), GuidKey, GuidsOf(existing + ArticlesOf(kept, now)));
  }
}
