/**
  raw_news.py: `fetch_rss_feeds` keeps the feed entries whose GUID is new,
  and `fetch_and_store_news` maps them to table rows and inserts those in
  batches of 500. The database is not modelled: the GUIDs already in the
  table are an input, and the inserted batches are an output.
 */
module RawNews {
  import opened Wrappers
  import opened Seqs
  import opened FeedEntries

  /** `batch_size` */
  const BatchSize := 500

  const NoNewMessage := "No new articles found"
  const StoredMessage := "Articles stored successfully"

  /** A row of the `raw_news` table: the article's fields under snake-case names, without `createdAt`. */
  datatype Row = Row(
    title: Option<string>,
    normalizedTitle: string,
    link: Option<string>,
    source: string,
    bias: string,
    publishedAt: string,
    guid: Guid,
    updatedAt: string)

  /** The dictionary `{"message": ..., "inserted": ...}`. */
  datatype StoreResult = StoreResult(message: string, inserted: nat)

  function RowOf(a: Article): Row {
    Row(a.title, a.normalizedTitle, a.link, a.source, a.bias, a.publishedAt, a.guid, a.updatedAt)
  }

  /** The rows of `articles`, one per article, in order. */
  function RowsOf(articles: seq<Article>): (rows: seq<Row>)
    ensures |rows| == |articles|
    ensures forall i :: 0 <= i < |rows| ==> rows[i] == RowOf(articles[i]) && rows[i].guid == articles[i].guid
  {
    seq(|articles|, i requires 0 <= i < |articles| => RowOf(articles[i]))
  }

  /** The entries `fetch_rss_feeds` keeps: the first of each GUID not already known, in visiting order. */
  function Fresh(feeds: seq<Feed>, existing: set<Guid>): seq<Sourced> {
    FirstByKey(Flatten(feeds), GuidKey, existing)
  }

  /**
    `fetch_rss_feeds`: the new articles, none with a GUID from `existing`
    and no two with the same GUID; `seen` is the caller's set after the
    call, grown by exactly the returned GUIDs, and then holds every GUID the
    feeds carry.
   */
  method FetchRssFeeds(feeds: seq<Feed>, existing: set<Guid>, now: string) returns (newArticles: seq<Article>, seen: set<Guid>)
    ensures newArticles == ArticlesOf(Fresh(feeds, existing), now)
    ensures forall i :: 0 <= i < |newArticles| ==> newArticles[i].guid !in existing
    ensures forall i, j :: 0 <= i < j < |newArticles| ==> newArticles[i].guid != newArticles[j].guid
    ensures seen == existing + GuidsOf(newArticles)
    ensures KeysOf(Flatten(feeds), GuidKey) <= seen
  {
    ghost var chosen: seq<Sourced> := [];
    newArticles := [];
    seen := existing;
    var s := 0;
    while s < |feeds|
      invariant 0 <= s <= |feeds|
      invariant chosen == FirstByKey(Flatten(feeds[..s]), GuidKey, existing)
      invariant newArticles == ArticlesOf(chosen, now)
      invariant seen == existing + KeysOf(chosen, GuidKey)
    {
      assert feeds[..s + 1][..s] == feeds[..s];
      newArticles, seen, chosen := ScanFeed(feeds[s], existing, Flatten(feeds[..s]), chosen, newArticles, seen, now);
      s := s + 1;
    }
    assert feeds[..s] == feeds;
    GuidsOfArticles(chosen, now);
  }

  /**
    The inner loop of `fetch_rss_feeds` over one feed's entries, continuing
    the scan over the entries `done` visited before: an entry is kept when
    its GUID is not yet in `seen`, and its GUID is then added.
   */
  method ScanFeed(feed: Feed, existing: set<Guid>, ghost done: seq<Sourced>, ghost chosen0: seq<Sourced>,
                  articles0: seq<Article>, seen0: set<Guid>, now: string)
    returns (newArticles: seq<Article>, seen: set<Guid>, ghost chosen: seq<Sourced>)
    requires chosen0 == FirstByKey(done, GuidKey, existing)
    requires articles0 == ArticlesOf(chosen0, now)
    requires seen0 == existing + KeysOf(chosen0, GuidKey)
    ensures chosen == FirstByKey(done + Tag(feed), GuidKey, existing)
    ensures newArticles == ArticlesOf(FirstByKey(done + Tag(feed), GuidKey, existing), now)
    ensures seen == existing + KeysOf(FirstByKey(done + Tag(feed), GuidKey, existing), GuidKey)
  {
    newArticles, seen, chosen := articles0, seen0, chosen0;
    ghost var items := done;
    var k := 0;
    assert Tag(feed)[..0] == [];
    while k < |feed.entries|
      invariant 0 <= k <= |feed.entries|
      invariant items == done + Tag(feed)[..k]
      invariant chosen == FirstByKey(items, GuidKey, existing)
      invariant newArticles == ArticlesOf(chosen, now)
      invariant seen == existing + KeysOf(chosen, GuidKey)
    {
      PrefixSnoc(done, Tag(feed), k);
      var x := Sourced(feed.source, feed.entries[k]);
      ghost var kept;
      newArticles, seen, chosen, kept := ScanEntry(x, existing, items, chosen, [], newArticles, seen, now);
      items := items + [x];
      k := k + 1;
    }
    assert Tag(feed)[..k] == Tag(feed);
  }

  /**
    `fetch_and_store_news`: nothing new gives "No new articles found" and no
    insert; otherwise the rows of the new articles, in order, are inserted
    in batches of at most 500 (all full but the last), and `inserted` is the
    number of rows.
   */
  method FetchAndStore(stored: seq<Guid>, feeds: seq<Feed>, now: string) returns (result: StoreResult, batches: seq<seq<Row>>)
    ensures var kept := Fresh(feeds, AsSet(stored));
            && (|kept| == 0 <==> result == StoreResult(NoNewMessage, 0))
            && (|kept| == 0 ==> batches == [])
            && (|kept| > 0 ==> result == StoreResult(StoredMessage, |kept|))
            && Concat(batches) == RowsOf(ArticlesOf(kept, now))
    ensures forall k :: 0 <= k < |batches| ==> 0 < |batches[k]| <= BatchSize
    ensures forall k :: 0 <= k < |batches| - 1 ==> |batches[k]| == BatchSize
  {
    var existing := AsSet(stored);
    var newArticles, _ := FetchRssFeeds(feeds, existing, now);
    if |newArticles| == 0 {
      return StoreResult(NoNewMessage, 0), [];
    }
    var rows := RowsOf(newArticles);
    var inserted;
    batches, inserted := InsertBatches(rows);
    result := StoreResult(StoredMessage, inserted);
  }

  /**
    The insert loop: `rows[i:i + 500]` for `i` in `range(0, len(rows), 500)`;
    the batches are non-empty, all full but the last, concatenate to the
    rows, and `inserted` counts every row.
   */
  method InsertBatches(rows: seq<Row>) returns (batches: seq<seq<Row>>, inserted: nat)
    ensures Concat(batches) == rows
    ensures inserted == |rows|
    ensures forall k :: 0 <= k < |batches| ==> 0 < |batches[k]| <= BatchSize
    ensures forall k :: 0 <= k < |batches| - 1 ==> |batches[k]| == BatchSize
  {
    batches := [];
    inserted := 0;
    var i := 0;
    while i < |rows|
      invariant 0 <= i <= |rows| + BatchSize
      invariant i == |batches| * BatchSize
      invariant Concat(batches) == rows[..Min(i, |rows|)]
      invariant inserted == Min(i, |rows|)
      invariant forall k :: 0 <= k < |batches| ==> 0 < |batches[k]| <= BatchSize
      invariant forall k :: 0 <= k < |batches| - 1 ==> |batches[k]| == BatchSize
      invariant i <= |rows| ==> forall k :: 0 <= k < |batches| ==> |batches[k]| == BatchSize
      decreases |rows| - i
    {
      var batch := rows[i..Min(i + BatchSize, |rows|)];
      assert rows[..Min(i + BatchSize, |rows|)] == rows[..i] + batch;
      ConcatSnoc(batches, batch);
      batches := batches + [batch];
      inserted := inserted + |batch|;
      i := i + BatchSize;
    }
    assert rows[..|rows|] == rows;
  }

  function Min(a: int, b: int): int { if a < b then a else b }

  /** The GUIDs selected from the table, as the set comprehension builds them. */
  function AsSet(gs: seq<Guid>): set<Guid> {
    set g | g in gs
  }

  /**
    A second run against the table after a successful store finds nothing
    new: the GUIDs then stored cover every GUID of the feeds.
   */
  lemma StoreTwiceFindsNothing(stored: seq<Guid>, feeds: seq<Feed>, now: string)
    ensures var rows := RowsOf(ArticlesOf(Fresh(feeds, AsSet(stored)), now));
            Fresh(feeds, AsSet(stored + GuidsOfRows(rows))) == []
  {
    var existing := AsSet(stored);
    var kept := Fresh(feeds, existing);
    var rows := RowsOf(ArticlesOf(kept, now));
    var after := AsSet(stored + GuidsOfRows(rows));
    forall g | g in KeysOf(Flatten(feeds), GuidKey) ensures g in after {
      if g !in existing {
        assert g in KeysOf(kept, GuidKey);
        var x :| x in kept && GuidKey(x) == g;
        var i :| 0 <= i < |kept| && kept[i] == x;
        assert GuidsOfRows(rows)[i] == g;
        assert g in stored + GuidsOfRows(rows);
      } else {
        assert g in stored + GuidsOfRows(rows);
      }
    }
    FirstByKeyAllSeen(Flatten(feeds), GuidKey, after);
  }

  /** The `guid` column of `rows`, in order. */
  function GuidsOfRows(rows: seq<Row>): (gs: seq<Guid>)
    ensures |gs| == |rows|
    ensures forall i :: 0 <= i < |rows| ==> gs[i] == rows[i].guid
  {
    seq(|rows|, i requires 0 <= i < |rows| => rows[i].guid)
  }
}
