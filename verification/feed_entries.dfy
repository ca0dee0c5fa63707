/**
  The feed side shared by raw_news.py and fetch_news_indian.py: parsed RSS
  entries of the configured sources, their GUIDs, and the article record
  each new entry becomes. Feed parsing is not modelled: the parsed feeds
  are inputs, in source order.
 */
module FeedEntries {
  import opened Wrappers
  import opened Text
  import opened Seqs

  /** A parsed feed entry; a key the feed does not carry is None. */
  datatype FeedEntry = FeedEntry(id: Option<string>, link: Option<string>, title: Option<string>, published: Option<string>)

  /** An element of the configured source list. */
  datatype Source = Source(name: string, rss: string, bias: string)

  /** The entries `feedparser.parse(source["rss"])` returned for one source. */
  datatype Feed = Feed(source: Source, entries: seq<FeedEntry>)

  /** An entry together with the source whose feed listed it. */
  datatype Sourced = Sourced(source: Source, entry: FeedEntry)

  /** A GUID; None when an entry has neither `id` nor `link`, which Python keeps as a key too. */
  type Guid = Option<string>

  /** `entry.get("id", entry.get("link"))` */
  function GuidOf(e: FeedEntry): (g: Guid)
    ensures e.id.Some? ==> g == e.id
    ensures e.id.None? ==> g == e.link
    ensures g.Some? <==> e.id.Some? || e.link.Some?
  {
    if e.id.Some? then e.id else e.link
  }

  function GuidKey(s: Sourced): Guid {
    GuidOf(s.entry)
  }

  /** The stored article; `createdAt` and `updatedAt` both hold the clock reading `now`. */
  datatype Article = Article(
    title: Option<string>,
    normalizedTitle: string,
    link: Option<string>,
    source: string,
    bias: string,
    publishedAt: string,
    guid: Guid,
    createdAt: string,
    updatedAt: string)

  /** The article dictionary built for a new entry. */
  function ArticleOf(s: Sourced, now: string): (a: Article)
    ensures a.guid == GuidKey(s)
    ensures IsLower(a.normalizedTitle)
  {
    var e := s.entry;
    Article(e.title, Lower(e.title.GetOr("")), e.link, s.source.name, s.source.bias,
            e.published.GetOr(""), GuidOf(e), now, now)
  }

  /**
    `normalizedTitle` is the title up to case: entries whose titles differ
    only in letter case get the same normalized title, and a title already
    in lower case is kept as it is.
   */
  lemma NormalizedTitleIgnoresCase(s: Sourced, t: Sourced, now: string)
    requires Lower(s.entry.title.GetOr("")) == Lower(t.entry.title.GetOr(""))
    ensures ArticleOf(s, now).normalizedTitle == ArticleOf(t, now).normalizedTitle
    ensures IsLower(s.entry.title.GetOr("")) ==> ArticleOf(s, now).normalizedTitle == s.entry.title.GetOr("")
  {
    if IsLower(s.entry.title.GetOr("")) {
      LowerOfLower(s.entry.title.GetOr(""));
    }
  }

  /** The articles built for `xs`, in order. */
  function ArticlesOf(xs: seq<Sourced>, now: string): (as_: seq<Article>)
    ensures |as_| == |xs|
    ensures forall i :: 0 <= i < |xs| ==> as_[i] == ArticleOf(xs[i], now)
  {
    seq(|xs|, i requires 0 <= i < |xs| => ArticleOf(xs[i], now))
  }

  lemma ArticlesOfSnoc(xs: seq<Sourced>, x: Sourced, now: string)
    ensures ArticlesOf(xs + [x], now) == ArticlesOf(xs, now) + [ArticleOf(x, now)]
  {
  }

  /** The entries of one feed, each paired with its source. */
  function Tag(f: Feed): (items: seq<Sourced>)
    ensures |items| == |f.entries|
    ensures forall i :: 0 <= i < |items| ==> items[i] == Sourced(f.source, f.entries[i])
  {
    seq(|f.entries|, i requires 0 <= i < |f.entries| => Sourced(f.source, f.entries[i]))
  }

  /** The visiting order of the two nested loops: every source in order, each feed's entries in order. */
  function Flatten(feeds: seq<Feed>): seq<Sourced>
    decreases |feeds|
  {
    if |feeds| == 0 then [] else Flatten(feeds[..|feeds| - 1]) + Tag(feeds[|feeds| - 1])
  }

  /** An entry is visited exactly when some source's feed lists it, paired with that source. */
  lemma {:induction false} FlattenMembership(feeds: seq<Feed>, s: Sourced)
    ensures s in Flatten(feeds) <==> exists k :: 0 <= k < |feeds| && feeds[k].source == s.source && s.entry in feeds[k].entries
    decreases |feeds|
  {
    if |feeds| > 0 {
      var n := |feeds| - 1;
      FlattenMembership(feeds[..n], s);
      assert forall k :: 0 <= k < n ==> feeds[..n][k] == feeds[k];
      if s in Tag(feeds[n]) {
        var i :| 0 <= i < |Tag(feeds[n])| && Tag(feeds[n])[i] == s;
        assert s.entry == feeds[n].entries[i];
      }
      if feeds[n].source == s.source && s.entry in feeds[n].entries {
        var i :| 0 <= i < |feeds[n].entries| && feeds[n].entries[i] == s.entry;
        assert Tag(feeds[n])[i] == s;
      }
    }
  }

  /** The GUIDs of stored articles: `{a.get("guid") for a in articles}`. */
  function GuidsOf(articles: seq<Article>): set<Guid> {
    set a | a in articles :: a.guid
  }

  /** The articles of the new entries carry exactly the GUIDs of those entries. */
  lemma GuidsOfArticles(xs: seq<Sourced>, now: string)
    ensures GuidsOf(ArticlesOf(xs, now)) == KeysOf(xs, GuidKey)
  {
    var as_ := ArticlesOf(xs, now);
    forall g | g in GuidsOf(as_) ensures g in KeysOf(xs, GuidKey) {
      var a :| a in as_ && a.guid == g;
      var i :| 0 <= i < |as_| && as_[i] == a;
      assert xs[i] in xs;
    }
    forall g | g in KeysOf(xs, GuidKey) ensures g in GuidsOf(as_) {
      var x :| x in xs && GuidKey(x) == g;
      var i :| 0 <= i < |xs| && xs[i] == x;
      assert as_[i] in as_;
    }
  }

  lemma GuidsOfAppend(a: seq<Article>, b: seq<Article>)
    ensures GuidsOf(a + b) == GuidsOf(a) + GuidsOf(b)
  {
    forall g | g in GuidsOf(a + b) ensures g in GuidsOf(a) + GuidsOf(b) {
      var x :| x in a + b && x.guid == g;
    }
  }

  /**
    The body of the inner loop of both feed scripts, continuing the scan
    over the entries `items` visited before: an entry whose GUID is in
    `seen` is skipped; otherwise its article is appended to the running list
    (which holds `base` followed by the kept articles) and its GUID is added.
   */
  method ScanEntry(x: Sourced, ghost existing: set<Guid>, ghost items: seq<Sourced>, ghost chosen0: seq<Sourced>,
                   ghost base: seq<Article>, articles0: seq<Article>, seen0: set<Guid>, now: string)
    returns (articles: seq<Article>, seen: set<Guid>, ghost chosen: seq<Sourced>, kept: bool)
    requires chosen0 == FirstByKey(items, GuidKey, existing)
    requires articles0 == base + ArticlesOf(chosen0, now)
    requires seen0 == existing + KeysOf(chosen0, GuidKey)
    ensures chosen == FirstByKey(items + [x], GuidKey, existing)
    ensures articles == base + ArticlesOf(chosen, now)
    ensures seen == existing + KeysOf(chosen, GuidKey)
    ensures kept <==> GuidKey(x) !in seen0
    ensures kept ==> articles == articles0 + [ArticleOf(x, now)] && chosen == chosen0 + [x]
    ensures !kept ==> articles == articles0 && seen == seen0 && chosen == chosen0
  {
    articles, seen, chosen := articles0, seen0, chosen0;
    var guid := GuidOf(x.entry);
    kept := guid !in seen;
    if kept {
      KeepStep(x, existing, items, chosen0, seen0);
      KeepRecords(x, existing, chosen0, base, articles0, seen0, now);
      articles := articles + [ArticleOf(x, now)];
      seen := seen + {guid};
      chosen := chosen + [x];
    } else {
      SkipStep(x, existing, items, chosen0, seen0);
    }
  }

  /** An entry whose GUID was seen leaves the scan unchanged. */
  lemma SkipStep(x: Sourced, existing: set<Guid>, items: seq<Sourced>, chosen0: seq<Sourced>, seen0: set<Guid>)
    requires chosen0 == FirstByKey(items, GuidKey, existing)
    requires seen0 == existing + KeysOf(chosen0, GuidKey)
    requires GuidKey(x) in seen0
    ensures FirstByKey(items + [x], GuidKey, existing) == chosen0
  {
    FirstByKeySnoc(items, x, GuidKey, existing);
  }

  /** An entry with an unseen GUID is appended to the scan. */
  lemma KeepStep(x: Sourced, existing: set<Guid>, items: seq<Sourced>, chosen0: seq<Sourced>, seen0: set<Guid>)
    requires chosen0 == FirstByKey(items, GuidKey, existing)
    requires seen0 == existing + KeysOf(chosen0, GuidKey)
    requires GuidKey(x) !in seen0
    ensures FirstByKey(items + [x], GuidKey, existing) == chosen0 + [x]
  {
    FirstByKeySnoc(items, x, GuidKey, existing);
  }

  /** Keeping an entry appends its article to the running list and its GUID to the seen set. */
  lemma KeepRecords(x: Sourced, existing: set<Guid>, chosen0: seq<Sourced>,
                    base: seq<Article>, articles0: seq<Article>, seen0: set<Guid>, now: string)
    requires articles0 == base + ArticlesOf(chosen0, now)
    requires seen0 == existing + KeysOf(chosen0, GuidKey)
    ensures articles0 + [ArticleOf(x, now)] == base + ArticlesOf(chosen0 + [x], now)
    ensures seen0 + {GuidKey(x)} == existing + KeysOf(chosen0 + [x], GuidKey)
  {
    KeysOfSnoc(chosen0, x, GuidKey);
    ArticlesOfSnoc(chosen0, x, now);
  }
}
