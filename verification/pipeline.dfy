/**
  The pipeline coordinator of temp_similar_news.py: `process_article` turns
  one input URL into a set of related reports from other publishers, and
  `main` drives it over the input URLs, skipping those already saved and
  persisting after every article.

  Network, model and browser calls are the fields of `Services`; the run
  state file is a `RunState` value.
 */
module Pipeline {
  import opened Wrappers
  import opened Text
  import opened Seqs
  import opened UrlIdentity
  import opened Correlation

  /** The `source` value of candidates that came from the news search. */
  const GoogleNews := "Google News"

  /** A resolved URL still containing this text did not leave the aggregator. */
  const GoogleNewsHost := "news.google.com"

  /** The outside world as `process_article` sees it. */
  datatype Services = Services(
    extract: Url -> string,                  // article body text, "" when extraction fails
    googleNews: string -> seq<Candidate>,    // `fetch_google_news(query)`
    feeds: seq<Candidate>,                   // `fetch_rss()`
    similarity: Similarity,                  // sentence embeddings + cosine similarity
    canonicalHref: Url -> Option<Url>,       // page fetch + `<link rel="canonical" href>`
    navigate: Url -> Option<Url>,            // browser navigation; None when it raises
    digest: Url -> string,                   // MD5 of the normalised URL text
    raises: Url -> bool)                     // processing this URL raises an exception

  datatype InputArticle = InputArticle(url: Url, sourceName: string)

  /** A surviving match: the candidate with its resolved url, gaining `source_name`, losing `source`. */
  datatype RelatedReport = RelatedReport(title: string, description: string, url: Url, score: int, sourceName: string)

  /** `{"input_article": ..., "related_reports": [...]}` */
  datatype ReportSet = ReportSet(input: InputArticle, related: seq<RelatedReport>)

  /** The key candidates are de-duplicated by: `hash_url(c["url"])`. */
  function HashKey(digest: Url -> string): Candidate -> string {
    (c: Candidate) => HashUrl(digest, c.url)
  }

  /** The candidate list after "Remove duplicates": first candidate per URL hash. */
  function Unique(svc: Services, cs: seq<Candidate>): (r: seq<Candidate>)
    ensures forall i :: 0 <= i < |r| ==> r[i] in cs
    ensures forall i, j :: 0 <= i < j < |r| ==> HashUrl(svc.digest, r[i].url) != HashUrl(svc.digest, r[j].url)
    ensures forall c :: c in cs ==> exists d :: d in r && HashUrl(svc.digest, d.url) == HashUrl(svc.digest, c.url)
    ensures r == FirstByKey(cs, HashKey(svc.digest), {})
  {
    var key := HashKey(svc.digest);
    var r := FirstByKey(cs, key, {});
    assert forall c :: key(c) == HashUrl(svc.digest, c.url);
    forall c | c in cs ensures exists d :: d in r && HashUrl(svc.digest, d.url) == HashUrl(svc.digest, c.url) {
      FirstByKeyCovers(cs, key, {}, c);
    }
    r
  }

  /** The first matching round: event text against search results plus feeds. */
  function FirstRound(svc: Services, text: string): seq<Match> {
    var event := ExtractEvent(text);
    SemanticFilter(svc.similarity, event, Unique(svc, svc.googleNews(event) + svc.feeds))
  }

  /**
    The matches `process_article` goes on with: those of the first round, or,
    only when that round found nothing, those of one retry with the title query
    against a fresh search (feeds are not consulted again).
   */
  function Matches(svc: Services, text: string): (r: seq<Match>)
    ensures |r| <= MaxMatches && SortedDesc(r)
    ensures forall i :: 0 <= i < |r| ==> r[i].score >= SimilarityThreshold
    ensures FirstRound(svc, text) != [] ==> r == FirstRound(svc, text)
    ensures FirstRound(svc, text) == [] ==>
              forall i :: 0 <= i < |r| ==>
                && r[i].candidate in svc.googleNews(TitleQuery(text))
                && r[i].score == svc.similarity(TitleQuery(text), CandidateText(r[i].candidate))
    ensures FirstRound(svc, text) == [] ==>
              r == SemanticFilter(svc.similarity, TitleQuery(text), svc.googleNews(TitleQuery(text)))
  {
    var first := FirstRound(svc, text);
    if first != [] then first
    else
      var q := TitleQuery(text);
      SemanticFilter(svc.similarity, q, svc.googleNews(q))
  }

  /**
    `resolve_google`: the page's final URL after navigation, unless navigation
    failed, the URL is empty, or it still points into news.google.com.
   */
  function ResolveGoogle(navigate: Url -> Option<Url>, u: Url): (r: Option<Url>)
    ensures r.Some? ==> navigate(u) == r
    ensures r.Some? <==>
              navigate(u).Some? && navigate(u).value != EmptyUrl
              && !Contains(ToText(navigate(u).value), GoogleNewsHost)
  {
    match navigate(u)
    case None => None
    case Some(final) =>
      if final == EmptyUrl || Contains(ToText(final), GoogleNewsHost) then None else Some(final)
  }

  /** Where a match is read from: search results are navigated, feed items are taken as they are. */
  function Destination(svc: Services, m: Match): Option<Url> {
    if m.candidate.source == GoogleNews then ResolveGoogle(svc.navigate, m.candidate.url)
    else Some(m.candidate.url)
  }

  /** The self-match guard of the report loop: another canonical URL and another publisher. */
  predicate Foreign(svc: Services, x: RelatedReport, input: InputArticle) {
    && CanonicalUrl(svc.canonicalHref, x.url) != CanonicalUrl(svc.canonicalHref, input.url)
    && Lower(x.sourceName) != Lower(input.sourceName)
  }

  /**
    One pass of the report loop of `process_article`: a match survives when its
    destination resolves and it is neither the input article's canonical URL
    nor from the input article's publisher.
   */
  function Resolve(svc: Services, m: Match, input: InputArticle): (r: Option<RelatedReport>)
    ensures r.None? <==>
              || Destination(svc, m).None?
              || CanonicalUrl(svc.canonicalHref, Destination(svc, m).value) == CanonicalUrl(svc.canonicalHref, input.url)
              || Lower(ExtractPublisher(Destination(svc, m).value)) == Lower(input.sourceName)
    ensures r.Some? ==>
              && Some(r.value.url) == Destination(svc, m)
              && (m.candidate.source != GoogleNews ==> r.value.url == m.candidate.url)
              && r.value.title == m.candidate.title
              && r.value.description == m.candidate.description
              && r.value.score == m.score
              && r.value.sourceName == ExtractPublisher(r.value.url)
              && Foreign(svc, r.value, input)
  {
    match Destination(svc, m)
    case None => None
    case Some(u) =>
      var canonical := CanonicalUrl(svc.canonicalHref, u);
      var source := ExtractPublisher(u);
      if canonical == CanonicalUrl(svc.canonicalHref, input.url) then None
      else if Lower(source) == Lower(input.sourceName) then None
      else Some(RelatedReport(m.candidate.title, m.candidate.description, u, m.score, source))
  }

  /** The report loop: survivors in match order. */
  function ResolveAll(svc: Services, ms: seq<Match>, input: InputArticle): (r: seq<RelatedReport>)
    ensures |r| <= |ms|
    ensures forall i :: 0 <= i < |r| ==> Foreign(svc, r[i], input)
    ensures forall i :: 0 <= i < |r| ==> exists j :: 0 <= j < |ms| && Resolve(svc, ms[j], input) == Some(r[i])
    decreases |ms|
  {
    if |ms| == 0 then []
    else
      var rest := ResolveAll(svc, ms[1..], input);
      assert forall j :: 0 <= j < |ms| - 1 ==> ms[1..][j] == ms[j + 1];
      match Resolve(svc, ms[0], input)
      case None => rest
      case Some(x) => [x] + rest
  }

  /**
    Survivors keep the order they were matched in: the loop over one more
    match appends that match's report, when it survives, to the reports so far.
   */
  lemma {:induction false} ResolveAllSnoc(svc: Services, ms: seq<Match>, m: Match, input: InputArticle)
    ensures ResolveAll(svc, ms + [m], input) ==
              ResolveAll(svc, ms, input) + (if Resolve(svc, m, input).Some? then [Resolve(svc, m, input).value] else [])
    decreases |ms|
  {
    if |ms| == 0 {
      assert [m][1..] == [];
    } else {
      assert (ms + [m])[1..] == ms[1..] + [m] && (ms + [m])[0] == ms[0];
      ResolveAllSnoc(svc, ms[1..], m, input);
    }
  }

  /** No surviving match is lost. */
  lemma {:induction false} ResolveAllComplete(svc: Services, ms: seq<Match>, input: InputArticle, m: Match)
    requires m in ms && Resolve(svc, m, input).Some?
    ensures Resolve(svc, m, input).value in ResolveAll(svc, ms, input)
    decreases |ms|
  {
    if ms[0] != m {
      ResolveAllComplete(svc, ms[1..], input, m);
    }
  }

  /** Resolution keeps scores: a bound met by every match is met by every report. */
  lemma {:induction false} ResolveAllScores(svc: Services, ms: seq<Match>, input: InputArticle, bound: int)
    requires forall j :: 0 <= j < |ms| ==> ms[j].score >= bound
    ensures forall i :: 0 <= i < |ResolveAll(svc, ms, input)| ==> ResolveAll(svc, ms, input)[i].score >= bound
    decreases |ms|
  {
    if |ms| > 0 {
      ResolveAllScores(svc, ms[1..], input, bound);
    }
  }

  /**
    `process_article`: None when extraction gives no text; otherwise the input
    article with its publisher and the surviving related reports, none of which
    is the input's canonical URL or from the input's publisher.
   */
  function ProcessArticle(svc: Services, url: Url): (r: Option<ReportSet>)
    ensures r.None? <==> svc.extract(url) == ""
    ensures r.Some? ==> r.value.input == InputArticle(url, ExtractPublisher(url))
    ensures r.Some? ==> r.value.related == ResolveAll(svc, Matches(svc, svc.extract(url)), r.value.input)
    ensures r.Some? ==> |r.value.related| <= MaxMatches
    ensures r.Some? ==> forall i :: 0 <= i < |r.value.related| ==>
              Foreign(svc, r.value.related[i], r.value.input) && r.value.related[i].score >= SimilarityThreshold
  {
    var text := svc.extract(url);
    if text == "" then None
    else
      var ms := Matches(svc, text);
      var input := InputArticle(url, ExtractPublisher(url));
      var related := ResolveAll(svc, ms, input);
      ResolveAllScores(svc, ms, input, SimilarityThreshold);
      Some(ReportSet(input, related))
  }

  // ---------------------------------------------------------------------------
  // Input URL extraction (`main`, before the loop)
  // ---------------------------------------------------------------------------

  /** A JSON value found under "url" or "link" of an input record. */
  datatype Value = Str(url: Url) | NonString(truthy: bool)

  /** One element of the input list. */
  datatype Item = ItemStr(url: Url) | ItemDict(fields: map<string, Value>) | ItemOther

  /** A JSON value found under "results" or "urls" of an input object. */
  datatype Field = FieldList(items: seq<Item>) | FieldOther(truthy: bool)

  /** The decoded input file. */
  datatype RawInput = InputList(items: seq<Item>) | InputDict(fields: map<string, Field>) | InputOther

  function Get<K, V>(m: map<K, V>, k: K): Option<V> {
    if k in m then Some(m[k]) else None
  }

  predicate TruthyValue(v: Option<Value>) {
    match v
    case None => false
    case Some(Str(u)) => u != EmptyUrl
    case Some(NonString(t)) => t
  }

  predicate TruthyField(f: Option<Field>) {
    match f
    case None => false
    case Some(FieldList(items)) => |items| > 0
    case Some(FieldOther(t)) => t
  }

  /** The URL of one item: a string, or `item.get("url") or item.get("link")` when that is a string. */
  function ItemUrl(item: Item): (r: Option<Url>)
    ensures item.ItemStr? ==> r == Some(item.url)
    ensures item.ItemOther? ==> r.None?
    ensures item.ItemDict? && TruthyValue(Get(item.fields, "url")) ==>
              (r.Some? <==> item.fields["url"].Str?)
    ensures item.ItemDict? && !TruthyValue(Get(item.fields, "url")) ==>
              (r.Some? <==> "link" in item.fields && item.fields["link"].Str?)
    ensures item.ItemDict? && r.Some? ==>
              r == Some(if TruthyValue(Get(item.fields, "url")) then item.fields["url"].url else item.fields["link"].url)
  {
    match item
    case ItemStr(u) => Some(u)
    case ItemOther => None
    case ItemDict(fields) =>
      var v: Option<Value> := if TruthyValue(Get(fields, "url")) then Get(fields, "url") else Get(fields, "link");
      match v
      case Some(Str(u)) => Some(u)
      case _ => None
  }

  /** The URLs of a list of items, in order; items without a string URL are skipped. */
  function CollectUrls(items: seq<Item>): (r: seq<Url>)
    ensures |r| <= |items|
    ensures |items| == 1 ==> r == (if ItemUrl(items[0]).Some? then [ItemUrl(items[0]).value] else [])
    decreases |items|
  {
    if |items| == 0 then []
    else
      match ItemUrl(items[0])
      case Some(u) => [u] + CollectUrls(items[1..])
      case None => CollectUrls(items[1..])
  }

  /**
    Collecting is compositional: the URLs of consecutive item lists follow
    each other, so input order and repeated URLs are kept.
   */
  lemma {:induction false} CollectUrlsAppend(a: seq<Item>, b: seq<Item>)
    ensures CollectUrls(a + b) == CollectUrls(a) + CollectUrls(b)
    decreases |a|
  {
    if |a| == 0 {
      assert a + b == b;
    } else {
      var head := if ItemUrl(a[0]).Some? then [ItemUrl(a[0]).value] else [];
      CollectUrlsAppend(a[1..], b);
      assert (a + b)[1..] == a[1..] + b;
      assert (a + b)[0] == a[0];
      assert CollectUrls(a + b) == head + CollectUrls(a[1..] + b);
      assert CollectUrls(a) == head + CollectUrls(a[1..]);
    }
  }

  /** An input list naming one URL twice yields it twice. */
  lemma InputUrlsKeepsRepeats(u: Url)
    ensures InputUrls(InputList([ItemStr(u), ItemStr(u)])) == [u, u]
  {
    CollectUrlsAppend([ItemStr(u)], [ItemStr(u)]);
    assert [ItemStr(u)] + [ItemStr(u)] == [ItemStr(u), ItemStr(u)];
  }

  /** A URL is collected exactly when some item yields it. */
  lemma {:induction false} CollectUrlsMembership(items: seq<Item>, u: Url)
    ensures u in CollectUrls(items) <==> exists i :: 0 <= i < |items| && ItemUrl(items[i]) == Some(u)
    decreases |items|
  {
    if |items| > 0 {
      CollectUrlsMembership(items[1..], u);
      if exists i :: 0 <= i < |items[1..]| && ItemUrl(items[1..][i]) == Some(u) {
        var i :| 0 <= i < |items[1..]| && ItemUrl(items[1..][i]) == Some(u);
        assert items[i + 1] == items[1..][i];
      }
      if exists i :: 0 <= i < |items| && ItemUrl(items[i]) == Some(u) {
        var i :| 0 <= i < |items| && ItemUrl(items[i]) == Some(u);
        if i > 0 {
          assert items[1..][i - 1] == items[i];
        }
      }
    }
  }

  /** "Safe extraction of URLs": a list is read directly, an object through `results or urls`. */
  function InputUrls(raw: RawInput): (r: seq<Url>)
    ensures raw.InputList? ==> r == CollectUrls(raw.items)
    ensures raw.InputOther? ==> r == []
    ensures raw.InputDict? && TruthyField(Get(raw.fields, "results")) ==>
              r == (if raw.fields["results"].FieldList? then CollectUrls(raw.fields["results"].items) else [])
    ensures raw.InputDict? && !TruthyField(Get(raw.fields, "results")) ==>
              r == (if "urls" in raw.fields && raw.fields["urls"].FieldList? then CollectUrls(raw.fields["urls"].items) else [])
  {
    match raw
    case InputList(items) => CollectUrls(items)
    case InputOther => []
    case InputDict(fields) =>
      var l: Option<Field> := if TruthyField(Get(fields, "results")) then Get(fields, "results") else Get(fields, "urls");
      match l
      case Some(FieldList(items)) => CollectUrls(items)
      case _ => []
  }

  // ---------------------------------------------------------------------------
  // Resumable run
  // ---------------------------------------------------------------------------

  /** An element of the saved "results" list; only dictionaries count as processed. */
  datatype SavedResult = Saved(report: ReportSet) | NotADict

  /** The output file `{generated_at, results, failed_urls}`. */
  datatype RunState = RunState(generatedAt: string, results: seq<SavedResult>, failedUrls: seq<Url>)

  /** What one call of `process_article` in the loop's `try` gives. */
  datatype Outcome = Raised | Returned(result: Option<ReportSet>)

  /** `process_article(u)` under the loop's exception handler. */
  function Attempt(svc: Services, u: Url): (r: Outcome)
    ensures r.Raised? <==> svc.raises(u)
    ensures r.Returned? ==> r.result == ProcessArticle(svc, u)
  {
    if svc.raises(u) then Raised else Returned(ProcessArticle(svc, u))
  }

  /** `process_article` under the loop's exception handler, as the loop calls it. */
  function Attempts(svc: Services): Url -> Outcome {
    u => Attempt(svc, u)
  }

  /** The output file as read at start; a missing file is first written empty. */
  function LoadState(file: Option<RunState>, now: string): (r: RunState)
    ensures file.None? ==> r.results == [] && r.failedUrls == [] && r.generatedAt == now
    ensures file.Some? ==> r == file.value
  {
    match file
    case Some(st) => st
    case None => RunState(now, [], [])
  }

  /** The `processed` set: normalised input URLs of the saved dictionary results. */
  function ProcessedUrls(results: seq<SavedResult>): set<Url> {
    set r | r in results && r.Saved? :: Normalize(r.report.input.url)
  }

  /**
    One iteration of the main loop for `u`: skipped when its normal form is in
    `processed`; an exception is printed and nothing is recorded; otherwise a
    non-None result is appended and the file rewritten with a new timestamp.
   */
  function Step(process: Url -> Outcome, processed: set<Url>, st: RunState, u: Url, stamp: string): (r: RunState)
    ensures r.failedUrls == st.failedUrls
    ensures r.results != st.results <==>
              Normalize(u) !in processed && process(u).Returned? && process(u).result.Some?
    ensures r.results != st.results ==>
              r.results == st.results + [Saved(process(u).result.value)] && r.generatedAt == stamp
    ensures r.results == st.results ==> r == st
  {
    if Normalize(u) in processed then st
    else
      match process(u)
      case Raised => st
      case Returned(None) => st
      case Returned(Some(rs)) =>
        assert |st.results + [Saved(rs)]| != |st.results|;
        RunState(stamp, st.results + [Saved(rs)], st.failedUrls)
  }

  /** The main loop over the input URLs; `clock(i)` is the time at iteration `i`. */
  function Run(process: Url -> Outcome, processed: set<Url>, st: RunState, urls: seq<Url>, clock: nat -> string): (r: RunState)
    ensures st.results <= r.results && |r.results| <= |st.results| + |urls|
    ensures r.failedUrls == st.failedUrls
    decreases |urls|
  {
    if |urls| == 0 then st
    else
      var n := |urls| - 1;
      Step(process, processed, Run(process, processed, st, urls[..n], clock), urls[n], clock(n))
  }

  /** `main`: load (or create) the state, build `processed` once, run over the input URLs. */
  function Main(svc: Services, raw: RawInput, file: Option<RunState>, startedAt: string, clock: nat -> string): (r: RunState)
    ensures file.Some? ==> file.value.results <= r.results && r.failedUrls == file.value.failedUrls
    ensures file.None? ==> r.failedUrls == []
    ensures |r.results| <= |LoadState(file, startedAt).results| + |InputUrls(raw)|
  {
    var st := LoadState(file, startedAt);
    Run(Attempts(svc), ProcessedUrls(st.results), st, InputUrls(raw), clock)
  }

  /** The URLs the loop saves a report for: not yet processed, and processing returned a result. */
  predicate SavesReport(process: Url -> Outcome, processed: set<Url>, u: Url) {
    Normalize(u) !in processed && process(u).Returned? && process(u).result.Some?
  }

  function Saving(process: Url -> Outcome, processed: set<Url>): Url -> bool {
    u => SavesReport(process, processed, u)
  }

  /** The saved entries of URLs that each returned a result, in order. */
  function ReportsOf(process: Url -> Outcome, us: seq<Url>): (rs: seq<SavedResult>)
    requires forall i :: 0 <= i < |us| ==> process(us[i]).Returned? && process(us[i]).result.Some?
    ensures |rs| == |us|
    ensures forall i :: 0 <= i < |us| ==> rs[i] == Saved(process(us[i]).result.value)
  {
    seq(|us|, i requires 0 <= i < |us| => Saved(process(us[i]).result.value))
  }

  lemma ReportsOfSnoc(process: Url -> Outcome, us: seq<Url>, u: Url)
    requires forall i :: 0 <= i < |us| ==> process(us[i]).Returned? && process(us[i]).result.Some?
    requires process(u).Returned? && process(u).result.Some?
    ensures ReportsOf(process, us + [u]) == ReportsOf(process, us) + [Saved(process(u).result.value)]
  {
    assert forall i :: 0 <= i < |us| ==> (us + [u])[i] == us[i];
  }

  /**
    The run saves exactly what it should, in input order: the results grow by
    the report of every input URL that was not processed before and whose
    processing returned a result, and by nothing else.
   */
  lemma {:induction false} RunResults(process: Url -> Outcome, processed: set<Url>, st: RunState, urls: seq<Url>, clock: nat -> string)
    ensures var kept := Filter(urls, Saving(process, processed));
            Run(process, processed, st, urls, clock).results == st.results + ReportsOf(process, kept)
    decreases |urls|
  {
    var p := Saving(process, processed);
    if |urls| == 0 {
      assert Filter(urls, p) == [];
    } else {
      var n := |urls| - 1;
      var u := urls[n];
      RunResults(process, processed, st, urls[..n], clock);
      assert urls == urls[..n] + [u];
      FilterAppend(urls[..n], [u], p);
      assert Filter([u], p) == (if p(u) then [u] else []);
      var before := Filter(urls[..n], p);
      if p(u) {
        ReportsOfSnoc(process, before, u);
      } else {
        assert Filter(urls, p) == before;
      }
    }
  }

  /** `main` saves, after the loaded results, the report of every fresh input URL that processing returns one for. */
  lemma MainResults(svc: Services, raw: RawInput, file: Option<RunState>, startedAt: string, clock: nat -> string)
    ensures var st := LoadState(file, startedAt);
            var kept := Filter(InputUrls(raw), Saving(Attempts(svc), ProcessedUrls(st.results)));
            Main(svc, raw, file, startedAt, clock).results == st.results + ReportsOf(Attempts(svc), kept)
  {
    var st := LoadState(file, startedAt);
    RunResults(Attempts(svc), ProcessedUrls(st.results), st, InputUrls(raw), clock);
  }

  /**
    What the run leaves behind: earlier results stay as an unchanged prefix,
    `failed_urls` is never written, and every appended entry is the result of
    an input URL whose normal form was not in `processed`.
   */
  lemma {:induction false} RunAppendsOnly(process: Url -> Outcome, processed: set<Url>, st: RunState, urls: seq<Url>, clock: nat -> string)
    ensures var r := Run(process, processed, st, urls, clock);
            && st.results <= r.results
            && r.failedUrls == st.failedUrls
            && forall k :: |st.results| <= k < |r.results| ==>
                 && r.results[k].Saved?
                 && exists i :: 0 <= i < |urls| && Normalize(urls[i]) !in processed
                                && process(urls[i]) == Returned(Some(r.results[k].report))
    decreases |urls|
  {
    if |urls| > 0 {
      var n := |urls| - 1;
      RunAppendsOnly(process, processed, st, urls[..n], clock);
      var mid := Run(process, processed, st, urls[..n], clock);
      var r := Step(process, processed, mid, urls[n], clock(n));
      forall k | |st.results| <= k < |r.results|
        ensures r.results[k].Saved?
        ensures exists i :: 0 <= i < |urls| && Normalize(urls[i]) !in processed
                            && process(urls[i]) == Returned(Some(r.results[k].report))
      {
        if k < |mid.results| {
          assert r.results[k] == mid.results[k];
          var i :| 0 <= i < n && Normalize(urls[..n][i]) !in processed
                   && process(urls[..n][i]) == Returned(Some(mid.results[k].report));
          assert urls[..n][i] == urls[i];
          assert process(urls[i]) == Returned(Some(r.results[k].report));
        } else {
          assert process(urls[n]) == Returned(Some(r.results[k].report));
        }
      }
    }
  }

  /** A URL whose normal form is already saved adds nothing, wherever it occurs in the input. */
  lemma {:induction false} RunSkipsProcessed(process: Url -> Outcome, st: RunState, urls: seq<Url>, clock: nat -> string)
    requires forall i :: 0 <= i < |urls| ==> Normalize(urls[i]) in ProcessedUrls(st.results)
    ensures Run(process, ProcessedUrls(st.results), st, urls, clock) == st
    decreases |urls|
  {
    if |urls| > 0 {
      RunSkipsProcessed(process, st, urls[..|urls| - 1], clock);
    }
  }

  /**
    As written, `processed` is never updated inside the loop: an input URL
    listed twice in one run is processed twice and its report saved twice.
   */
  lemma RunRepeatsDuplicateInput(process: Url -> Outcome, st: RunState, u: Url, clock: nat -> string)
    requires Normalize(u) !in ProcessedUrls(st.results)
    requires process(u).Returned? && process(u).result.Some?
    ensures var rs := Saved(process(u).result.value);
            Run(process, ProcessedUrls(st.results), st, [u, u], clock).results == st.results + [rs, rs]
  {
    var p := ProcessedUrls(st.results);
    assert [u, u][..1] == [u];
    assert [u][..0] == [];
    assert Run(process, p, st, [], clock) == st;
    assert Run(process, p, st, [u], clock) == Step(process, p, st, u, clock(0));
  }

  /** Normal forms of the saved inputs are pairwise different. */
  predicate DistinctInputs(results: seq<SavedResult>) {
    forall i, j :: 0 <= i < j < |results| && results[i].Saved? && results[j].Saved? ==>
      Normalize(results[i].report.input.url) != Normalize(results[j].report.input.url)
  }

  /** A process whose reports are about the URL they were asked for, as `process_article`'s are. */
  ghost predicate Faithful(process: Url -> Outcome) {
    forall u :: process(u).Returned? && process(u).result.Some? ==> process(u).result.value.input.url == u
  }

  lemma AttemptFaithful(svc: Services)
    ensures Faithful(Attempts(svc))
  {
  }

  /** The loop step with `processed` kept up to date: a saved URL is added to it. */
  function StepDedup(process: Url -> Outcome, processed: set<Url>, st: RunState, u: Url, stamp: string): (r: (set<Url>, RunState))
    requires Faithful(process)
    requires processed == ProcessedUrls(st.results) && DistinctInputs(st.results)
    ensures r.1 == Step(process, processed, st, u, stamp)
    ensures r.0 == ProcessedUrls(r.1.results)
    ensures DistinctInputs(r.1.results)
  {
    var next := Step(process, processed, st, u, stamp);
    if next.results == st.results then (processed, next)
    else
      SaveKeepsDistinct(process, processed, st, u, stamp);
      (processed + {Normalize(u)}, next)
  }

  /** Appending a report whose input is not yet in `processed` keeps the saved inputs distinct. */
  lemma SaveKeepsDistinct(process: Url -> Outcome, processed: set<Url>, st: RunState, u: Url, stamp: string)
    requires Faithful(process)
    requires processed == ProcessedUrls(st.results) && DistinctInputs(st.results)
    requires Step(process, processed, st, u, stamp).results != st.results
    ensures var next := Step(process, processed, st, u, stamp).results;
            ProcessedUrls(next) == processed + {Normalize(u)} && DistinctInputs(next)
  {
    var next := Step(process, processed, st, u, stamp).results;
    var added := Saved(process(u).result.value);
    assert next == st.results + [added];
    assert added.report.input.url == u;
    assert forall x :: x in next <==> x in st.results || x == added;
    forall i, j | 0 <= i < j < |next| && next[i].Saved? && next[j].Saved?
      ensures Normalize(next[i].report.input.url) != Normalize(next[j].report.input.url)
    {
      if j == |st.results| {
        assert next[i] in st.results;
      }
    }
  }

  /** The main loop with `processed` updated after every save. */
  function RunDedup(process: Url -> Outcome, processed: set<Url>, st: RunState, urls: seq<Url>, clock: nat -> string): (r: (set<Url>, RunState))
    requires Faithful(process)
    requires processed == ProcessedUrls(st.results) && DistinctInputs(st.results)
    ensures r.0 == ProcessedUrls(r.1.results)
    ensures DistinctInputs(r.1.results)
    ensures st.results <= r.1.results && r.1.failedUrls == st.failedUrls
    decreases |urls|
  {
    if |urls| == 0 then (processed, st)
    else
      var n := |urls| - 1;
      var prev := RunDedup(process, processed, st, urls[..n], clock);
      StepDedup(process, prev.0, prev.1, urls[n], clock(n))
  }

  /** What the corrected loop adds to `processed` are normal forms of its input URLs. */
  lemma {:induction false} RunDedupProcessed(process: Url -> Outcome, st: RunState, urls: seq<Url>, clock: nat -> string)
    requires Faithful(process) && DistinctInputs(st.results)
    ensures forall x :: x in RunDedup(process, ProcessedUrls(st.results), st, urls, clock).0 ==>
              x in ProcessedUrls(st.results) || exists k :: 0 <= k < |urls| && Normalize(urls[k]) == x
    decreases |urls|
  {
    if |urls| > 0 {
      var n := |urls| - 1;
      RunDedupProcessed(process, st, urls[..n], clock);
      var prev := RunDedup(process, ProcessedUrls(st.results), st, urls[..n], clock);
      forall x | x in RunDedup(process, ProcessedUrls(st.results), st, urls, clock).0 && x !in ProcessedUrls(st.results)
        ensures exists k :: 0 <= k < |urls| && Normalize(urls[k]) == x
      {
        if x in prev.0 {
          var k :| 0 <= k < n && Normalize(urls[..n][k]) == x;
          assert urls[k] == urls[..n][k];
        } else {
          assert Normalize(urls[n]) == x;
        }
      }
    }
  }

  /** On input whose normal forms are pairwise different, the corrected loop saves what the loop as written saves. */
  lemma {:induction false} RunDedupAgrees(process: Url -> Outcome, st: RunState, urls: seq<Url>, clock: nat -> string)
    requires Faithful(process) && DistinctInputs(st.results)
    requires forall i, j :: 0 <= i < j < |urls| ==> Normalize(urls[i]) != Normalize(urls[j])
    ensures RunDedup(process, ProcessedUrls(st.results), st, urls, clock).1 == Run(process, ProcessedUrls(st.results), st, urls, clock)
    decreases |urls|
  {
    if |urls| > 0 {
      var n := |urls| - 1;
      var init := urls[..n];
      var p := ProcessedUrls(st.results);
      forall i, j | 0 <= i < j < |init| ensures Normalize(init[i]) != Normalize(init[j]) {
        assert init[i] == urls[i] && init[j] == urls[j];
      }
      RunDedupAgrees(process, st, init, clock);
      RunDedupProcessed(process, st, init, clock);
      var prev := RunDedup(process, p, st, init, clock);
      forall k | 0 <= k < |init| ensures Normalize(init[k]) != Normalize(urls[n]) {
        assert init[k] == urls[k];
      }
      assert Normalize(urls[n]) in prev.0 <==> Normalize(urls[n]) in p;
      StepSameMembership(process, prev.0, p, prev.1, urls[n], clock(n));
    }
  }

  /** A step looks at `processed` only through the membership of the URL's normal form. */
  lemma StepSameMembership(process: Url -> Outcome, p: set<Url>, q: set<Url>, st: RunState, u: Url, stamp: string)
    requires Normalize(u) in p <==> Normalize(u) in q
    ensures Step(process, p, st, u, stamp) == Step(process, q, st, u, stamp)
  {
  }

  /** The corrected `main`: no normal form is saved twice, whatever the input list repeats. */
  function MainDedup(svc: Services, raw: RawInput, file: Option<RunState>, startedAt: string, clock: nat -> string): (r: RunState)
    requires file.Some? ==> DistinctInputs(file.value.results)
    ensures DistinctInputs(r.results)
    ensures file.Some? ==> file.value.results <= r.results
  {
    var st := LoadState(file, startedAt);
    AttemptFaithful(svc);
    RunDedup(Attempts(svc), ProcessedUrls(st.results), st, InputUrls(raw), clock).1
  }
}
