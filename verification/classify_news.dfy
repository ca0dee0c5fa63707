/**
  Record building of classify_news.py: `process_event` turns each saved
  correlation result into a numbered news entry with a per-publisher
  reference list and a political / non-political category. The embedding
  classifier is an oracle; only its empty-text guard is modelled.
 */
module ClassifyNews {
  import opened Wrappers
  import opened Text
  import opened Seqs
  import opened UrlIdentity

  const Political := "political"
  const NonPolitical := "non_political"

  /** The default of missing `url`, `source` and `source_name` values. */
  const Unknown := "Unknown"

  /** The URL text "Unknown" as `urlparse` reads it: a bare path. */
  const UnknownUrl := Url("", "", Unknown, "", "", "")

  /**
    `classify_news`: blank text (`not text.strip()`, see
    `Text.StripEmptyIffBlank`) is non-political without consulting the model;
    otherwise the model decides (`isPolitical` stands for the embedding
    comparison with its margin).
   */
  function ClassifyText(isPolitical: string -> bool, text: string): (r: string)
    ensures r == Political || r == NonPolitical
    ensures IsBlank(text) ==> r == NonPolitical
    ensures !IsBlank(text) ==> (r == Political <==> isPolitical(text))
  {
    if text == "" || IsBlank(text) then NonPolitical
    else if isPolitical(text) then Political
    else NonPolitical
  }

  /** An element of `related_reports`; absent keys are None. */
  datatype ReportIn = ReportIn(title: Option<string>, description: Option<string>, sourceName: Option<string>, url: Option<Url>)

  /** `input_article`; absent keys are None. */
  datatype InputIn = InputIn(url: Option<Url>, sourceName: Option<string>)

  /** An element of the input `results`; a missing `related_reports` is the empty list. */
  datatype ItemIn = ItemIn(input: Option<InputIn>, reports: seq<ReportIn>)

  /** An entry of `references`. */
  datatype Reference = Reference(source: string, url: Url)

  datatype MainNews = MainNews(url: Url, source: string)

  /** An output entry; `references` is None when the key is absent. */
  datatype NewsEntry = NewsEntry(newsId: int, mainNews: MainNews, category: string, references: Option<seq<Reference>>)

  /** `r.get("source_name", "Unknown")` */
  function SourceOf(r: ReportIn): string {
    r.sourceName.GetOr(Unknown)
  }

  /** A report may enter the source map: truthy source and truthy url. */
  predicate Mappable(r: ReportIn) {
    SourceOf(r) != "" && r.url.Some? && r.url.value != EmptyUrl
  }

  /** The `{"source": ..., "url": ...}` entry a mappable report puts in the source map. */
  function RefOf(r: ReportIn): Reference {
    Reference(SourceOf(r), r.url.GetOr(EmptyUrl))
  }

  function ToReferences(rs: seq<ReportIn>): (refs: seq<Reference>)
    ensures |refs| == |rs|
    ensures forall i :: 0 <= i < |rs| ==> refs[i] == RefOf(rs[i])
    decreases |rs|
  {
    if |rs| == 0 then [] else [RefOf(rs[0])] + ToReferences(rs[1..])
  }

  /** The reports that enter the source map, in order: the first mappable report per source. */
  function FirstPerSource(reports: seq<ReportIn>): seq<ReportIn> {
    FirstByKey(Filter(reports, Mappable), SourceOf, {})
  }

  /** `list(source_map.values())` */
  function SourceMap(reports: seq<ReportIn>): (refs: seq<Reference>)
    ensures forall i, j :: 0 <= i < j < |refs| ==> refs[i].source != refs[j].source
  {
    ToReferences(FirstPerSource(reports))
  }

  /**
    Every source of a mappable report is represented in the source map.
   */
  lemma SourceMapContents(reports: seq<ReportIn>)
    ensures forall r :: r in reports && Mappable(r) ==>
              exists i :: 0 <= i < |SourceMap(reports)| && SourceMap(reports)[i].source == SourceOf(r)
  {
    var valid := Filter(reports, Mappable);
    var firsts := FirstPerSource(reports);
    var refs := SourceMap(reports);
    forall r | r in reports && Mappable(r) ensures exists i :: 0 <= i < |refs| && refs[i].source == SourceOf(r) {
      FilterMembership(reports, Mappable, r);
      assert SourceOf(r) in KeysOf(valid, SourceOf);
      assert SourceOf(r) in KeysOf(firsts, SourceOf);
      var x :| x in firsts && SourceOf(x) == SourceOf(r);
      var i :| 0 <= i < |firsts| && firsts[i] == x;
      assert refs[i].source == SourceOf(r);
    }
  }

  /**
    First wins: every entry of the source map comes from a mappable report
    with no earlier mappable report of the same source.
   */
  lemma SourceMapFirstWins(reports: seq<ReportIn>, i: int)
    requires 0 <= i < |SourceMap(reports)|
    ensures exists m :: 0 <= m < |reports| && Mappable(reports[m]) && SourceMap(reports)[i] == RefOf(reports[m])
                        && forall k :: 0 <= k < m && Mappable(reports[k]) ==> SourceOf(reports[k]) != SourceOf(reports[m])
  {
    var valid := Filter(reports, Mappable);
    FirstByKeyFirst(valid, SourceOf, {}, i);
    var j :| 0 <= j < |valid| && valid[j] == FirstPerSource(reports)[i]
             && forall k :: 0 <= k < j ==> SourceOf(valid[k]) != SourceOf(valid[j]);
    FilterIndex(reports, Mappable, j);
    var m :| 0 <= m < |reports| && reports[m] == valid[j] && Filter(reports[..m], Mappable) == valid[..j];
    forall k | 0 <= k < m && Mappable(reports[k]) ensures SourceOf(reports[k]) != SourceOf(reports[m]) {
      assert reports[k] in reports[..m];
      FilterMembership(reports[..m], Mappable, reports[k]);
      var k' :| 0 <= k' < j && valid[..j][k'] == reports[k];
    }
  }

  /** The text parts one report contributes: its truthy title, then its truthy description. */
  function ReportParts(r: ReportIn): seq<string> {
    var t := r.title.GetOr("");
    var d := r.description.GetOr("");
    (if t != "" then [t] else []) + (if d != "" then [d] else [])
  }

  /** `combined_text_parts` in case 1: the parts of every report, in report order. */
  function TextParts(reports: seq<ReportIn>): (parts: seq<string>)
    ensures forall k :: 0 <= k < |parts| ==> parts[k] != ""
    decreases |reports|
  {
    if |reports| == 0 then [] else ReportParts(reports[0]) + TextParts(reports[1..])
  }

  /** Every non-empty title and description appears among the parts. */
  lemma {:induction false} TextPartsComplete(reports: seq<ReportIn>, r: ReportIn)
    requires r in reports
    ensures r.title.GetOr("") != "" ==> r.title.value in TextParts(reports)
    ensures r.description.GetOr("") != "" ==> r.description.value in TextParts(reports)
    decreases |reports|
  {
    if reports[0] != r {
      TextPartsComplete(reports[1..], r);
    }
  }

  /** The parts of consecutive report lists are the parts of each, in order. */
  lemma {:induction false} TextPartsAppend(a: seq<ReportIn>, b: seq<ReportIn>)
    ensures TextParts(a + b) == TextParts(a) + TextParts(b)
    decreases |a|
  {
    if |a| == 0 {
      assert a + b == b;
    } else {
      assert (a + b)[1..] == a[1..] + b;
      TextPartsAppend(a[1..], b);
    }
  }

  /** Every part is the title or the description of some report. */
  lemma {:induction false} TextPartsSound(reports: seq<ReportIn>, k: int)
    requires 0 <= k < |TextParts(reports)|
    ensures exists i :: 0 <= i < |reports| &&
              (reports[i].title == Some(TextParts(reports)[k]) || reports[i].description == Some(TextParts(reports)[k]))
    decreases |reports|
  {
    var head := ReportParts(reports[0]);
    var p := TextParts(reports)[k];
    if k >= |head| {
      TextPartsSound(reports[1..], k - |head|);
      var i :| 0 <= i < |reports[1..]| &&
                (reports[1..][i].title == Some(TextParts(reports[1..])[k - |head|])
                 || reports[1..][i].description == Some(TextParts(reports[1..])[k - |head|]));
      assert reports[i + 1] == reports[1..][i];
    } else {
      assert reports[0].title == Some(p) || reports[0].description == Some(p);
    }
  }

  /** There are no parts exactly when every report has an empty or missing title and description. */
  lemma {:induction false} TextPartsEmptyIff(reports: seq<ReportIn>)
    ensures TextParts(reports) == [] <==>
              forall i :: 0 <= i < |reports| ==> reports[i].title.GetOr("") == "" && reports[i].description.GetOr("") == ""
    decreases |reports|
  {
    if |reports| > 0 {
      TextPartsEmptyIff(reports[1..]);
      assert forall i :: 1 <= i < |reports| ==> reports[i] == reports[1..][i - 1];
    }
  }

  /** `" ".join(...)` of non-empty parts is empty exactly when there are no parts. */
  lemma {:induction false} JoinEmptyIffNoParts(parts: seq<string>, d: char)
    requires forall k :: 0 <= k < |parts| ==> parts[k] != ""
    ensures Join(parts, d) == "" <==> parts == []
  {
    if |parts| > 0 {
      assert |Join(parts, d)| >= |parts[0]|;
    }
  }

  /** `combined_text`: report titles and descriptions, or the input URL when there are no reports. */
  function CombinedText(item: ItemIn): (text: string)
    ensures |item.reports| > 0 ==> text == Join(TextParts(item.reports), ' ')
    ensures |item.reports| > 0 ==>
              (text == "" <==> forall i :: 0 <= i < |item.reports| ==>
                                 item.reports[i].title.GetOr("") == "" && item.reports[i].description.GetOr("") == "")
    ensures |item.reports| == 0 && item.input.Some? && item.input.value.url.Some? ==>
              text == ToText(item.input.value.url.value)
    ensures |item.reports| == 0 && (item.input.None? || item.input.value.url.None?) ==> text == ""
  {
    if |item.reports| > 0 then
      JoinEmptyIffNoParts(TextParts(item.reports), ' ');
      TextPartsEmptyIff(item.reports);
      Join(TextParts(item.reports), ' ')
    else
      var u := if item.input.Some? then item.input.value.url else None;
      if u.Some? && u.value != EmptyUrl then Join([ToText(u.value)], ' ') else Join([], ' ')
  }

  /** `main_news`: the input article's url and source name, "Unknown" when absent. */
  function MainNewsOf(item: ItemIn): (m: MainNews)
    ensures item.input.None? ==> m == MainNews(UnknownUrl, Unknown)
    ensures item.input.Some? ==> m.url == item.input.value.url.GetOr(UnknownUrl)
    ensures item.input.Some? ==> m.source == item.input.value.sourceName.GetOr(Unknown)
  {
    match item.input
    case None => MainNews(UnknownUrl, Unknown)
    case Some(a) => MainNews(a.url.GetOr(UnknownUrl), a.sourceName.GetOr(Unknown))
  }

  /** The source map has an entry exactly when some report is mappable. */
  lemma SourceMapEmptyIff(reports: seq<ReportIn>)
    ensures SourceMap(reports) == [] <==> forall r :: r in reports ==> !Mappable(r)
  {
    SourceMapContents(reports);
    if SourceMap(reports) != [] {
      SourceMapFirstWins(reports, 0);
    }
  }

  /**
    One `news_entry`: numbered `id`, categorised as one of the two labels,
    with a `references` key exactly when some report is mappable, holding
    distinct sources.
   */
  function Entry(isPolitical: string -> bool, item: ItemIn, id: int): (e: NewsEntry)
    ensures e.newsId == id && e.mainNews == MainNewsOf(item)
    ensures e.category == Political || e.category == NonPolitical
  {
    var refs := SourceMap(item.reports);
    NewsEntry(id, MainNewsOf(item), ClassifyText(isPolitical, CombinedText(item)),
              if refs != [] then Some(refs) else None)
  }

  /**
    What an entry is built from: the category the classifier gives the
    combined text, and the first-per-source reference list when it is not
    empty.
   */
  lemma EntryContents(isPolitical: string -> bool, item: ItemIn, id: int)
    ensures Entry(isPolitical, item, id).category == ClassifyText(isPolitical, CombinedText(item))
    ensures Entry(isPolitical, item, id).references ==
              if SourceMap(item.reports) != [] then Some(SourceMap(item.reports)) else None
    ensures IsBlank(CombinedText(item)) ==> Entry(isPolitical, item, id).category == NonPolitical
  {
  }

  /**
    An entry has a `references` key exactly when some report is mappable,
    and then its references name pairwise different sources.
   */
  lemma EntryReferences(isPolitical: string -> bool, item: ItemIn, id: int)
    ensures var e := Entry(isPolitical, item, id);
            && (e.references.Some? <==> exists r :: r in item.reports && Mappable(r))
            && (e.references.Some? ==> forall i, j :: 0 <= i < j < |e.references.value| ==>
                  e.references.value[i].source != e.references.value[j].source)
  {
    SourceMapEmptyIff(item.reports);
  }

  /** Appending the next item's entry keeps every entry at its 1-based position. */
  lemma NextEntry(isPolitical: string -> bool, results: seq<ItemIn>, done: seq<NewsEntry>, output: seq<NewsEntry>)
    requires |done| < |results|
    requires forall i :: 0 <= i < |done| ==> done[i] == Entry(isPolitical, results[i], i + 1)
    requires output == done + [Entry(isPolitical, results[|done|], |done| + 1)]
    ensures forall i :: 0 <= i < |output| ==> output[i] == Entry(isPolitical, results[i], i + 1)
  {
    forall i | 0 <= i < |output| ensures output[i] == Entry(isPolitical, results[i], i + 1) {
      if i < |done| {
        assert output[i] == done[i];
      }
    }
  }

  /** `process_event`: one entry per input result, numbered 1, 2, 3, ... in input order. */
  method ProcessEvent(isPolitical: string -> bool, results: seq<ItemIn>) returns (output: seq<NewsEntry>)
    ensures |output| == |results|
    ensures forall i :: 0 <= i < |output| ==> output[i].newsId == i + 1
    ensures forall i :: 0 <= i < |output| ==> output[i] == Entry(isPolitical, results[i], i + 1)
  {
    output := [];
    var newsCounter := 1;
    var k := 0;
    while k < |results|
      invariant 0 <= k <= |results|
      invariant newsCounter == k + 1
      invariant |output| == k
      invariant forall i :: 0 <= i < k ==> output[i] == Entry(isPolitical, results[i], i + 1)
    {
      var done := output;
      output := done + [Entry(isPolitical, results[k], newsCounter)];
      NextEntry(isPolitical, results, done, output);
      newsCounter := newsCounter + 1;
      k := k + 1;
    }
  }
}
