# Hermes news pipeline: correlation and bias aggregation, in Dafny

This project models the core of the Hermes news pipeline. It covers four stages:

- **Feed collection.** `raw_news.py` and `fetch_news_indian.py` read RSS entries from the configured sources. They keep the first entry of every GUID not already stored and turn it into an article record. `raw_news.py` then inserts the rows in batches of 500. `fetch_news_indian.py` instead rewrites its JSON file after every append.
- **Cross-source correlation.** `temp_similar_news.py` handles this stage:
  - URL normalisation and hashing, the canonical-link fallback and the publisher handle;
  - `semantic_filter`: threshold 0.55, stable descending sort, top 7;
  - the title-query retry and Google News redirect resolution;
  - the self-match guard;
  - the resumable `main` loop, which skips input URLs already saved and appends one result per processed article.
- **Categorisation.** `classify_news.py` numbers each correlated result. It builds a per-publisher reference list, where the first report per source name wins. It labels the entry political or non-political, and blank text is always non-political.
- **Bias aggregation.** `LCR_classified.py` does the following:
  - maps domains to bias labels, where the last publisher wins;
  - reduces a URL to its last two host labels;
  - computes the five-way wing distribution;
  - decides the final bias by majority with its abstention rules;
  - summarises the run by counts.

Modules follow the program's files:

- `UrlIdentity` and `Correlation`, plus `Pipeline` for the rest of `temp_similar_news.py`;
- `ClassifyNews` for `classify_news.py`;
- `Bias` for `LCR_classified.py`;
- `FeedEntries`, shared by the two feed scripts, plus `RawNews` and `IndianFeed`;
- helper modules `Wrappers`, `Text` and `Seqs`.

Every "seen set" loop of the program is one generic function, `Seqs.FirstByKey`. That covers:

- the URL-hash dedup;
- the GUID filter of both feed scripts;
- the `source_map` of `classify_news.py`.

The outside world is made explicit. The model covers the services below as follows:

- **Passed in as parameters:**
  - network fetches, the embedding model (similarity in thousandths), the browser, MD5 and the clock;
  - the parsed feeds and the stored GUIDs.
- **Returned as outputs:** the files and the database table. Their states are values, and the writes and inserted batches are results.

## Model

| member | source | states |
|---|---|---|
| UrlIdentity.Normalize | project/start_pipeline/temp_similar_news.py:50-54 | params, query and fragment are dropped, scheme and path kept; the host is the host with "www." deleted by a left-to-right scan, so it only shrinks and is untouched when it holds no "www." |
| UrlIdentity.NormalizeDeletesInner | project/start_pipeline/temp_similar_news.py:53 | an occurrence of "www." anywhere in the host is deleted, not only a leading one: the text before the first occurrence is kept and the rest is normalised on its own |
| Text.RemoveAllSkip | project/start_pipeline/temp_similar_news.py:53 | `str.replace` with an empty replacement keeps the text before the first occurrence, drops the occurrence and goes on after it |
| UrlIdentity.NormalizeInnerWww | project/start_pipeline/temp_similar_news.py:53 | host "news.www.x.com" normalises to "news.x.com" |
| UrlIdentity.NormalizeIgnoresDecoration | project/start_pipeline/temp_similar_news.py:50-54 | URLs that differ only in params, query, fragment or a leading "www." have the same normal form |
| UrlIdentity.NormalizeNotIdempotent | project/start_pipeline/temp_similar_news.py:53 | deleting every "www." can splice a new one together: host "wwwww.w." normalises to "www." and then to "" |
| UrlIdentity.HashUrl | project/start_pipeline/temp_similar_news.py:56-57 | every URL with the same normal form gets the same hash |
| UrlIdentity.HashIdentity | project/start_pipeline/temp_similar_news.py:56-57 | equal normal forms hash alike, and under an injective digest equal hashes mean equal normal forms |
| UrlIdentity.CanonicalUrl | project/start_pipeline/temp_similar_news.py:143-152 | the normalised canonical href when the page yields one, else the normalised URL itself; never carries query or fragment |
| UrlIdentity.ExtractPublisher | project/start_pipeline/temp_similar_news.py:154-156 | the publisher has no '.', is no longer than the host, equals the first host label up to letter case, and is title-cased as `str.title` leaves it, so with Text.TitleCasedUnique it is exactly the title-cased first label |
| Text.TitleFrom | project/start_pipeline/temp_similar_news.py:156 | `str.title` letter by letter: a non-letter is kept; a letter is upper-cased when it starts a run of letters and lower-cased otherwise |
| Text.TitleCaseTitled | project/start_pipeline/temp_similar_news.py:156 | a title-cased string has an upper-case letter exactly at the start of each run of letters |
| Text.TitleCasedUnique | project/start_pipeline/temp_similar_news.py:156 | two title-cased strings that agree up to letter case are equal, so title case pins the publisher down |
| UrlIdentity.SamePublisherWhenSameLabel | project/start_pipeline/temp_similar_news.py:154-156 | hosts whose first labels agree case-insensitively give publishers that agree case-insensitively |
| Seqs.FirstByKey | project/start_pipeline/temp_similar_news.py:190-196 | the kept items come from the input, have pairwise different keys, none in the initial seen set, and cover every other key of the input |
| Seqs.FirstByKeyStep | project/start_pipeline/temp_similar_news.py:192-196 | an item is appended exactly when its key is neither initially seen nor the key of an earlier item; otherwise the output is unchanged |
| Seqs.FirstByKeyCovers | project/start_pipeline/temp_similar_news.py:190-196 | an input item whose key was not initially seen has a kept item with the same key |
| Seqs.FirstByKeyFirst | project/start_pipeline/classify_news.py:100-104 | every kept item is the first input item with its key |
| Correlation.ExtractEvent | project/start_pipeline/temp_similar_news.py:67-68 | a prefix of the body: exactly its first 800 characters when it is longer, the whole body otherwise |
| Correlation.TitleQuery | project/start_pipeline/temp_similar_news.py:202 | the longest prefix of the body with no '.' and at most 150 characters |
| Correlation.Qualifying | project/start_pipeline/temp_similar_news.py:125-135 | every kept match is an input candidate with non-blank text, scored by the similarity, at or above 550; order and repeats are pinned by QualifyingAppend and QualifyingOne |
| Correlation.QualifyingAppend | project/start_pipeline/temp_similar_news.py:127-135 | the matches of consecutive candidate lists follow each other, so candidate order and repeated candidates are kept |
| Correlation.QualifyingOne | project/start_pipeline/temp_similar_news.py:127-135 | one candidate yields its scored match when its text is not blank and the score clears 550, and nothing otherwise |
| Correlation.QualifyingComplete | project/start_pipeline/temp_similar_news.py:125-135 | a candidate is kept exactly when its text is not blank and its score clears the threshold |
| Correlation.SortByScore | project/start_pipeline/temp_similar_news.py:137 | the sorted list has the input's length and non-increasing scores |
| Correlation.SortPermutes | project/start_pipeline/temp_similar_news.py:137 | the descending sort is a permutation of the matches |
| Correlation.SortStable | project/start_pipeline/temp_similar_news.py:137 | for each score, the sort keeps the input order of the matches with that score |
| Correlation.SemanticFilter | project/start_pipeline/temp_similar_news.py:121-137 | at most 7 matches, sorted by descending score, each a non-blank input candidate scoring at least 550 |
| Correlation.SemanticFilterTopK | project/start_pipeline/temp_similar_news.py:137 | when fewer copies of a qualifying match are returned than qualify, 7 were returned and each scores at least as high as that match |
| Correlation.SemanticFilterStable | project/start_pipeline/temp_similar_news.py:137 | for every score, the returned matches with that score are the first such of the qualifying list, in order |
| Pipeline.Unique | project/start_pipeline/temp_similar_news.py:189-196 | the deduplicated candidates come from the input, have pairwise different URL hashes, every input hash is represented, and they are the first candidate per hash, in input order |
| Pipeline.Matches | project/start_pipeline/temp_similar_news.py:183-204 | the first round's matches when there are any; otherwise exactly the semantic filter, with the title query of the text, over a fresh search for that query |
| Pipeline.ResolveGoogle | project/start_pipeline/temp_similar_news.py:162-171 | a final URL exactly when navigation succeeded and the URL is non-empty and outside news.google.com |
| Pipeline.Resolve | project/start_pipeline/temp_similar_news.py:216-237 | a match is dropped exactly when it does not resolve, has the input's canonical URL, or has the input's publisher; a survivor keeps title, description and score and gains its publisher |
| Pipeline.ResolveAll | project/start_pipeline/temp_similar_news.py:214-237 | every report comes from a surviving match and is foreign to the input article |
| Pipeline.ResolveAllSnoc | project/start_pipeline/temp_similar_news.py:214-237 | the reports keep match order: one more match appends its report, when it survives, after the reports so far |
| Pipeline.ResolveAllComplete | project/start_pipeline/temp_similar_news.py:216-237 | no surviving match is lost |
| Pipeline.ProcessArticle | project/start_pipeline/temp_similar_news.py:177-247 | no result exactly when extraction gives no text; otherwise the input article with its publisher, and as related reports the survivors of the matches in match order: at most 7, each scoring at least 550 and neither the input's canonical URL nor from its publisher |
| Pipeline.ItemUrl | project/start_pipeline/temp_similar_news.py:264-269 | a string item is its own URL; a dictionary gives "url" when truthy, else "link", and only when that is a string |
| Pipeline.CollectUrls | project/start_pipeline/temp_similar_news.py:262-269 | no more URLs than items, and a single item gives its own URL or nothing |
| Pipeline.CollectUrlsAppend | project/start_pipeline/temp_similar_news.py:262-269 | the URLs of consecutive item lists follow each other, so input order and repeats are kept |
| Pipeline.InputUrlsKeepsRepeats | project/start_pipeline/temp_similar_news.py:259-269 | a list naming one URL twice yields it twice |
| Pipeline.CollectUrlsMembership | project/start_pipeline/temp_similar_news.py:262-269 | a URL is collected exactly when some input item yields it |
| Pipeline.InputUrls | project/start_pipeline/temp_similar_news.py:259-280 | a list is read item by item; a dictionary is read through "results" when that is truthy and otherwise through "urls", and only when the value is a list; anything else gives no URLs |
| Pipeline.LoadState | project/start_pipeline/temp_similar_news.py:282-295 | a missing output file starts as empty results and failed URLs stamped now; an existing one is read as it is |
| Pipeline.Attempt | project/start_pipeline/temp_similar_news.py:315-332 | an article either raises or returns what process_article returns |
| Pipeline.Step | project/start_pipeline/temp_similar_news.py:304-332 | the results grow exactly when the URL's normal form is unprocessed and processing returned a result, which is appended with a new timestamp; failed URLs never change |
| Pipeline.Run | project/start_pipeline/temp_similar_news.py:304-332 | the saved results stay a prefix, at most one result is added per input URL, and failed URLs are untouched |
| Pipeline.Main | project/start_pipeline/temp_similar_news.py:253-332 | an existing file's results stay a prefix and its failed URLs are kept; a new file has no failed URLs; at most one result is added per input URL |
| Pipeline.RunResults | project/start_pipeline/temp_similar_news.py:304-332 | the results after the loop are the saved ones followed by the reports of exactly the input URLs, in order, whose normal form was not processed before the loop and whose processing returned a result |
| Pipeline.MainResults | project/start_pipeline/temp_similar_news.py:253-332 | the results of a run are the loaded file's results followed by the reports of exactly those input URLs, in order, that were unprocessed in the file and returned a result |
| Pipeline.RunAppendsOnly | project/start_pipeline/temp_similar_news.py:296-332 | saved results stay an unchanged prefix, failed URLs are untouched, and every appended result is the report of an input URL not processed before |
| Pipeline.RunSkipsProcessed | project/start_pipeline/temp_similar_news.py:296-311 | input URLs whose normal forms are all saved leave the state unchanged |
| Pipeline.RunRepeatsDuplicateInput | project/start_pipeline/temp_similar_news.py:296-318 | as written, an unprocessed URL listed twice is saved twice |
| Pipeline.RunDedup | project/start_pipeline/temp_similar_news.py:304-332 | with processed updated after each save, the saved inputs stay pairwise different and processed stays their set |
| Pipeline.RunDedupAgrees | project/start_pipeline/temp_similar_news.py:304-332 | on input URLs with pairwise different normal forms, the corrected loop saves exactly what the loop as written saves |
| Pipeline.MainDedup | project/start_pipeline/temp_similar_news.py:253-332 | the corrected run never saves one normal form twice and keeps the file's earlier results as a prefix |
| ClassifyNews.ClassifyText | project/start_pipeline/classify_news.py:53-61 | blank text is non-political without consulting the model; other text is political exactly when the model says so |
| ClassifyNews.SourceMap | project/start_pipeline/classify_news.py:97-104 | the references carry pairwise different sources |
| ClassifyNews.SourceMapContents | project/start_pipeline/classify_news.py:97-104 | every source of a report with truthy source and url is represented |
| ClassifyNews.SourceMapFirstWins | project/start_pipeline/classify_news.py:100-104 | each reference is the first mappable report of its source |
| ClassifyNews.TextPartsComplete | project/start_pipeline/classify_news.py:88-95 | every non-empty title and description of a report is among the text parts |
| ClassifyNews.TextPartsAppend | project/start_pipeline/classify_news.py:88-95 | the text parts follow report order: those of consecutive report lists are the parts of each, in turn |
| ClassifyNews.TextPartsSound | project/start_pipeline/classify_news.py:88-95 | every text part is the title or the description of some report |
| ClassifyNews.TextPartsEmptyIff | project/start_pipeline/classify_news.py:88-95 | there are no text parts exactly when every report's title and description are empty or missing |
| ClassifyNews.CombinedText | project/start_pipeline/classify_news.py:87-114 | with reports, the space-join of the text parts, empty exactly when no report has a non-empty title or description; without reports the input URL, or empty when there is none |
| ClassifyNews.MainNewsOf | project/start_pipeline/classify_news.py:118-123 | the input article's url and source name, each "Unknown" when absent |
| ClassifyNews.Entry | project/start_pipeline/classify_news.py:114-129 | the entry carries its number and main news and one of the two categories |
| ClassifyNews.EntryContents | project/start_pipeline/classify_news.py:114-129 | the entry's category is the classification of the combined text, non-political when that is blank, and its references are the source map exactly when it is non-empty |
| ClassifyNews.EntryReferences | project/start_pipeline/classify_news.py:114-129 | an entry has a references key exactly when some report is mappable, and its references have distinct sources |
| ClassifyNews.ProcessEvent | project/start_pipeline/classify_news.py:75-131 | one entry per input result, in order, numbered 1, 2, 3, ... |
| Bias.BiasMap | project/blueprints/LCR_classified.py:15-18 | every publisher's lower-cased domain is a key; keys and labels are lower case |
| Bias.BiasMapKeys | project/blueprints/LCR_classified.py:15-18 | the keys are exactly the publishers' lower-cased domains |
| Bias.BiasMapLastWins | project/blueprints/LCR_classified.py:15-18 | a domain maps to the lower-cased bias of the last publisher listing it |
| Bias.BareHost | project/blueprints/LCR_classified.py:36-41 | the lower-cased host; when it starts with "www." the result is what follows those four characters, otherwise the whole lower-cased host |
| Bias.LastTwoLabels | project/blueprints/LCR_classified.py:44-46 | a suffix of the host with at most one '.': the whole host exactly when it has at most one '.', otherwise the part after a '.' with exactly one '.' in it |
| Bias.ExtractDomain | project/blueprints/LCR_classified.py:34-50 | the domain is lower case with at most one '.' |
| Bias.ExtractDomainCut | project/blueprints/LCR_classified.py:34-48 | the domain is the stripped tail of the bare host: all of it when it has at most one '.', otherwise the part after its second-to-last '.' |
| Bias.ExtractDomainSubdomains | project/blueprints/LCR_classified.py:43-48 | "m.epaper.thehindu.com" is reduced to "thehindu.com" |
| Bias.ExtractDomainShortHost | project/blueprints/LCR_classified.py:34-48 | a host with at most one '.' and no surrounding white space is its own domain, "www." aside |
| Bias.GetBias | project/blueprints/LCR_classified.py:53-55 | the mapped label of the URL's domain, "unknown" when unmapped |
| Bias.GetBiasFromList | project/blueprints/LCR_classified.py:53-55 | through the publisher list, a URL gets the last matching publisher's bias, whatever the host's letter case |
| Bias.GetBiasUnlisted | project/blueprints/LCR_classified.py:53-55 | a URL whose domain no publisher lists is "unknown" |
| Bias.WingDistribution | project/blueprints/LCR_classified.py:57-76 | all zeros for no labels, otherwise each of the five labels' share of the list |
| Bias.WingSum | project/blueprints/LCR_classified.py:67-76 | a non-empty distribution over the five labels adds up to 100 percent |
| Bias.DetermineFinalBias | project/blueprints/LCR_classified.py:78-99 | the verdict is left, center, right or undefined |
| Bias.DetermineByCounts | project/blueprints/LCR_classified.py:82-99 | the verdict depends only on the label counts and the number of known labels |
| Bias.FinalBiasClosedForm | project/blueprints/LCR_classified.py:78-99 | a political label wins exactly when "unbiased" is no strict majority of the known labels and the label strictly outnumbers each of the other two |
| Bias.FinalBiasAbstains | project/blueprints/LCR_classified.py:79-89 | no labels, only "unknown" labels, or an "unbiased" majority give "undefined" |
| Bias.FinalBiasUnbiasedMajority | project/blueprints/LCR_classified.py:88-89 | unbiased 3, left 1 gives "undefined" |
| Bias.FinalBiasTie | project/blueprints/LCR_classified.py:94-99 | a left-right tie gives "undefined" |
| Bias.FinalBiasIgnoresUnknown | project/blueprints/LCR_classified.py:82-86 | "unknown" labels do not vote: left 3, right 1, unknown 2 gives left |
| Bias.ClassifyArticle | project/blueprints/LCR_classified.py:119-142 | a non-political entry comes back unchanged with the non-political tag; a political one gets the final bias and wing distribution of its reference labels plus its known main-source label |
| Bias.ClassifyArticleCounts | project/blueprints/LCR_classified.py:125-140 | total_references counts the references plus a known main source, and the label counts are exactly those labels |
| Bias.ClassifyAll | project/blueprints/LCR_classified.py:145-152 | the political side is the political entries classified, the other side the rest unchanged, each in input order |
| Bias.PartitionCount | project/blueprints/LCR_classified.py:148-150 | every entry lands on exactly one side |
| Bias.PoliticalVerdicts | project/blueprints/LCR_classified.py:157-169 | the final biases of the classified political side are, in order, the verdicts on the political entries |
| Bias.PoliticalSideClassified | project/blueprints/LCR_classified.py:157-169 | every political entry comes back classified, with one of the four final labels |
| Bias.SaveResults | project/blueprints/LCR_classified.py:154-191 | the totals add up to the number of entries; each of the four final-bias counts is the number of political entries with that verdict, so they add up to the political ones |
| FeedEntries.GuidOf | project/blueprints/raw_news.py:22 | the entry's id when it has one, otherwise its link; missing exactly when both are |
| FeedEntries.ArticleOf | project/blueprints/raw_news.py:22-36 | the article carries the entry's GUID and a lower-case normalized title |
| FeedEntries.NormalizedTitleIgnoresCase | project/blueprints/raw_news.py:28 | titles equal up to case get the same normalized title, and a lower-case title is kept as it is |
| FeedEntries.FlattenMembership | project/blueprints/raw_news.py:18-21 | an entry is visited exactly when some source's feed lists it |
| FeedEntries.ScanEntry | project/blueprints/raw_news.py:22-39 | an entry is kept exactly when its GUID is unseen; a kept entry's article is appended and its GUID added, a skipped one changes nothing |
| RawNews.FetchRssFeeds | project/blueprints/raw_news.py:12-41 | the articles of the first entry per unseen GUID, in visiting order, none with an existing GUID and none sharing one; seen grows by exactly their GUIDs and then covers every GUID of the feeds |
| RawNews.FetchAndStore | project/blueprints/raw_news.py:44-74 | "No new articles found" with 0 inserted exactly when nothing is new; otherwise the rows of the new articles are inserted, in order, and counted |
| RawNews.RowsOf | project/blueprints/raw_news.py:54-66 | one row per new article, in order, carrying its GUID |
| RawNews.InsertBatches | project/blueprints/raw_news.py:67-72 | the batches concatenate to the rows, each holds 1 to 500 rows, all but the last are full, and inserted counts every row |
| RawNews.StoreTwiceFindsNothing | project/blueprints/raw_news.py:47-53 | a second run after a store finds nothing new |
| IndianFeed.LoadArticles | project/start_pipeline/fetch_news_indian.py:11-19 | the decoded list, or an empty one for a missing or undecodable file |
| IndianFeed.Collect | project/start_pipeline/fetch_news_indian.py:11-48 | the saved articles stay a prefix followed by the articles of the first entry per unseen GUID; there is one write per append, holding the list as it then stood; a missing or undecodable file starts empty |
| IndianFeed.CollectFeeds | project/start_pipeline/fetch_news_indian.py:21-48 | from a given saved list, the appended articles are those of the first entry of each GUID not already saved, in visiting order, with one write per append |
| IndianFeed.CollectTwiceAddsNothing | project/start_pipeline/fetch_news_indian.py:21-44 | running again on the written file appends nothing |

## Left out

- I/O is left out: file reads and writes, the Supabase table, feed fetching and parsing, HTTP, HTML parsing, the headless browser, the sentence-embedding model and the clock. Each is a parameter or an input value. The printed messages and the `__main__` blocks are not modelled.
- `urlparse`/`urlunparse` are replaced by a parsed `Url` record. `UrlIdentity.ToText` is a simplified `urlunparse` that only supports the "news.google.com" substring test and the URL text of `classify_news.py`.
- Strings are ASCII: `lower`, `title`, `strip` and `split` case-map or trim only ASCII characters.
- Similarity scores are integers in thousandths. The source compares the unrounded float with 0.55 and sorts by the score rounded to 3 decimals. Floating point is not modelled.
- Bias.WingDistribution: percentages are exact rationals, not rounded to 2 decimals. The sum-to-100 lemma therefore holds exactly, which the rounded floats need not.
- Pipeline.Matches: `fetch_google_news` keeps at most 30 entries. That cap belongs to the search oracle and is not restated.
- `fetch_rss` and `fetch_google_news` are inputs: the feed candidates and the search function of `Pipeline.Services`.
- Pipeline.Step: the `isinstance(url, str)` guard in the loop is always true for the URLs `InputUrls` collects, so it is not modelled.
- The clock reading is one value `now` per run of the feed scripts. `createdAt` and `updatedAt` are therefore equal, while the source reads the clock twice per article.
- RawNews.FetchAndStore: the exception path that returns `{"error": ...}` is not modelled. Neither are database errors or their partial inserts.
- The source-list configuration (`rss_sources_indian`) is an input: the feeds, each paired with its source record.
- Pipeline.LoadState: an existing output file is taken to hold a `results` list whose dictionaries all carry `input_article.url`, and a `failed_urls` list. Two error paths of the resume logic (temp_similar_news.py:292-325) are therefore not modelled. First, a saved dictionary without `input_article` raises a KeyError while `processed` is built (line 297), so `main` stops before the loop. Second, a file without a `"results"` key passes `saved.get("results", [])` (line 295), but every later save raises a KeyError at `data["results"]` (line 322). That error is caught and printed, so the file is never written, while `Pipeline.Step` appends regardless.
- IndianFeed.Collect: the decoded JSON is taken to be a list of article records. Other JSON shapes are not modelled.
- The first `classify_article` definition in `LCR_classified.py` (lines 101-117) is overridden by the second (line 119) and is not modelled.
- Behaviour of the code worth noting, which the model follows:
  - `normalize_url` deletes every "www." from the host, not only a leading one, and does not lower-case the host.
  - `failed_urls` is never appended to; an exception is only printed.
  - Related reports are not forced to come from distinct publishers. Only the input article's own publisher is excluded.
  - The bias lookup key drops a single leading "www." and keeps the last two labels.

## Findings

| source | as written | input that shows it | evidently intended | confidence | as-written member | corrected member |
|---|---|---|---|---|---|---|
| project/start_pipeline/temp_similar_news.py:296-318 | `processed` is built once before the loop and never updated when a result is saved | an input list naming the same unsaved URL twice, where `process_article` returns a result: the report is appended and saved twice | each normalised input URL is processed and saved at most once per output file | medium, not executed | Pipeline.RunRepeatsDuplicateInput | Pipeline.RunDedup |
