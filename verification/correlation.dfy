/**
  The correlation matcher of temp_similar_news.py: the event text, the
  fallback title query, and `semantic_filter`, which keeps candidates whose
  similarity to the event clears a threshold and returns the best seven in
  stable descending score order. The embedding model is the `Similarity`
  parameter; scores are integers in thousandths.
 */
module Correlation {
  import opened Text
  import opened UrlIdentity
  import Seqs

  /** `SIMILARITY_THRESHOLD = 0.55`, in thousandths. */
  const SimilarityThreshold := 550

  /** `semantic_filter` returns at most this many matches. */
  const MaxMatches := 7

  /** `extract_event` keeps this many characters of the article body. */
  const EventLength := 800

  /** The fallback title query is capped at this many characters. */
  const TitleQueryLength := 150

  /** A feed or search result: `{title, description, url, source}`. */
  datatype Candidate = Candidate(title: string, description: string, url: Url, source: string)

  /** A candidate annotated with its `similarity_score`. */
  datatype Match = Match(candidate: Candidate, score: int)

  /** Cosine similarity of the embeddings of two texts, in thousandths. */
  type Similarity = (string, string) -> int

  /** The text a candidate is embedded by: `title + " " + description`. */
  function CandidateText(c: Candidate): string {
    c.title + " " + c.description
  }

  /** `extract_event`: the first 800 characters of the article body. */
  function ExtractEvent(text: string): (r: string)
    ensures r <= text
    ensures |r| <= EventLength
    ensures |text| <= EventLength ==> r == text
    ensures |text| > EventLength ==> |r| == EventLength
  {
    Take(text, EventLength)
  }

  /**
    The retry query `text.split(".")[0][:150]`: the longest prefix of the
    body that has no '.' and at most 150 characters.
   */
  function TitleQuery(text: string): (r: string)
    ensures r <= text
    ensures '.' !in r
    ensures |r| <= TitleQueryLength
    ensures |r| < TitleQueryLength ==> r == text || text[|r|] == '.'
  {
    var first := FirstPiece(text, '.');
    var r := Take(first, TitleQueryLength);
    assert forall i :: 0 <= i < |r| ==> r[i] == first[i];
    r
  }

  /** The candidates that clear the threshold, scored, in input order (the loop of `semantic_filter`). */
  function Qualifying(sim: Similarity, event: string, cs: seq<Candidate>): (r: seq<Match>)
    ensures |r| <= |cs|
    ensures forall i :: 0 <= i < |r| ==>
              && r[i].candidate in cs
              && !IsBlank(CandidateText(r[i].candidate))
              && r[i].score == sim(event, CandidateText(r[i].candidate))
              && r[i].score >= SimilarityThreshold
    decreases |cs|
  {
    if |cs| == 0 then []
    else
      var c := cs[0];
      var text := CandidateText(c);
      var rest := Qualifying(sim, event, cs[1..]);
      if IsBlank(text) || sim(event, text) < SimilarityThreshold then rest
      else [Match(c, sim(event, text))] + rest
  }

  /** A candidate is scored and kept exactly when its text is not blank and its score clears the threshold. */
  lemma {:induction false} QualifyingComplete(sim: Similarity, event: string, cs: seq<Candidate>, c: Candidate)
    requires c in cs
    ensures Match(c, sim(event, CandidateText(c))) in Qualifying(sim, event, cs) <==>
              !IsBlank(CandidateText(c)) && sim(event, CandidateText(c)) >= SimilarityThreshold
    decreases |cs|
  {
    if cs[0] != c {
      QualifyingComplete(sim, event, cs[1..], c);
    }
  }

  /**
    Qualifying is compositional: the matches of consecutive candidate lists
    follow each other, so candidate order and repeated candidates are kept.
   */
  lemma {:induction false} QualifyingAppend(sim: Similarity, event: string, a: seq<Candidate>, b: seq<Candidate>)
    ensures Qualifying(sim, event, a + b) == Qualifying(sim, event, a) + Qualifying(sim, event, b)
    decreases |a|
  {
    if |a| == 0 {
      assert a + b == b;
    } else {
      QualifyingAppend(sim, event, a[1..], b);
      assert (a + b)[0] == a[0] && (a + b)[1..] == a[1..] + b;
      QualifyingUnfold(sim, event, a + b);
      QualifyingUnfold(sim, event, a);
      Seqs.PrependAppend(Qualifying(sim, event, a + b), Qualifying(sim, event, a), Qualify(sim, event, a[0]),
                         Qualifying(sim, event, a[1..]), Qualifying(sim, event, b));
    }
  }

  /** The match of one candidate: none when its text is blank or it scores below the threshold. */
  function Qualify(sim: Similarity, event: string, c: Candidate): seq<Match> {
    if IsBlank(CandidateText(c)) || sim(event, CandidateText(c)) < SimilarityThreshold then []
    else [Match(c, sim(event, CandidateText(c)))]
  }

  /** A single candidate yields its match exactly when it qualifies, and nothing otherwise. */
  lemma QualifyingOne(sim: Similarity, event: string, c: Candidate)
    ensures Qualifying(sim, event, [c]) ==
              if IsBlank(CandidateText(c)) || sim(event, CandidateText(c)) < SimilarityThreshold
              then [] else [Match(c, sim(event, CandidateText(c)))]
  {
    QualifyingUnfold(sim, event, [c]);
    assert [c][1..] == [];
  }

  /** The first candidate contributes its own match, if any, in front of the rest's. */
  lemma QualifyingUnfold(sim: Similarity, event: string, cs: seq<Candidate>)
    requires |cs| > 0
    ensures Qualifying(sim, event, cs) == Qualify(sim, event, cs[0]) + Qualifying(sim, event, cs[1..])
  {
  }

  predicate SortedDesc(ms: seq<Match>) {
    forall i, j :: 0 <= i < j < |ms| ==> ms[i].score >= ms[j].score
  }

  /** The matches carrying score `s`, in order. */
  function WithScore(ms: seq<Match>, s: int): (r: seq<Match>)
    ensures forall i :: 0 <= i < |r| ==> r[i].score == s
    decreases |ms|
  {
    if |ms| == 0 then []
    else
      var last := ms[|ms| - 1];
      WithScore(ms[..|ms| - 1], s) + (if last.score == s then [last] else [])
  }

  lemma {:induction false} WithScoreAppend(a: seq<Match>, b: seq<Match>, s: int)
    ensures WithScore(a + b, s) == WithScore(a, s) + WithScore(b, s)
    decreases |b|
  {
    if |b| == 0 {
      assert a + b == a;
    } else {
      var init := b[..|b| - 1];
      WithScoreAppend(a, init, s);
      assert (a + b)[..|a + b| - 1] == a + init;
      assert (a + b)[|a + b| - 1] == b[|b| - 1];
    }
  }

  /** Places `m` after every match scoring at least as much: insertion for a stable descending sort. */
  function Insert(m: Match, sorted: seq<Match>): (r: seq<Match>)
    ensures |r| == |sorted| + 1
    decreases |sorted|
  {
    if |sorted| == 0 then [m]
    else if sorted[|sorted| - 1].score >= m.score then sorted + [m]
    else Insert(m, sorted[..|sorted| - 1]) + [sorted[|sorted| - 1]]
  }

  lemma {:induction false} InsertMultiset(m: Match, ys: seq<Match>)
    ensures multiset(Insert(m, ys)) == multiset(ys) + multiset{m}
    decreases |ys|
  {
    if |ys| > 0 && ys[|ys| - 1].score < m.score {
      InsertMultiset(m, ys[..|ys| - 1]);
      assert ys == ys[..|ys| - 1] + [ys[|ys| - 1]];
    }
  }

  lemma {:induction false} InsertSorted(m: Match, ys: seq<Match>)
    requires SortedDesc(ys)
    ensures SortedDesc(Insert(m, ys))
    decreases |ys|
  {
    if |ys| > 0 && ys[|ys| - 1].score < m.score {
      var init := ys[..|ys| - 1];
      var last := ys[|ys| - 1];
      InsertSorted(m, init);
      InsertMultiset(m, init);
      var r := Insert(m, init) + [last];
      forall i | 0 <= i < |r| - 1 ensures r[i].score >= last.score {
        assert r[i] in multiset(init) + multiset{m};
        if r[i] != m {
          assert r[i] in init;
          var k :| 0 <= k < |init| && init[k] == r[i];
          assert ys[k] == r[i];
        }
      }
    }
  }

  lemma {:induction false} InsertWithScore(m: Match, ys: seq<Match>, s: int)
    requires SortedDesc(ys)
    ensures WithScore(Insert(m, ys), s) == WithScore(ys, s) + (if m.score == s then [m] else [])
    decreases |ys|
  {
    if |ys| == 0 {
      assert [m][..0] == [];
    } else if ys[|ys| - 1].score >= m.score {
      assert (ys + [m])[..|ys|] == ys;
    } else {
      var init := ys[..|ys| - 1];
      var last := ys[|ys| - 1];
      InsertWithScore(m, init, s);
      var r := Insert(m, init) + [last];
      assert r[..|r| - 1] == Insert(m, init);
    }
  }

  function Min(a: int, b: int): int { if a < b then a else b }

  /** `sorted(ms, key=score, reverse=True)`: Python's sort is stable. */
  function SortByScore(ms: seq<Match>): (r: seq<Match>)
    ensures |r| == |ms|
    ensures SortedDesc(r)
    decreases |ms|
  {
    if |ms| == 0 then []
    else
      var sortedInit := SortByScore(ms[..|ms| - 1]);
      InsertSorted(ms[|ms| - 1], sortedInit);
      Insert(ms[|ms| - 1], sortedInit)
  }

  /** The sort is a permutation. */
  lemma {:induction false} SortPermutes(ms: seq<Match>)
    ensures multiset(SortByScore(ms)) == multiset(ms)
    decreases |ms|
  {
    if |ms| > 0 {
      var init := ms[..|ms| - 1];
      var last := ms[|ms| - 1];
      SortPermutes(init);
      InsertMultiset(last, SortByScore(init));
      assert SortByScore(ms) == Insert(last, SortByScore(init));
      assert ms == init + [last];
      assert multiset(ms) == multiset(init) + multiset{last};
    }
  }

  /** The sort is stable: for each score, the matches with that score keep their input order. */
  lemma {:induction false} SortStable(ms: seq<Match>, s: int)
    ensures WithScore(SortByScore(ms), s) == WithScore(ms, s)
    decreases |ms|
  {
    if |ms| > 0 {
      var init := ms[..|ms| - 1];
      SortStable(init, s);
      InsertWithScore(ms[|ms| - 1], SortByScore(init), s);
    }
  }

  /**
    `semantic_filter`: the qualifying candidates sorted by score, highest
    first, cut to the first seven.
   */
  function SemanticFilter(sim: Similarity, event: string, cs: seq<Candidate>): (r: seq<Match>)
    ensures |r| <= MaxMatches
    ensures SortedDesc(r)
    ensures forall i :: 0 <= i < |r| ==>
              && r[i].candidate in cs
              && !IsBlank(CandidateText(r[i].candidate))
              && r[i].score == sim(event, CandidateText(r[i].candidate))
              && r[i].score >= SimilarityThreshold
  {
    var q := Qualifying(sim, event, cs);
    var sorted := SortByScore(q);
    var r := sorted[..Min(MaxMatches, |sorted|)];
    SortPermutes(q);
    forall i | 0 <= i < |r| ensures r[i] in q {
      assert r[i] in multiset(sorted);
    }
    r
  }

  /**
    Nothing better is left out: when fewer copies of a qualifying match are
    returned than qualify, seven were returned and every one of them scores
    at least as high as that match.
   */
  lemma SemanticFilterTopK(sim: Similarity, event: string, cs: seq<Candidate>, m: Match)
    requires multiset(SemanticFilter(sim, event, cs))[m] < multiset(Qualifying(sim, event, cs))[m]
    ensures |SemanticFilter(sim, event, cs)| == MaxMatches
    ensures forall i :: 0 <= i < MaxMatches ==> SemanticFilter(sim, event, cs)[i].score >= m.score
  {
    var q := Qualifying(sim, event, cs);
    var sorted := SortByScore(q);
    SortPermutes(q);
    var n := Min(MaxMatches, |sorted|);
    var r := SemanticFilter(sim, event, cs);
    assert r == sorted[..n];
    var k := Seqs.CutCopy(sorted, n, m);
    forall i | 0 <= i < MaxMatches ensures r[i].score >= m.score {
      assert r[i] == sorted[i];
    }
  }

  /**
    Ties keep their discovery order: for every score, the returned matches
    with that score are the first ones of the qualifying list with that score.
   */
  lemma SemanticFilterStable(sim: Similarity, event: string, cs: seq<Candidate>, s: int)
    ensures WithScore(SemanticFilter(sim, event, cs), s) <= WithScore(Qualifying(sim, event, cs), s)
  {
    var q := Qualifying(sim, event, cs);
    var sorted := SortByScore(q);
    var n := Min(MaxMatches, |sorted|);
    assert sorted == sorted[..n] + sorted[n..];
    WithScoreAppend(sorted[..n], sorted[n..], s);
    SortStable(q, s);
  }
}
