/**
  Bias aggregation of LCR_classified.py (`NewsBiasClassifier`): publisher
  domains map to bias labels, each political news entry gets a final bias by
  majority over the labels of its references and main source, and the run
  is summarised by counts.

  Percentages are exact rationals (Dafny `real`); the source rounds them to
  two decimals.
 */
module Bias {
  import opened Wrappers
  import opened Text
  import opened Seqs
  import opened UrlIdentity
  import opened ClassifyNews

  const Left := "left"
  const Center := "center"
  const Right := "right"
  const Unbiased := "unbiased"
  const UnknownBias := "unknown"
  const Undefined := "undefined"

  /** The tags `classify_article` returns. */
  const PoliticalTag := "political"
  const NonPoliticalTag := "non-political"

  /** A record of the publisher list: `{"Domain": ..., "Final Bias": ...}`. */
  datatype Publisher = Publisher(domain: string, finalBias: string)

  // ---------------------------------------------------------------------------
  // Domain and bias lookup
  // ---------------------------------------------------------------------------

  /**
    `domain_bias_map`: lower-cased domain to lower-cased bias; the dict
    comprehension lets a later publisher overwrite an earlier one with the
    same lower-cased domain. The keys are exactly the publishers' domains.
   */
  function BiasMap(pubs: seq<Publisher>): (m: map<string, string>)
    ensures forall d :: d in m ==> IsLower(d) && IsLower(m[d])
    ensures forall k :: 0 <= k < |pubs| ==> Lower(pubs[k].domain) in m
    decreases |pubs|
  {
    if |pubs| == 0 then map[]
    else
      var p := pubs[|pubs| - 1];
      var m := BiasMap(pubs[..|pubs| - 1]);
      assert forall k :: 0 <= k < |pubs| - 1 ==> pubs[..|pubs| - 1][k] == pubs[k];
      m[Lower(p.domain) := Lower(p.finalBias)]
  }

  /** The keys are exactly the publishers' lower-cased domains: nothing else is mapped. */
  lemma {:induction false} BiasMapKeys(pubs: seq<Publisher>)
    ensures BiasMap(pubs).Keys == Domains(pubs)
    decreases |pubs|
  {
    if |pubs| > 0 {
      BiasMapKeys(pubs[..|pubs| - 1]);
      DomainsSnoc(pubs);
    }
  }

  /** The lower-cased domains of the publisher list. */
  function Domains(pubs: seq<Publisher>): set<string> {
    set k | 0 <= k < |pubs| :: Lower(pubs[k].domain)
  }

  lemma DomainsSnoc(pubs: seq<Publisher>)
    requires |pubs| > 0
    ensures Domains(pubs) == Domains(pubs[..|pubs| - 1]) + {Lower(pubs[|pubs| - 1].domain)}
  {
    var init := pubs[..|pubs| - 1];
    forall d | d in Domains(pubs) ensures d in Domains(init) + {Lower(pubs[|pubs| - 1].domain)} {
      var k :| 0 <= k < |pubs| && Lower(pubs[k].domain) == d;
      if k < |init| {
        assert init[k] == pubs[k];
      }
    }
    forall d | d in Domains(init) ensures d in Domains(pubs) {
      var k :| 0 <= k < |init| && Lower(init[k].domain) == d;
      assert init[k] == pubs[k];
    }
  }

  /** Last wins: a domain maps to the bias of the last publisher listing it. */
  lemma {:induction false} BiasMapLastWins(pubs: seq<Publisher>, k: int)
    requires 0 <= k < |pubs|
    requires forall j :: k < j < |pubs| ==> Lower(pubs[j].domain) != Lower(pubs[k].domain)
    ensures BiasMap(pubs)[Lower(pubs[k].domain)] == Lower(pubs[k].finalBias)
    decreases |pubs|
  {
    var n := |pubs| - 1;
    if k < n {
      var init := pubs[..n];
      forall j | k < j < |init| ensures Lower(init[j].domain) != Lower(init[k].domain) {
        assert init[j] == pubs[j] && init[k] == pubs[k];
      }
      BiasMapLastWins(init, k);
      assert init[k] == pubs[k];
    }
  }

  /** The host as `extract_domain` first reduces it: lower-cased, one leading "www." dropped. */
  function BareHost(u: Url): (h: string)
    ensures IsLower(h)
    ensures StartsWith(Lower(u.netloc), Www) ==> Www + h == Lower(u.netloc)
    ensures !StartsWith(Lower(u.netloc), Www) ==> h == Lower(u.netloc)
  {
    var host := Lower(u.netloc);
    if StartsWith(host, Www) then
      SliceLower(host, 4, |host|);
      assert host == host[..4] + host[4..];
      host[4..]
    else host
  }

  /**
    "Remove subdomains": the last two dot-labels when there are more than
    two. The result is a suffix of the host with at most one '.': the whole
    host exactly when it has at most one '.', and otherwise the part after
    its second-to-last '.'.
   */
  function LastTwoLabels(h: string): (t: string)
    ensures |t| <= |h| && t == h[|h| - |t|..]
    ensures multiset(t)['.'] <= 1
    ensures t == h <==> multiset(h)['.'] <= 1
    ensures t != h ==> h[|h| - |t| - 1] == '.' && multiset(t)['.'] == 1
  {
    var parts := Split(h, '.');
    SplitCount(h, '.');
    if |parts| > 2 then
      LastTwoLabelsCut(h);
      Join(parts[|parts| - 2..], '.')
    else h
  }

  /** With more than two labels, the host is some front, a '.', and the two last labels joined. */
  lemma LastTwoLabelsCut(h: string)
    requires |Split(h, '.')| > 2
    ensures var parts := Split(h, '.');
            var t := Join(parts[|parts| - 2..], '.');
            && |t| < |h| && h == h[..|h| - |t| - 1] + ['.'] + t
            && h[|h| - |t| - 1] == '.' && h[|h| - |t|..] == t
            && multiset(t)['.'] == 1
  {
    var parts := Split(h, '.');
    var k := |parts|;
    JoinSplit(h, '.');
    var t := Join(parts[k - 2..], '.');
    JoinAt(parts, '.', k - 2);
    var front := Join(parts[..k - 2], '.');
    assert h == front + ['.'] + t;
    assert parts[k - 2..][1..] == [parts[k - 1]];
    assert t == parts[k - 2] + ['.'] + parts[k - 1];
    assert multiset(parts[k - 2])['.'] == 0 && multiset(parts[k - 1])['.'] == 0;
    assert multiset(t) == multiset(parts[k - 2]) + multiset{'.'} + multiset(parts[k - 1]);
    assert h[..|h| - |t| - 1] == front;
    assert h[|h| - |t|..] == t;
  }

  /**
    `extract_domain`: lower-cased host without one leading "www.", reduced to
    its last two labels, stripped of white space. The result is lower-case
    and has at most one '.'.
   */
  function ExtractDomain(u: Url): (r: string)
    ensures IsLower(r)
    ensures multiset(r)['.'] <= 1
  {
    var t := LastTwoLabels(BareHost(u));
    LastTwoLabelsLower(BareHost(u));
    StripKeeps(t, '.');
    Strip(t)
  }

  lemma LastTwoLabelsLower(h: string)
    requires IsLower(h)
    ensures IsLower(LastTwoLabels(h)) && multiset(LastTwoLabels(h))['.'] <= 1
  {
    var t := LastTwoLabels(h);
    SliceLower(h, |h| - |t|, |h|);
  }

  /**
    Where the domain is cut: it is the stripped tail of the bare host that
    starts at 0 when the host has at most one '.', and otherwise just after a
    '.' with exactly one '.' to its right, that is, after the second-to-last '.'.
   */
  lemma ExtractDomainCut(u: Url)
    ensures var h := BareHost(u);
            exists k :: 0 <= k <= |h| && ExtractDomain(u) == Strip(h[k..])
                        && (k == 0 <==> multiset(h)['.'] <= 1)
                        && (k > 0 ==> h[k - 1] == '.' && multiset(h[k..])['.'] == 1)
  {
    var h := BareHost(u);
    var t := LastTwoLabels(h);
    var k := |h| - |t|;
    assert h[k..] == t;
    assert ExtractDomain(u) == Strip(h[k..]);
    CutAt(h, t, k);
  }

  /** The cut `LastTwoLabels` makes, read off its contract. */
  lemma CutAt(h: string, t: string, k: int)
    requires t == LastTwoLabels(h) && k == |h| - |t|
    ensures 0 <= k <= |h| && h[k..] == t
    ensures k == 0 <==> multiset(h)['.'] <= 1
    ensures k > 0 ==> h[k - 1] == '.' && multiset(h[k..])['.'] == 1
  {
    if k == 0 {
      assert t == h[0..] == h;
    }
  }

  /** A host with at most one '.' and no surrounding white space is its own domain, "www." aside. */
  lemma ExtractDomainShortHost(u: Url)
    requires multiset(BareHost(u))['.'] <= 1
    requires |BareHost(u)| > 0 ==> !IsSpace(BareHost(u)[0]) && !IsSpace(BareHost(u)[|BareHost(u)| - 1])
    ensures ExtractDomain(u) == BareHost(u)
  {
    StripUnpadded(BareHost(u));
  }

  /** Nothing to strip. */
  lemma StripUnpadded(s: string)
    requires |s| > 0 ==> !IsSpace(s[0]) && !IsSpace(s[|s| - 1])
    ensures Strip(s) == s
  {
  }

  /** A worked case: "m.epaper.thehindu.com" is reduced to "thehindu.com". */
  lemma ExtractDomainSubdomains()
    ensures ExtractDomain(Url("https", "m.epaper.thehindu.com", "/a", "", "", "")) == "thehindu.com"
  {
    var u := Url("https", "m.epaper.thehindu.com", "/a", "", "", "");
    HinduBareHost(u);
    HinduLastTwo("m.epaper.thehindu.com");
    HinduUnpadded("thehindu.com");
  }

  // The helpers below take the example's strings as parameters: the solver
  // unrolls Split and Join on literal arguments far more eagerly.

  lemma HinduBareHost(u: Url)
    requires u.netloc == "m.epaper.thehindu.com"
    ensures BareHost(u) == "m.epaper.thehindu.com"
  {
    LowerOfLower(u.netloc);
    assert u.netloc[..4][0] != Www[0];
  }

  lemma HinduLastTwo(h: string)
    requires h == "m.epaper.thehindu.com"
    ensures LastTwoLabels(h) == "thehindu.com"
  {
    var parts := HinduSplit(h);
    assert parts[|parts| - 2..] == ["thehindu", "com"];
    JoinTwo("thehindu", "com", '.');
    assert "thehindu" + "." + "com" == "thehindu.com";
  }

  lemma HinduSplit(h: string) returns (parts: seq<string>)
    requires h == "m.epaper.thehindu.com"
    ensures parts == ["m", "epaper", "thehindu", "com"] && Split(h, '.') == parts
  {
    parts := ["m", "epaper", "thehindu", "com"];
    HinduJoin(parts);
    HinduLabels(parts);
    SplitJoin(parts, '.');
  }

  lemma HinduUnpadded(s: string)
    requires s == "thehindu.com"
    ensures Strip(s) == s
  {
    assert !IsSpace(s[0]) && !IsSpace(s[|s| - 1]);
    StripUnpadded(s);
  }

  lemma HinduJoin(parts: seq<string>)
    requires parts == ["m", "epaper", "thehindu", "com"]
    ensures Join(parts, '.') == "m.epaper.thehindu.com"
  {
    JoinFour(parts, '.');
    HinduCat();
  }

  lemma HinduCat()
    ensures "m" + "." + "epaper" + "." + "thehindu" + "." + "com" == "m.epaper.thehindu.com"
  {
    assert "thehindu" + "." + "com" == "thehindu.com";
    assert "epaper" + "." + "thehindu.com" == "epaper.thehindu.com";
  }

  lemma HinduLabels(parts: seq<string>)
    requires parts == ["m", "epaper", "thehindu", "com"]
    ensures forall k :: 0 <= k < |parts| ==> '.' !in parts[k]
  {
    assert '.' !in "m" && '.' !in "epaper" && '.' !in "com";
    assert '.' !in "thehindu";
  }

  lemma JoinTwo(a: string, b: string, d: char)
    ensures Join([a, b], d) == a + [d] + b
  {
    assert [a, b][1..] == [b];
  }

  lemma JoinFour(parts: seq<string>, d: char)
    requires |parts| == 4
    ensures Join(parts, d) == parts[0] + [d] + parts[1] + [d] + parts[2] + [d] + parts[3]
  {
    var p1, p2 := parts[1..], parts[2..];
    assert p2 == [parts[2], parts[3]];
    JoinTwo(parts[2], parts[3], d);
    assert p1[1..] == p2 && p1[0] == parts[1];
    assert Join(p1, d) == parts[1] + [d] + Join(p2, d);
  }

  /**
    Lookup through the publisher list when no publisher lists the URL's
    domain: the URL is "unknown".
   */
  lemma GetBiasUnlisted(pubs: seq<Publisher>, u: Url)
    requires forall k :: 0 <= k < |pubs| ==> Lower(pubs[k].domain) != ExtractDomain(u)
    ensures GetBias(BiasMap(pubs), u) == UnknownBias
  {
    BiasMapKeys(pubs);
    assert ExtractDomain(u) !in Domains(pubs);
  }

  /** `get_bias_for_url`: the mapped bias of the URL's domain, "unknown" when unmapped. */
  function GetBias(m: map<string, string>, u: Url): (r: string)
    ensures ExtractDomain(u) in m ==> r == m[ExtractDomain(u)]
    ensures ExtractDomain(u) !in m ==> r == UnknownBias
  {
    var d := ExtractDomain(u);
    if d in m then m[d] else UnknownBias
  }

  /**
    Lookup through the publisher list: a URL whose domain is some publisher's
    lower-cased domain gets the last such publisher's lower-cased bias, and
    host case never matters.
   */
  lemma GetBiasFromList(pubs: seq<Publisher>, u: Url, v: Url, k: int)
    requires 0 <= k < |pubs|
    requires forall j :: k < j < |pubs| ==> Lower(pubs[j].domain) != Lower(pubs[k].domain)
    ensures ExtractDomain(u) == Lower(pubs[k].domain) ==> GetBias(BiasMap(pubs), u) == Lower(pubs[k].finalBias)
    ensures Lower(v.netloc) == Lower(u.netloc) ==> GetBias(BiasMap(pubs), v) == GetBias(BiasMap(pubs), u)
  {
    var m := BiasMap(pubs);
    BiasMapLastWins(pubs, k);
    if ExtractDomain(u) == Lower(pubs[k].domain) {
      GetBiasAt(m, u, Lower(pubs[k].domain));
    }
    if Lower(v.netloc) == Lower(u.netloc) {
      SameHostSameDomain(u, v);
      GetBiasSameDomain(m, u, v);
    }
  }

  lemma GetBiasAt(m: map<string, string>, u: Url, d: string)
    requires d in m && ExtractDomain(u) == d
    ensures GetBias(m, u) == m[d]
  {
  }

  lemma GetBiasSameDomain(m: map<string, string>, u: Url, v: Url)
    requires ExtractDomain(v) == ExtractDomain(u)
    ensures GetBias(m, v) == GetBias(m, u)
  {
  }

  /** The domain depends on the host only up to letter case. */
  lemma SameHostSameDomain(u: Url, v: Url)
    requires Lower(v.netloc) == Lower(u.netloc)
    ensures ExtractDomain(v) == ExtractDomain(u)
  {
    assert BareHost(v) == BareHost(u);
  }

  // ---------------------------------------------------------------------------
  // Wing distribution
  // ---------------------------------------------------------------------------

  /** How often `lbl` occurs: `Counter(biases).get(lbl, 0)`. */
  function Count(bs: seq<string>, lbl: string): (n: nat)
    ensures n <= |bs|
  {
    multiset(bs)[lbl]
  }

  /** `c / t * 100`, and 0 for an empty total. */
  function Percent(c: nat, t: nat): (p: real)
    requires c <= t
    ensures 0.0 <= p <= 100.0
    ensures t > 0 ==> p * (t as real) == 100.0 * (c as real)
  {
    if t == 0 then 0.0 else ((c as real) / (t as real)) * 100.0
  }

  /** The percentage of `lbl` among `bs`, before rounding; 0 for an empty list. */
  function Share(bs: seq<string>, lbl: string): real {
    Percent(Count(bs, lbl), |bs|)
  }

  datatype Wing = Wing(left: real, center: real, right: real, unbiased: real, unknown: real)

  /** `calculate_wing_distribution`: the share of each of the five labels. */
  function WingDistribution(bs: seq<string>): (w: Wing)
    ensures |bs| == 0 ==> w == Wing(0.0, 0.0, 0.0, 0.0, 0.0)
    ensures w == Wing(Share(bs, Left), Share(bs, Center), Share(bs, Right), Share(bs, Unbiased), Share(bs, UnknownBias))
  {
    if |bs| == 0 then Wing(0.0, 0.0, 0.0, 0.0, 0.0)
    else Wing(Share(bs, Left), Share(bs, Center), Share(bs, Right), Share(bs, Unbiased), Share(bs, UnknownBias))
  }

  predicate IsWingLabel(b: string) {
    b == Left || b == Center || b == Right || b == Unbiased || b == UnknownBias
  }

  /** The five counts add up to the length when every label is one of the five. */
  lemma {:induction false} FiveCounts(bs: seq<string>)
    requires forall i :: 0 <= i < |bs| ==> IsWingLabel(bs[i])
    ensures Count(bs, Left) + Count(bs, Center) + Count(bs, Right) + Count(bs, Unbiased) + Count(bs, UnknownBias) == |bs|
    decreases |bs|
  {
    if |bs| > 0 {
      FiveCounts(bs[1..]);
      assert bs == [bs[0]] + bs[1..];
    }
  }

  /** A non-empty distribution over the five labels adds up to 100 percent. */
  lemma WingSum(bs: seq<string>)
    requires |bs| > 0
    requires forall i :: 0 <= i < |bs| ==> IsWingLabel(bs[i])
    ensures var w := WingDistribution(bs);
            w.left + w.center + w.right + w.unbiased + w.unknown == 100.0
  {
    FiveCounts(bs);
    PercentSum(Count(bs, Left), Count(bs, Center), Count(bs, Right), Count(bs, Unbiased), Count(bs, UnknownBias));
  }

  /** Five counts as percentages of their sum add up to 100. */
  lemma PercentSum(a: nat, b: nat, c: nat, d: nat, e: nat)
    requires a + b + c + d + e > 0
    ensures var t := a + b + c + d + e;
            Percent(a, t) + Percent(b, t) + Percent(c, t) + Percent(d, t) + Percent(e, t) == 100.0
  {
    var t := a + b + c + d + e;
    PercentAdd(a, b, t);
    PercentAdd(a + b, c, t);
    PercentAdd(a + b + c, d, t);
    PercentAdd(a + b + c + d, e, t);
    PercentWhole(t);
  }

  /** Percentages of one total add like the counts they are taken of. */
  lemma PercentAdd(x: nat, y: nat, t: nat)
    requires x + y <= t && t > 0
    ensures Percent(x, t) + Percent(y, t) == Percent(x + y, t)
  {
    var tr := t as real;
    var px, py, pxy := Percent(x, t), Percent(y, t), Percent(x + y, t);
    assert px * tr + py * tr == 100.0 * ((x + y) as real) == pxy * tr;
    assert (px + py - pxy) * tr == px * tr + py * tr - pxy * tr;
    ZeroFactor(px + py - pxy, tr);
  }

  lemma ZeroFactor(z: real, t: real)
    requires t > 0.0 && z * t == 0.0
    ensures z == 0.0
  {
  }

  /** The whole is 100 percent of itself. */
  lemma PercentWhole(t: nat)
    requires t > 0
    ensures Percent(t, t) == 100.0
  {
    var p := Percent(t, t);
    assert (p - 100.0) * (t as real) == p * (t as real) - 100.0 * (t as real);
  }

  // ---------------------------------------------------------------------------
  // Final bias
  // ---------------------------------------------------------------------------

  predicate IsKnown(b: string) { b != UnknownBias }

  function Max(a: int, b: int): int { if a < b then b else a }

  /**
    `determine_final_bias`: abstains ("undefined") on no known labels or an
    "unbiased" majority; otherwise picks the unique most frequent of left,
    center and right, abstaining on a tie or when none occurs.
   */
  function DetermineFinalBias(bs: seq<string>): (r: string)
    ensures r == Left || r == Center || r == Right || r == Undefined
  {
    if |bs| == 0 then Undefined
    else
      var known := Filter(bs, IsKnown);
      if |known| == 0 then Undefined
      else
        var counter := multiset(known);
        if counter[Unbiased] as real > (|known| as real) / 2.0 then Undefined
        else
          var l, c, rt := counter[Left], counter[Center], counter[Right];
          var maxCount := Max(Max(l, c), rt);
          if maxCount == 0 then Undefined
          else
            var winners := (if l == maxCount then [Left] else [])
                           + (if c == maxCount then [Center] else [])
                           + (if rt == maxCount then [Right] else []);
            if |winners| == 1 then winners[0] else Undefined
  }

  /** Dropping the "unknown" labels shortens the list by their number. */
  lemma {:induction false} KnownLength(bs: seq<string>)
    ensures |Filter(bs, IsKnown)| == |bs| - Count(bs, UnknownBias)
    decreases |bs|
  {
    if |bs| > 0 {
      KnownLength(bs[1..]);
      assert bs == [bs[0]] + bs[1..];
    }
  }

  /** The abstention threshold: "unbiased" is not a strict majority of the known labels. */
  predicate NoUnbiasedMajority(bs: seq<string>) {
    2 * Count(bs, Unbiased) <= |bs| - Count(bs, UnknownBias)
  }

  /** The decision of `determine_final_bias` on the counts of the known labels, `k` of them. */
  function Verdict(l: nat, c: nat, rt: nat, u: nat, k: nat): string {
    if k == 0 then Undefined
    else if u as real > (k as real) / 2.0 then Undefined
    else
      var maxCount := Max(Max(l, c), rt);
      if maxCount == 0 then Undefined
      else
        var winners := (if l == maxCount then [Left] else [])
                       + (if c == maxCount then [Center] else [])
                       + (if rt == maxCount then [Right] else []);
        if |winners| == 1 then winners[0] else Undefined
  }

  /** The decision depends on the list only through the five counts. */
  lemma DetermineByCounts(bs: seq<string>)
    ensures DetermineFinalBias(bs) ==
              Verdict(Count(bs, Left), Count(bs, Center), Count(bs, Right), Count(bs, Unbiased), |bs| - Count(bs, UnknownBias))
  {
    KnownLength(bs);
    FilterCount(bs, IsKnown, Left);
    FilterCount(bs, IsKnown, Center);
    FilterCount(bs, IsKnown, Right);
    FilterCount(bs, IsKnown, Unbiased);
  }

  /** `Verdict` in closed form: a label wins when "unbiased" has no strict majority and the label strictly leads. */
  lemma VerdictClosedForm(l: nat, c: nat, rt: nat, u: nat, k: nat)
    requires k == 0 ==> l == 0 && c == 0 && rt == 0
    ensures Verdict(l, c, rt, u, k) == Left <==> 2 * u <= k && l > c && l > rt
    ensures Verdict(l, c, rt, u, k) == Center <==> 2 * u <= k && c > l && c > rt
    ensures Verdict(l, c, rt, u, k) == Right <==> 2 * u <= k && rt > l && rt > c
  {
    assert (u as real > (k as real) / 2.0) <==> 2 * u > k;
  }

  /**
    The decision in closed form: a political label wins exactly when
    "unbiased" is no strict majority of the known labels and the label
    occurs strictly more often than each of the other two.
   */
  lemma FinalBiasClosedForm(bs: seq<string>)
    ensures DetermineFinalBias(bs) == Left <==>
              NoUnbiasedMajority(bs) && Count(bs, Left) > Count(bs, Center) && Count(bs, Left) > Count(bs, Right)
    ensures DetermineFinalBias(bs) == Center <==>
              NoUnbiasedMajority(bs) && Count(bs, Center) > Count(bs, Left) && Count(bs, Center) > Count(bs, Right)
    ensures DetermineFinalBias(bs) == Right <==>
              NoUnbiasedMajority(bs) && Count(bs, Right) > Count(bs, Left) && Count(bs, Right) > Count(bs, Center)
  {
    DetermineByCounts(bs);
    KnownLength(bs);
    if Count(bs, UnknownBias) == |bs| {
      FilterCount(bs, IsKnown, Left);
      FilterCount(bs, IsKnown, Center);
      FilterCount(bs, IsKnown, Right);
    }
    VerdictClosedForm(Count(bs, Left), Count(bs, Center), Count(bs, Right), Count(bs, Unbiased), |bs| - Count(bs, UnknownBias));
  }

  /** Abstention: no labels, only "unknown" labels, or an "unbiased" majority give "undefined". */
  lemma FinalBiasAbstains(bs: seq<string>)
    requires Count(bs, UnknownBias) == |bs| || !NoUnbiasedMajority(bs)
    ensures DetermineFinalBias(bs) == Undefined
  {
    FinalBiasClosedForm(bs);
    KnownLength(bs);
    if Count(bs, UnknownBias) == |bs| {
      FilterCount(bs, IsKnown, Left);
      FilterCount(bs, IsKnown, Center);
      FilterCount(bs, IsKnown, Right);
    }
  }

  /** A documented case: {unbiased: 3, left: 1} abstains on the "unbiased" majority. */
  lemma FinalBiasUnbiasedMajority()
    ensures DetermineFinalBias([Unbiased, Unbiased, Unbiased, Left]) == Undefined
  {
    var a := [Unbiased, Unbiased, Unbiased, Left];
    assert multiset(a)[Unbiased] == 3;
    FinalBiasAbstains(a);
  }

  /** A documented case: the tie {left: 2, right: 2} abstains. */
  lemma FinalBiasTie()
    ensures DetermineFinalBias([Left, Left, Right, Right]) == Undefined
  {
    var b := [Left, Left, Right, Right];
    FinalBiasClosedForm(b);
    assert multiset(b)[Left] == 2 && multiset(b)[Right] == 2;
  }

  /** A documented case: {left: 3, right: 1, unknown: 2} is left; the unknowns do not vote. */
  lemma FinalBiasIgnoresUnknown()
    ensures DetermineFinalBias([Left, Left, Left, Right, UnknownBias, UnknownBias]) == Left
  {
    var c := [Left, Left, Left, Right, UnknownBias, UnknownBias];
    FinalBiasClosedForm(c);
    assert multiset(c)[Left] == 3 && multiset(c)[Right] == 1 && multiset(c)[UnknownBias] == 2;
    assert multiset(c)[Center] == 0 && multiset(c)[Unbiased] == 0;
  }

  // ---------------------------------------------------------------------------
  // Per-article classification
  // ---------------------------------------------------------------------------

  datatype BiasClassification = BiasClassification(
    finalBias: string,
    wing: Wing,
    countByBias: multiset<string>,   // `reference_count_by_bias`
    totalReferences: int)

  /** The input entry, plus `bias_classification` for political entries. */
  datatype ClassifiedArticle = ClassifiedArticle(article: NewsEntry, biasClassification: Option<BiasClassification>)

  /** The labels of the references, in order. */
  function ReferenceBiases(m: map<string, string>, refs: seq<Reference>): (bs: seq<string>)
    ensures |bs| == |refs|
    ensures forall i :: 0 <= i < |refs| ==> bs[i] == GetBias(m, refs[i].url)
  {
    seq(|refs|, i requires 0 <= i < |refs| => GetBias(m, refs[i].url))
  }

  /** The labels an entry is judged by: its references', then its main source's unless unknown. */
  function ArticleBiases(m: map<string, string>, a: NewsEntry): seq<string> {
    var main := GetBias(m, a.mainNews.url);
    ReferenceBiases(m, a.references.GetOr([])) + (if main != UnknownBias then [main] else [])
  }

  /**
    `classify_article` (the definition at line 119, which replaces the one
    before it): a non-political entry comes back unchanged and unclassified;
    a political one gets the final bias, wing distribution and counts of its
    reference labels plus its main source's label when that is known.
   */
  function ClassifyArticle(m: map<string, string>, a: NewsEntry): (r: (ClassifiedArticle, string))
    ensures a.category != Political ==> r == (ClassifiedArticle(a, None), NonPoliticalTag)
    ensures a.category == Political ==>
              && r.1 == PoliticalTag && r.0.article == a && r.0.biasClassification.Some?
              && r.0.biasClassification.value.finalBias == DetermineFinalBias(ArticleBiases(m, a))
              && r.0.biasClassification.value.wing == WingDistribution(ArticleBiases(m, a))
  {
    if a.category != Political then (ClassifiedArticle(a, None), NonPoliticalTag)
    else
      var biases := ArticleBiases(m, a);
      var c := BiasClassification(DetermineFinalBias(biases), WingDistribution(biases), multiset(biases), |biases|);
      (ClassifiedArticle(a, Some(c)), PoliticalTag)
  }

  /**
    The counts of a political entry: `total_references` is the number of
    references plus one for a known main source, and the label counts are
    those of the references plus the main source's label when known, so
    they add up to `total_references`.
   */
  lemma ClassifyArticleCounts(m: map<string, string>, a: NewsEntry)
    requires a.category == Political
    ensures var c := ClassifyArticle(m, a).0.biasClassification.value;
            var main := GetBias(m, a.mainNews.url);
            var refBiases := ReferenceBiases(m, a.references.GetOr([]));
            && c.totalReferences == |a.references.GetOr([])| + (if main != UnknownBias then 1 else 0)
            && |c.countByBias| == c.totalReferences
            && c.countByBias == multiset(refBiases) + (if main != UnknownBias then multiset{main} else multiset{})
            && c.countByBias[UnknownBias] == Count(refBiases, UnknownBias)
  {
    var biases := ArticleBiases(m, a);
    var c := ClassifyArticle(m, a).0.biasClassification.value;
    assert c == BiasClassification(DetermineFinalBias(biases), WingDistribution(biases), multiset(biases), |biases|);
    var main := GetBias(m, a.mainNews.url);
    var refBiases := ReferenceBiases(m, a.references.GetOr([]));
    assert biases == refBiases + (if main != UnknownBias then [main] else []);
  }

  predicate IsPoliticalEntry(a: NewsEntry) { a.category == Political }

  predicate IsNonPoliticalEntry(a: NewsEntry) { a.category != Political }

  /** `classify_article` with its tag read as "goes to the political list". */
  function Tagged(m: map<string, string>): NewsEntry -> (ClassifiedArticle, bool) {
    (a: NewsEntry) => (ClassifyArticle(m, a).0, ClassifyArticle(m, a).1 == PoliticalTag)
  }

  /**
    `classify_all_articles`: classified entries split by tag, each side in
    input order; the political side is exactly the political entries,
    classified, and the other side the remaining entries, unchanged.
   */
  function ClassifyAll(m: map<string, string>, arts: seq<NewsEntry>): (r: (seq<ClassifiedArticle>, seq<ClassifiedArticle>))
    ensures |r.0| == |Filter(arts, IsPoliticalEntry)| && |r.1| == |Filter(arts, IsNonPoliticalEntry)|
    ensures |r.0| + |r.1| == |arts|
    ensures forall i :: 0 <= i < |r.0| ==> r.0[i] == ClassifyArticle(m, Filter(arts, IsPoliticalEntry)[i]).0
    ensures forall i :: 0 <= i < |r.1| ==> r.1[i] == ClassifiedArticle(Filter(arts, IsNonPoliticalEntry)[i], None)
  {
    PartitionFirst(arts, Tagged(m), IsPoliticalEntry);
    PartitionSecond(arts, Tagged(m), IsNonPoliticalEntry);
    Partition(arts, Tagged(m))
  }

  /** Every entry lands on exactly one side. */
  lemma {:induction false} PartitionCount(arts: seq<NewsEntry>)
    ensures |Filter(arts, IsPoliticalEntry)| + |Filter(arts, IsNonPoliticalEntry)| == |arts|
    decreases |arts|
  {
    if |arts| > 0 {
      PartitionCount(arts[1..]);
    }
  }

  // ---------------------------------------------------------------------------
  // Report
  // ---------------------------------------------------------------------------

  /** `final_bias_distribution` */
  datatype Distribution = Distribution(left: nat, center: nat, right: nat, undefined: nat)

  /** The summary `save_results` writes (the article lists aside). */
  datatype Summary = Summary(totalArticles: nat, politicalArticles: nat, nonPoliticalArticles: nat, distribution: Distribution)

  /** The final biases of classified entries, in order. */
  function FinalBiases(cs: seq<ClassifiedArticle>): (fs: seq<string>)
    requires forall i :: 0 <= i < |cs| ==> cs[i].biasClassification.Some?
    ensures |fs| == |cs|
    ensures forall i :: 0 <= i < |cs| ==> fs[i] == cs[i].biasClassification.value.finalBias
    decreases |cs|
  {
    if |cs| == 0 then [] else [cs[0].biasClassification.value.finalBias] + FinalBiases(cs[1..])
  }

  predicate IsFinalLabel(b: string) {
    b == Left || b == Center || b == Right || b == Undefined
  }

  /** The four counts add up to the length when every label is one of the four. */
  lemma {:induction false} FourCounts(fs: seq<string>)
    requires forall i :: 0 <= i < |fs| ==> IsFinalLabel(fs[i])
    ensures Count(fs, Left) + Count(fs, Center) + Count(fs, Right) + Count(fs, Undefined) == |fs|
    decreases |fs|
  {
    if |fs| > 0 {
      FourCounts(fs[1..]);
      assert fs == [fs[0]] + fs[1..];
    }
  }

  /** Every entry on the political side carries a classification with one of the four final labels. */
  lemma PoliticalSideClassified(m: map<string, string>, arts: seq<NewsEntry>)
    ensures var p := ClassifyAll(m, arts).0;
            forall i :: 0 <= i < |p| ==> p[i].biasClassification.Some? && IsFinalLabel(p[i].biasClassification.value.finalBias)
  {
    var p := ClassifyAll(m, arts).0;
    var pol := Filter(arts, IsPoliticalEntry);
    forall i | 0 <= i < |p| ensures p[i].biasClassification.Some? && IsFinalLabel(p[i].biasClassification.value.finalBias) {
      assert IsPoliticalEntry(pol[i]);
      assert p[i] == ClassifyArticle(m, pol[i]).0;
    }
  }

  /** The final bias each entry would get, in order. */
  function Verdicts(m: map<string, string>, arts: seq<NewsEntry>): (vs: seq<string>)
    ensures |vs| == |arts|
    ensures forall i :: 0 <= i < |arts| ==> vs[i] == DetermineFinalBias(ArticleBiases(m, arts[i]))
  {
    seq(|arts|, i requires 0 <= i < |arts| => DetermineFinalBias(ArticleBiases(m, arts[i])))
  }

  /** The political side's final biases are the verdicts on the political entries. */
  lemma PoliticalVerdicts(m: map<string, string>, arts: seq<NewsEntry>)
    ensures var p := ClassifyAll(m, arts).0;
            && (forall i :: 0 <= i < |p| ==> p[i].biasClassification.Some?)
            && FinalBiases(p) == Verdicts(m, Filter(arts, IsPoliticalEntry))
  {
    var p := ClassifyAll(m, arts).0;
    var pol := Filter(arts, IsPoliticalEntry);
    assert forall i :: 0 <= i < |pol| ==> IsPoliticalEntry(pol[i]);
    SameVerdicts(m, pol, p);
  }

  /** Every verdict is one of the four final labels. */
  lemma VerdictLabels(m: map<string, string>, arts: seq<NewsEntry>)
    ensures forall i :: 0 <= i < |Verdicts(m, arts)| ==> IsFinalLabel(Verdicts(m, arts)[i])
  {
  }

  /** Classified political entries carry, in order, the verdicts on those entries. */
  lemma SameVerdicts(m: map<string, string>, pol: seq<NewsEntry>, p: seq<ClassifiedArticle>)
    requires |p| == |pol|
    requires forall i :: 0 <= i < |pol| ==> IsPoliticalEntry(pol[i])
    requires forall i :: 0 <= i < |p| ==> p[i] == ClassifyArticle(m, pol[i]).0
    ensures forall i :: 0 <= i < |p| ==> p[i].biasClassification.Some?
    ensures FinalBiases(p) == Verdicts(m, pol)
  {
    forall i | 0 <= i < |p|
      ensures p[i].biasClassification.Some?
      ensures p[i].biasClassification.value.finalBias == DetermineFinalBias(ArticleBiases(m, pol[i]))
    {
      assert IsPoliticalEntry(pol[i]);
    }
  }

  /**
    `generate_classification_report` and `save_results`: the totals add up
    to the number of entries, and each final-bias count is the number of
    political entries whose references and main source decide that bias,
    so the four add up to the number of political entries.
   */
  function SaveResults(m: map<string, string>, arts: seq<NewsEntry>): (s: Summary)
    ensures s.totalArticles == |arts|
    ensures s.totalArticles == s.politicalArticles + s.nonPoliticalArticles
    ensures s.politicalArticles == |Filter(arts, IsPoliticalEntry)|
    ensures var vs := Verdicts(m, Filter(arts, IsPoliticalEntry));
            var d := s.distribution;
            && d.left == Count(vs, Left) && d.center == Count(vs, Center)
            && d.right == Count(vs, Right) && d.undefined == Count(vs, Undefined)
    ensures var d := s.distribution;
            d.left + d.center + d.right + d.undefined == s.politicalArticles
  {
    var sides := ClassifyAll(m, arts);
    PoliticalVerdicts(m, arts);
    PartitionCount(arts);
    var fs := FinalBiases(sides.0);
    VerdictLabels(m, Filter(arts, IsPoliticalEntry));
    FourCounts(fs);
    var d := Distribution(Count(fs, Left), Count(fs, Center), Count(fs, Right), Count(fs, Undefined));
    Summary(|sides.0| + |sides.1|, |sides.0|, |sides.1|, d)
  }
}
