/**
  URL identity: the normalisation used as the key of every URL comparison,
  the hash built on it, the canonical-link fallback and the publisher handle
  derived from a host name (temp_similar_news.py).
 */
module UrlIdentity {
  import opened Wrappers
  import opened Text

  /** A URL as `urllib.parse.urlparse` splits it. */
  datatype Url = Url(scheme: string, netloc: string, path: string, params: string, query: string, fragment: string)

  /** The parse of the empty string; the only URL whose text is falsy. */
  const EmptyUrl := Url("", "", "", "", "", "")

  /** The substring removed from host names by `normalize_url` and `extract_publisher`. */
  const Www := "www."

  /** `urlunparse`, simplified: each present part with its delimiter. */
  function ToText(u: Url): (r: string)
    ensures r == "" <==> u == EmptyUrl
  {
    (if u.scheme != "" then u.scheme + ":" else "")
    + (if u.netloc != "" then "//" + u.netloc else "")
    + u.path
    + (if u.params != "" then ";" + u.params else "")
    + (if u.query != "" then "?" + u.query else "")
    + (if u.fragment != "" then "#" + u.fragment else "")
  }

  /**
    `normalize_url`: drops params, query and fragment and deletes EVERY
    occurrence of "www." from the host, keeping letter case.
   */
  function Normalize(u: Url): (r: Url)
    ensures r.params == "" && r.query == "" && r.fragment == ""
    ensures r.scheme == u.scheme && r.path == u.path
    ensures r.netloc == RemoveAll(u.netloc, Www)
    ensures |r.netloc| <= |u.netloc|
    ensures !Contains(u.netloc, Www) ==> r.netloc == u.netloc
  {
    RemoveAllClean(u.netloc, Www);
    Url(u.scheme, RemoveAll(u.netloc, Www), u.path, "", "", "")
  }

  /**
    URLs that differ only in params, query, fragment or a leading "www."
    on the host have the same normal form.
   */
  lemma NormalizeIgnoresDecoration(u: Url, v: Url)
    requires u.scheme == v.scheme && u.path == v.path
    requires v.netloc == u.netloc || v.netloc == Www + u.netloc
    ensures Normalize(u) == Normalize(v)
  {
    if v.netloc != u.netloc {
      RemoveAllLeading(u.netloc, Www);
    }
  }

  /**
    Every "www." of the host is deleted, wherever it stands: the host text
    before an occurrence (with no occurrence starting in it) is kept, and
    the text after it is normalised on its own.
   */
  lemma NormalizeDeletesInner(u: Url, a: string, b: string)
    requires u.netloc == a + Www + b
    requires !Contains(a + "www", Www)
    ensures Normalize(u).netloc == a + Normalize(u.(netloc := b)).netloc
  {
    assert Www[..|Www| - 1] == "www";
    RemoveAllSkip(a, Www, b);
  }

  /** For instance, host "news.www.x.com" normalises to "news.x.com". */
  lemma NormalizeInnerWww()
    ensures Normalize(Url("https", "news.www.x.com", "/a", "", "", "")).netloc == "news.x.com"
  {
    var u := Url("https", "news.www.x.com", "/a", "", "", "");
    NoWwwBefore();
    NoWwwAfter();
    InnerPieces(u.netloc);
    InnerStep(u, "news.", "x.com");
  }

  lemma InnerPieces(h: string)
    requires h == "news.www.x.com"
    ensures h == "news." + Www + "x.com"
    ensures "news." + "www" == "news.www"
    ensures "news." + "x.com" == "news.x.com"
  {
    assert "news." + "www" == "news.www";
    assert "news." + "x.com" == "news.x.com";
  }

  lemma InnerStep(u: Url, a: string, b: string)
    requires u.netloc == a + Www + b
    requires !Contains(a + "www", Www) && !Contains(b, Www)
    ensures Normalize(u).netloc == a + b
  {
    NormalizeDeletesInner(u, a, b);
  }

  lemma NoWwwBefore()
    ensures !Contains("news.www", Www)
  {
    ContainsShort("www", Www);
    assert ".www"[1..] == "www" && ".www"[0] != Www[0];
    assert "s.www"[1..] == ".www" && "s.www"[0] != Www[0];
    assert "ws.www"[1..] == "s.www" && "ws.www"[1] != Www[1];
    assert "ews.www"[1..] == "ws.www" && "ews.www"[0] != Www[0];
    assert "news.www"[1..] == "ews.www" && "news.www"[0] != Www[0];
  }

  lemma NoWwwAfter()
    ensures !Contains("x.com", Www)
  {
    ContainsShort("com", Www);
    assert ".com"[1..] == "com" && ".com"[0] != Www[0];
    assert "x.com"[1..] == ".com" && "x.com"[0] != Www[0];
  }

  /** Normalising twice changes nothing when the first pass left no "www." behind. */
  lemma NormalizeSettled(u: Url)
    requires !Contains(Normalize(u).netloc, Www)
    ensures Normalize(Normalize(u)) == Normalize(u)
  {
  }

  /**
    But normalisation is not idempotent: deleting "www." can splice a new
    "www." together, e.g. host "wwwww.w." normalises to "www." and then to "".
   */
  lemma NormalizeNotIdempotent()
    ensures var u := Url("http", "wwwww.w.", "/a", "", "", "");
            Normalize(u).netloc == "www." && Normalize(Normalize(u)).netloc == ""
  {
    SplicedWww();
    WwwVanishes();
  }

  /** `hash_url`: a digest (MD5 in the source) of the normal form. */
  function HashUrl<H>(digest: Url -> H, u: Url): (h: H)
    ensures forall v :: Normalize(v) == Normalize(u) ==> digest(Normalize(v)) == h
  {
    digest(Normalize(u))
  }

  /**
    The hash identifies the normal form: equal normal forms always hash
    alike, and with an injective digest equal hashes mean equal normal forms.
   */
  lemma HashIdentity<H>(digest: Url -> H, u: Url, v: Url)
    ensures Normalize(u) == Normalize(v) ==> HashUrl(digest, u) == HashUrl(digest, v)
    ensures (forall a, b :: digest(a) == digest(b) ==> a == b) ==>
              (HashUrl(digest, u) == HashUrl(digest, v) ==> Normalize(u) == Normalize(v))
  {
  }

  /**
    `get_canonical_url`: the normalised `href` of the page's
    `<link rel="canonical">` when the page is fetched and has one with a
    non-empty `href`; the normalised URL itself otherwise. `canonicalHref`
    stands for the page fetch and HTML parse.
   */
  function CanonicalUrl(canonicalHref: Url -> Option<Url>, u: Url): (r: Url)
    ensures r.params == "" && r.query == "" && r.fragment == ""
    ensures canonicalHref(u).None? ==> r == Normalize(u)
    ensures canonicalHref(u).Some? ==> r == Normalize(canonicalHref(u).value)
  {
    match canonicalHref(u)
    case Some(href) => Normalize(href)
    case None => Normalize(u)
  }

  /** The host with every "www." deleted, as `extract_publisher` computes it. */
  function PublisherHost(u: Url): string {
    RemoveAll(u.netloc, Www)
  }

  /**
    `extract_publisher`: the title-cased first dot-label of the host after
    "www." removal, e.g. "www.thehindu.com" gives "Thehindu".
   */
  function ExtractPublisher(u: Url): (r: string)
    ensures '.' !in r
    ensures |r| <= |PublisherHost(u)|
    ensures Lower(r) == Lower(FirstPiece(PublisherHost(u), '.'))
    ensures TitleCased(r)
  {
    var first := FirstPiece(PublisherHost(u), '.');
    var t := TitleCase(first);
    assert forall i :: 0 <= i < |t| ==> LowerChar(t[i]) == LowerChar(first[i]);
    TitleCaseTitled(first);
    t
  }

  /**
    The self-match test `source.lower() == input_source.lower()` compares the
    first host labels case-insensitively: hosts sharing a first label (in any
    case) yield matching publishers.
   */
  lemma SamePublisherWhenSameLabel(u: Url, v: Url)
    requires Lower(FirstPiece(PublisherHost(u), '.')) == Lower(FirstPiece(PublisherHost(v), '.'))
    ensures Lower(ExtractPublisher(u)) == Lower(ExtractPublisher(v))
  {
  }
}
