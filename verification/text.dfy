/**
  ASCII string primitives the pipeline relies on: `str.lower`, `str.title`,
  `str.strip`, `str.replace(pat, "")`, `in` on strings, `str.split(c)` and
  `c.join(parts)`. Only the ASCII range is case-mapped or treated as white space.
 */
module Text {

  predicate IsUpper(c: char) { 'A' <= c <= 'Z' }

  predicate IsLowerLetter(c: char) { 'a' <= c <= 'z' }

  /** A cased character in Python's sense, restricted to ASCII. */
  predicate IsAlpha(c: char) { IsUpper(c) || IsLowerLetter(c) }

  /** The ASCII characters `str.strip()` removes. */
  predicate IsSpace(c: char) {
    c == ' ' || c == '\t' || c == '\n' || c == '\r' || c == '\U{B}' || c == '\U{C}'
    || c == '\U{1C}' || c == '\U{1D}' || c == '\U{1E}' || c == '\U{1F}'
  }

  function LowerChar(c: char): char {
    if IsUpper(c) then (c as int + 32) as char else c
  }

  function UpperChar(c: char): char {
    if IsLowerLetter(c) then (c as int - 32) as char else c
  }

  /** No upper-case letter occurs in `s`. */
  predicate IsLower(s: string) {
    forall i :: 0 <= i < |s| ==> !IsUpper(s[i])
  }

  /** `s.lower()`. */
  function Lower(s: string): (r: string)
    ensures |r| == |s|
    ensures IsLower(r)
    ensures forall i :: 0 <= i < |s| ==> r[i] == LowerChar(s[i])
  {
    seq(|s|, i requires 0 <= i < |s| => LowerChar(s[i]))
  }

  lemma LowerOfLower(s: string)
    requires IsLower(s)
    ensures Lower(s) == s
  {
  }

  /**
    `str.title()` with the "previous character was cased" flag made explicit:
    a non-letter is kept, a letter is upper-cased when the character before
    it (or the flag, at the start) is not a letter and lower-cased otherwise.
   */
  function TitleFrom(s: string, prevCased: bool): (r: string)
    ensures |r| == |s|
    ensures forall i :: 0 <= i < |s| ==> LowerChar(r[i]) == LowerChar(s[i])
    ensures forall i :: 0 <= i < |s| && !IsAlpha(s[i]) ==> r[i] == s[i]
    ensures forall i :: 0 <= i < |s| && IsAlpha(s[i]) ==>
              r[i] == if (if i == 0 then prevCased else IsAlpha(s[i - 1])) then LowerChar(s[i]) else UpperChar(s[i])
    decreases |s|
  {
    if |s| == 0 then []
    else
      var rest := TitleFrom(s[1..], IsAlpha(s[0]));
      assert forall i :: 1 <= i < |s| ==> s[1..][i - 1] == s[i];
      if IsAlpha(s[0]) then
        [if prevCased then LowerChar(s[0]) else UpperChar(s[0])] + rest
      else
        [s[0]] + rest
  }

  /** `s.title()`: each run of letters starts upper-case and continues lower-case. */
  function TitleCase(s: string): string {
    TitleFrom(s, false)
  }

  /** Each run of letters starts upper-case and continues lower-case. */
  predicate TitleCased(s: string) {
    forall i :: 0 <= i < |s| && IsAlpha(s[i]) ==> (IsUpper(s[i]) <==> StartsRun(s, i))
  }

  /** Position `i` starts a run of letters: nothing, or a non-letter, comes before it. */
  predicate StartsRun(s: string, i: int)
    requires 0 <= i < |s|
  {
    i == 0 || !IsAlpha(s[i - 1])
  }

  lemma TitledAt(s: string, i: int)
    requires TitleCased(s) && 0 <= i < |s| && IsAlpha(s[i])
    ensures IsUpper(s[i]) <==> StartsRun(s, i)
  {
  }

  /** `title()` output is title-cased. */
  lemma TitleCaseTitled(s: string)
    ensures TitleCased(TitleCase(s))
  {
    var r := TitleCase(s);
    forall i | 0 <= i < |s| ensures IsAlpha(r[i]) <==> IsAlpha(s[i]) {
    }
  }

  /**
    Letter case is all `title()` decides: two title-cased strings that agree
    after `lower()` are equal.
   */
  lemma TitleCasedUnique(a: string, b: string)
    requires Lower(a) == Lower(b)
    requires TitleCased(a) && TitleCased(b)
    ensures a == b
  {
    assert |a| == |b|;
    forall i | 0 <= i < |a| ensures IsAlpha(a[i]) <==> IsAlpha(b[i]) {
      assert LowerChar(a[i]) == Lower(a)[i] == Lower(b)[i] == LowerChar(b[i]);
    }
    forall i | 0 <= i < |a| ensures a[i] == b[i] {
      assert LowerChar(a[i]) == Lower(a)[i] == Lower(b)[i] == LowerChar(b[i]);
      if IsAlpha(a[i]) {
        assert IsAlpha(b[i]);
        assert i > 0 ==> (IsAlpha(a[i - 1]) <==> IsAlpha(b[i - 1]));
        TitledAt(a, i);
        TitledAt(b, i);
      }
    }
  }

  /** Title-casing changes only letter case: it is invisible after `lower()`. */
  lemma LowerOfTitleCase(s: string)
    ensures Lower(TitleCase(s)) == Lower(s)
  {
  }

  predicate StartsWith(s: string, p: string) {
    |p| <= |s| && s[..|p|] == p
  }

  /** Python's `p in s`. */
  predicate Contains(s: string, p: string)
    decreases |s|
  {
    StartsWith(s, p) || (|s| > 0 && Contains(s[1..], p))
  }

  /** A string shorter than `p` does not contain it. */
  lemma {:induction false} ContainsShort(s: string, p: string)
    requires |s| < |p|
    ensures !Contains(s, p)
    decreases |s|
  {
    if |s| > 0 {
      ContainsShort(s[1..], p);
    }
  }

  /**
    `s.replace(pat, "")`: scans left to right and deletes every
    non-overlapping occurrence of `pat`, leftmost first.
   */
  function RemoveAll(s: string, pat: string): (r: string)
    requires |pat| > 0
    ensures |r| <= |s|
    decreases |s|
  {
    if |s| < |pat| then s
    else if s[..|pat|] == pat then
      assert s == s[..|pat|] + s[|pat|..];
      RemoveAll(s[|pat|..], pat)
    else
      assert s == [s[0]] + s[1..];
      [s[0]] + RemoveAll(s[1..], pat)
  }

  /** A string without any occurrence of `pat` is left untouched. */
  lemma {:induction false} RemoveAllClean(s: string, pat: string)
    requires |pat| > 0
    ensures !Contains(s, pat) ==> RemoveAll(s, pat) == s
    decreases |s|
  {
    if |s| >= |pat| && !Contains(s, pat) {
      RemoveAllClean(s[1..], pat);
      assert s == [s[0]] + s[1..];
    }
  }

  /** A leading occurrence is deleted like any other. */
  lemma RemoveAllLeading(s: string, pat: string)
    requires |pat| > 0
    ensures RemoveAll(pat + s, pat) == RemoveAll(s, pat)
  {
    assert (pat + s)[..|pat|] == pat;
    assert (pat + s)[|pat|..] == s;
  }

  /**
    An occurrence anywhere is deleted, not only a leading one: when no
    occurrence starts inside `a` (even one running into `pat`), the text
    before `pat` is kept and the scan resumes after it.
   */
  lemma {:induction false} RemoveAllSkip(a: string, pat: string, b: string)
    requires |pat| > 0
    requires !Contains(a + pat[..|pat| - 1], pat)
    ensures RemoveAll(a + pat + b, pat) == a + RemoveAll(b, pat)
    decreases |a|
  {
    if |a| == 0 {
      assert a + pat + b == pat + b;
      RemoveAllLeading(b, pat);
    } else {
      var t := a[1..] + pat + b;
      SkipFirst(a, pat, b);
      ConsSplit(a, pat + b);
      assert a + pat + b == [a[0]] + t;
      RemoveAllSkip(a[1..], pat, b);
      RemoveAllCons(a[0], t, pat);
      ConsSplit(a, RemoveAll(b, pat));
    }
  }

  /** What no occurrence starting in `a` says about its first character and its tail. */
  lemma SkipFirst(a: string, pat: string, b: string)
    requires |pat| > 0 && |a| > 0
    requires !Contains(a + pat[..|pat| - 1], pat)
    ensures (a + pat + b)[..|pat|] != pat
    ensures !Contains(a[1..] + pat[..|pat| - 1], pat)
  {
    var n := |pat|;
    var c := a + pat[..n - 1];
    assert !StartsWith(c, pat) && !Contains(c[1..], pat);
    assert (a + pat + b)[..n] == c[..n];
    assert c[1..] == a[1..] + pat[..n - 1];
  }

  lemma ConsSplit<T>(a: seq<T>, rest: seq<T>)
    requires |a| > 0
    ensures a + rest == [a[0]] + (a[1..] + rest)
  {
    assert a == [a[0]] + a[1..];
  }

  /** Where `pat` does not start, the first character is kept. */
  lemma RemoveAllCons(x: char, t: string, pat: string)
    requires |pat| > 0 && |t| + 1 >= |pat| && ([x] + t)[..|pat|] != pat
    ensures RemoveAll([x] + t, pat) == [x] + RemoveAll(t, pat)
  {
    assert ([x] + t)[1..] == t;
  }

  /** Deleting "www." can splice a fresh "www." together out of the pieces around it. */
  lemma SplicedWww()
    ensures RemoveAll("wwwww.w.", "www.") == "www."
  {
    var s2, s3 := "wwww.w.", "wwwww.w.";
    SplicedWwwTail();
    assert s3[..4] != "www." by { assert s3[..4][3] != "www."[3]; }
    assert s3[1..] == s2;
    assert s3[0] == 'w';
    assert RemoveAll(s3, "www.") == [s3[0]] + RemoveAll(s3[1..], "www.");
    assert ['w'] + "ww." == "www.";
  }

  lemma WwwVanishes()
    ensures RemoveAll("www.", "www.") == ""
  {
    assert "www."[4..] == "";
  }

  lemma SplicedWwwTail()
    ensures RemoveAll("wwww.w.", "www.") == "ww."
  {
    var s0, s1, s2 := "w.", "www.w.", "wwww.w.";
    assert s1[..4] == "www.";
    assert s1[4..] == s0;
    assert s2[..4][3] != '.';
    assert s2[1..] == s1;
  }

  /** `s.split(d)`: the maximal `d`-free pieces between separators, at least one. */
  function Split(s: string, d: char): (parts: seq<string>)
    ensures |parts| >= 1
    ensures forall k :: 0 <= k < |parts| ==> d !in parts[k]
    decreases |s|
  {
    if |s| == 0 then [""]
    else
      var rest := Split(s[1..], d);
      if s[0] == d then [""] + rest
      else [[s[0]] + rest[0]] + rest[1..]
  }

  /** There is one more piece than there are separators. */
  lemma {:induction false} SplitCount(s: string, d: char)
    ensures |Split(s, d)| == multiset(s)[d] + 1
    decreases |s|
  {
    if |s| > 0 {
      SplitCount(s[1..], d);
      assert s == [s[0]] + s[1..];
    }
  }

  /** `d.join(parts)`. */
  function Join(parts: seq<string>, d: char): (r: string)
    decreases |parts|
  {
    if |parts| == 0 then ""
    else if |parts| == 1 then parts[0]
    else parts[0] + [d] + Join(parts[1..], d)
  }

  /** A join splits at any inner separator into the joins of the two sides. */
  lemma {:induction false} JoinAt(parts: seq<string>, d: char, i: int)
    requires 1 <= i < |parts|
    ensures Join(parts, d) == Join(parts[..i], d) + [d] + Join(parts[i..], d)
    decreases i
  {
    if i > 1 {
      JoinAt(parts[1..], d, i - 1);
      assert parts[..i][1..] == parts[1..][..i - 1];
      assert parts[1..][i - 1..] == parts[i..];
    }
  }

  /** Joining the pieces of a split gives the string back. */
  lemma {:induction false} JoinSplit(s: string, d: char)
    ensures Join(Split(s, d), d) == s
    decreases |s|
  {
    if |s| > 0 {
      JoinSplit(s[1..], d);
      var rest := Split(s[1..], d);
      if s[0] == d {
        assert Split(s, d) == [""] + rest;
        assert Join(Split(s, d), d) == "" + [d] + Join(rest, d);
      } else {
        assert Split(s, d) == [[s[0]] + rest[0]] + rest[1..];
        JoinHead(rest, s[0], d);
      }
      assert s == [s[0]] + s[1..];
    }
  }

  /** Prepending a character to the first piece prepends it to the join. */
  lemma JoinHead(parts: seq<string>, c: char, d: char)
    requires |parts| >= 1
    ensures Join([[c] + parts[0]] + parts[1..], d) == [c] + Join(parts, d)
  {
    var q := [[c] + parts[0]] + parts[1..];
    if |parts| > 1 {
      assert q[1..] == parts[1..];
    }
  }

  /** Splitting a join of separator-free pieces gives the pieces back. */
  lemma {:induction false} SplitJoin(parts: seq<string>, d: char)
    requires |parts| >= 1
    requires forall k :: 0 <= k < |parts| ==> d !in parts[k]
    ensures Split(Join(parts, d), d) == parts
    decreases |parts|
  {
    if |parts| == 1 {
      SplitFree(parts[0], d);
    } else {
      SplitJoin(parts[1..], d);
      SplitCons(parts[0], Join(parts[1..], d), d);
      assert parts == [parts[0]] + parts[1..];
    }
  }

  /** A separator-free string splits into itself. */
  lemma {:induction false} SplitFree(s: string, d: char)
    requires d !in s
    ensures Split(s, d) == [s]
    decreases |s|
  {
    if |s| > 0 {
      SplitFree(s[1..], d);
      assert s == [s[0]] + s[1..];
    }
  }

  lemma {:induction false} SplitCons(a: string, b: string, d: char)
    requires d !in a
    ensures Split(a + [d] + b, d) == [a] + Split(b, d)
    decreases |a|
  {
    if |a| == 0 {
      assert a + [d] + b == [d] + b;
      assert ([d] + b)[1..] == b;
    } else {
      SplitCons(a[1..], b, d);
      var s := a + [d] + b;
      assert s[0] == a[0] && s[0] != d;
      assert s[1..] == a[1..] + [d] + b;
      var rest := Split(s[1..], d);
      assert rest[0] == a[1..] && rest[1..] == Split(b, d);
      assert Split(s, d) == [[a[0]] + rest[0]] + rest[1..];
      assert [a[0]] + a[1..] == a;
    }
  }

  /** `s.split(d)[0]`: the longest `d`-free prefix of `s`. */
  function FirstPiece(s: string, d: char): (r: string)
    ensures r <= s
    ensures d !in r
    ensures r == s || s[|r|] == d
  {
    JoinSplit(s, d);
    var parts := Split(s, d);
    if |parts| == 1 then parts[0]
    else
      assert s == parts[0] + [d] + Join(parts[1..], d);
      parts[0]
  }

  /** `s.lstrip()` */
  function TrimLeft(s: string): (r: string)
    ensures |r| <= |s|
    ensures r == s[|s| - |r|..]
    ensures |r| > 0 ==> !IsSpace(r[0])
    ensures forall i :: 0 <= i < |s| - |r| ==> IsSpace(s[i])
    decreases |s|
  {
    if |s| > 0 && IsSpace(s[0]) then TrimLeft(s[1..]) else s
  }

  /** `s.rstrip()` */
  function TrimRight(s: string): (r: string)
    ensures |r| <= |s|
    ensures r == s[..|r|]
    ensures |r| > 0 ==> !IsSpace(r[|r| - 1])
    ensures forall i :: |r| <= i < |s| ==> IsSpace(s[i])
    decreases |s|
  {
    if |s| > 0 && IsSpace(s[|s| - 1]) then TrimRight(s[..|s| - 1]) else s
  }

  /** Where `s.strip()` starts: after the leading white space. */
  function StripStart(s: string): (i: nat)
    ensures i <= |s|
  {
    |s| - |TrimLeft(s)|
  }

  /** `s.strip()`: a contiguous piece of `s` with no white space at either end. */
  function Strip(s: string): (r: string)
    ensures StripStart(s) + |r| <= |s|
    ensures r == s[StripStart(s)..StripStart(s) + |r|]
    ensures |r| > 0 ==> !IsSpace(r[0]) && !IsSpace(r[|r| - 1])
  {
    var t := TrimLeft(s);
    var r := TrimRight(t);
    assert t[..|r|] == s[StripStart(s)..StripStart(s) + |r|];
    r
  }

  /** A character occurs in a slice no more often than in the whole string. */
  lemma SliceCount(s: string, i: int, j: int, c: char)
    requires 0 <= i <= j <= |s|
    ensures multiset(s[i..j])[c] <= multiset(s)[c]
  {
    assert s == s[..i] + s[i..j] + s[j..];
  }

  /** Slices of a lower-case string are lower-case. */
  lemma SliceLower(s: string, i: int, j: int)
    requires 0 <= i <= j <= |s| && IsLower(s)
    ensures IsLower(s[i..j])
  {
    assert forall k :: 0 <= k < j - i ==> s[i..j][k] == s[i + k];
  }

  /** `not s.strip()`: the string is empty or white space only. */
  predicate IsBlank(s: string) {
    forall i :: 0 <= i < |s| ==> IsSpace(s[i])
  }

  /** Stripping keeps lower case and never adds a character. */
  lemma StripKeeps(s: string, c: char)
    ensures IsLower(s) ==> IsLower(Strip(s))
    ensures multiset(Strip(s))[c] <= multiset(s)[c]
  {
    StripSlice(s, Strip(s), StripStart(s), c);
  }

  lemma StripSlice(s: string, r: string, i: nat, c: char)
    requires i + |r| <= |s| && r == s[i..i + |r|]
    ensures IsLower(s) ==> IsLower(r)
    ensures multiset(r)[c] <= multiset(s)[c]
  {
    SliceCount(s, i, i + |r|, c);
    if IsLower(s) {
      SliceLower(s, i, i + |r|);
    }
  }

  /** Python's falsy test on `s.strip()` is exactly `IsBlank`. */
  lemma StripEmptyIffBlank(s: string)
    ensures Strip(s) == [] <==> IsBlank(s)
  {
  }

  /** `s[:n]` */
  function Take(s: string, n: nat): (r: string)
    ensures r <= s
    ensures |r| == if |s| < n then |s| else n
  {
    if |s| < n then s else s[..n]
  }
}
