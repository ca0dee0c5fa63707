/**
  Sequence combinators shared by every stage: order-preserving filtering and
  the "keep the first item of each key" scan that the source writes four times
  (candidate de-duplication by URL hash, GUID filtering of feed entries in two
  places, and the per-publisher reference map).
 */
module Seqs {

  /** Python's `[x for x in xs if p(x)]`. */
  function Filter<T>(xs: seq<T>, p: T -> bool): (r: seq<T>)
    ensures |r| <= |xs|
    ensures forall i :: 0 <= i < |r| ==> p(r[i])
    decreases |xs|
  {
    if |xs| == 0 then []
    else (if p(xs[0]) then [xs[0]] else []) + Filter(xs[1..], p)
  }

  lemma {:induction false} FilterAppend<T>(a: seq<T>, b: seq<T>, p: T -> bool)
    ensures Filter(a + b, p) == Filter(a, p) + Filter(b, p)
    decreases |a|
  {
    if |a| > 0 {
      FilterAppend(a[1..], b, p);
      assert (a + b)[1..] == a[1..] + b;
    } else {
      assert a + b == b;
    }
  }

  /** An item is kept exactly when it passes the test; nothing is invented. */
  lemma {:induction false} FilterMembership<T>(xs: seq<T>, p: T -> bool, x: T)
    ensures x in Filter(xs, p) <==> x in xs && p(x)
    decreases |xs|
  {
    if |xs| > 0 {
      FilterMembership(xs[1..], p, x);
      assert xs == [xs[0]] + xs[1..];
    }
  }

  /** Counting through a filter: a passing value keeps its multiplicity, a failing one has none. */
  lemma {:induction false} FilterCount<T>(xs: seq<T>, p: T -> bool, x: T)
    ensures multiset(Filter(xs, p))[x] == if p(x) then multiset(xs)[x] else 0
    decreases |xs|
  {
    if |xs| > 0 {
      FilterCount(xs[1..], p, x);
      assert xs == [xs[0]] + xs[1..];
    }
  }

  /** Splits the images of `xs` under `f` by the flag `f` returns, each side in input order. */
  function Partition<T, C>(xs: seq<T>, f: T -> (C, bool)): (r: (seq<C>, seq<C>))
    ensures |r.0| + |r.1| == |xs|
    decreases |xs|
  {
    if |xs| == 0 then ([], [])
    else
      var rest := Partition(xs[1..], f);
      if f(xs[0]).1 then ([f(xs[0]).0] + rest.0, rest.1) else (rest.0, [f(xs[0]).0] + rest.1)
  }

  /** When the flag is the test `p`, the first side is the images of `Filter(xs, p)`. */
  lemma {:induction false} PartitionFirst<T, C>(xs: seq<T>, f: T -> (C, bool), p: T -> bool)
    requires forall i :: 0 <= i < |xs| ==> f(xs[i]).1 == p(xs[i])
    ensures var r := Partition(xs, f).0;
            |r| == |Filter(xs, p)| && forall i :: 0 <= i < |r| ==> r[i] == f(Filter(xs, p)[i]).0
    decreases |xs|
  {
    if |xs| > 0 {
      assert forall i :: 0 <= i < |xs| - 1 ==> xs[1..][i] == xs[i + 1];
      PartitionFirst(xs[1..], f, p);
      assert Filter(xs, p) == (if p(xs[0]) then [xs[0]] else []) + Filter(xs[1..], p);
    }
  }

  /** When the flag is the negation of `q`, the second side is the images of `Filter(xs, q)`. */
  lemma {:induction false} PartitionSecond<T, C>(xs: seq<T>, f: T -> (C, bool), q: T -> bool)
    requires forall i :: 0 <= i < |xs| ==> f(xs[i]).1 == !q(xs[i])
    ensures var r := Partition(xs, f).1;
            |r| == |Filter(xs, q)| && forall i :: 0 <= i < |r| ==> r[i] == f(Filter(xs, q)[i]).0
    decreases |xs|
  {
    if |xs| > 0 {
      assert forall i :: 0 <= i < |xs| - 1 ==> xs[1..][i] == xs[i + 1];
      PartitionSecond(xs[1..], f, q);
      assert Filter(xs, q) == (if q(xs[0]) then [xs[0]] else []) + Filter(xs[1..], q);
    }
  }

  /** The set of keys occurring in `xs`. */
  function KeysOf<T(==), K>(xs: seq<T>, key: T -> K): set<K> {
    set x | x in xs :: key(x)
  }

  lemma KeysOfSnoc<T, K>(xs: seq<T>, x: T, key: T -> K)
    ensures KeysOf(xs + [x], key) == KeysOf(xs, key) + {key(x)}
  {
    var l := KeysOf(xs + [x], key);
    var r := KeysOf(xs, key) + {key(x)};
    forall k | k in l ensures k in r {
      var y :| y in xs + [x] && key(y) == k;
      if y != x {
        assert y in xs;
      }
    }
    forall k | k in r ensures k in l {
      if k != key(x) {
        var y :| y in xs && key(y) == k;
        assert y in xs + [x];
      } else {
        assert x in xs + [x];
      }
    }
  }

  /**
    The scan `seen = set(); for x in xs: if key(x) not in seen: seen.add(key(x)); out.append(x)`
    started from an initial `seen`, written as a fold over growing prefixes of `xs`.
   */
  function FirstByKey<T(==), K(==)>(xs: seq<T>, key: T -> K, seen: set<K>): (r: seq<T>)
    ensures forall i :: 0 <= i < |r| ==> r[i] in xs && key(r[i]) !in seen
    ensures forall i, j :: 0 <= i < j < |r| ==> key(r[i]) != key(r[j])
    ensures KeysOf(r, key) == KeysOf(xs, key) - seen
    decreases |xs|
  {
    if |xs| == 0 then []
    else
      var init := xs[..|xs| - 1];
      var x := xs[|xs| - 1];
      var r := FirstByKey(init, key, seen);
      assert xs == init + [x];
      KeysOfSnoc(init, x, key);
      if key(x) in seen || key(x) in KeysOf(r, key) then r
      else
        KeysOfSnoc(r, x, key);
        assert forall i :: 0 <= i < |r| ==> key(r[i]) in KeysOf(r, key);
        r + [x]
  }

  /** Every key of the input that was not initially seen is the key of some kept item. */
  lemma FirstByKeyCovers<T, K>(xs: seq<T>, key: T -> K, seen: set<K>, x: T)
    requires x in xs && key(x) !in seen
    ensures exists d :: d in FirstByKey(xs, key, seen) && key(d) == key(x)
  {
    var r := FirstByKey(xs, key, seen);
    assert key(x) in KeysOf(xs, key);
    assert key(x) in KeysOf(r, key);
  }

  /**
    First occurrence wins, both ways: item `i` is appended by the scan exactly
    when its key is new, i.e. neither initially seen nor the key of an earlier
    item; otherwise the scan leaves its output unchanged.
   */
  lemma FirstByKeyStep<T, K>(xs: seq<T>, key: T -> K, seen: set<K>, i: int)
    requires 0 <= i < |xs|
    ensures var before := FirstByKey(xs[..i], key, seen);
            var after := FirstByKey(xs[..i + 1], key, seen);
            && (after == before + [xs[i]] <==>
                  key(xs[i]) !in seen && forall j :: 0 <= j < i ==> key(xs[j]) != key(xs[i]))
            && (after == before || after == before + [xs[i]])
  {
    assert xs[..i + 1] == xs[..i] + [xs[i]];
    FirstByKeySnoc(xs[..i], xs[i], key, seen);
    var before := FirstByKey(xs[..i], key, seen);
    if exists j :: 0 <= j < i && key(xs[j]) == key(xs[i]) {
      var j :| 0 <= j < i && key(xs[j]) == key(xs[i]);
      assert xs[..i][j] == xs[j];
      assert key(xs[i]) in KeysOf(xs[..i], key);
    }
    assert |before + [xs[i]]| != |before|;
  }

  /** Each output item is the first item of `xs` carrying its key. */
  lemma {:induction false} FirstByKeyFirst<T, K>(xs: seq<T>, key: T -> K, seen: set<K>, i: int)
    requires 0 <= i < |FirstByKey(xs, key, seen)|
    ensures exists j :: 0 <= j < |xs| && xs[j] == FirstByKey(xs, key, seen)[i]
                        && forall k :: 0 <= k < j ==> key(xs[k]) != key(xs[j])
    decreases |xs|
  {
    var n := |xs| - 1;
    var init := xs[..n];
    var prev := FirstByKey(init, key, seen);
    var r := FirstByKey(xs, key, seen);
    assert xs == init + [xs[n]];
    if i < |prev| {
      assert r[i] == prev[i];
      FirstByKeyFirst(init, key, seen, i);
      var j :| 0 <= j < |init| && init[j] == prev[i] && forall k :: 0 <= k < j ==> key(init[k]) != key(init[j]);
      assert xs[j] == init[j];
      assert forall k :: 0 <= k < j ==> xs[k] == init[k];
    } else {
      assert r == prev + [xs[n]];
      assert key(xs[n]) !in KeysOf(init, key) by {
        assert key(xs[n]) !in KeysOf(prev, key) && key(xs[n]) !in seen;
      }
      forall k | 0 <= k < n ensures key(xs[k]) != key(xs[n]) {
        assert xs[k] == init[k];
        assert init[k] in init;
      }
    }
  }

  /**
    Filtering keeps order: the item at position `j` of the output sits at
    some position `m` of the input, and the output before it is the filter
    of the input before `m`.
   */
  lemma {:induction false} FilterIndex<T>(xs: seq<T>, p: T -> bool, j: int)
    requires 0 <= j < |Filter(xs, p)|
    ensures exists m :: 0 <= m < |xs| && xs[m] == Filter(xs, p)[j] && Filter(xs[..m], p) == Filter(xs, p)[..j]
    decreases |xs|
  {
    var f := Filter(xs, p);
    var tail := Filter(xs[1..], p);
    assert f == (if p(xs[0]) then [xs[0]] else []) + tail;
    if p(xs[0]) && j == 0 {
      assert Filter(xs[..0], p) == [];
    } else {
      var j' := if p(xs[0]) then j - 1 else j;
      FilterIndex(xs[1..], p, j');
      var m :| 0 <= m < |xs[1..]| && xs[1..][m] == tail[j'] && Filter(xs[1..][..m], p) == tail[..j'];
      assert xs[..m + 1][1..] == xs[1..][..m];
      assert Filter(xs[..m + 1], p) == (if p(xs[0]) then [xs[0]] else []) + Filter(xs[1..][..m], p);
      assert f[..j] == (if p(xs[0]) then [xs[0]] else []) + tail[..j'];
      assert xs[m + 1] == f[j];
    }
  }

  /** Growing a prefix of `b` by one item, after `a`. */
  lemma PrefixSnoc<T>(a: seq<T>, b: seq<T>, k: int)
    requires 0 <= k < |b|
    ensures a + b[..k + 1] == (a + b[..k]) + [b[k]]
  {
    assert b[..k + 1] == b[..k] + [b[k]];
  }

  /** One step of the scan: the next item is appended exactly when its key is new. */
  lemma FirstByKeySnoc<T, K>(xs: seq<T>, x: T, key: T -> K, seen: set<K>)
    ensures var r := FirstByKey(xs, key, seen);
            FirstByKey(xs + [x], key, seen) == if key(x) in seen || key(x) in KeysOf(r, key) then r else r + [x]
  {
    assert (xs + [x])[..|xs|] == xs;
  }

  /** The scan only ever appends: its output on a prefix is a prefix of its output. */
  lemma {:induction false} FirstByKeyPrefix<T, K>(xs: seq<T>, key: T -> K, seen: set<K>, n: int)
    requires 0 <= n <= |xs|
    ensures FirstByKey(xs[..n], key, seen) <= FirstByKey(xs, key, seen)
    decreases |xs| - n
  {
    if n < |xs| {
      FirstByKeyPrefix(xs, key, seen, n + 1);
      FirstByKeyStep(xs, key, seen, n);
      assert xs[..|xs|] == xs;
    } else {
      assert xs[..n] == xs;
    }
  }

  /** When every key is already seen, the scan keeps nothing. */
  lemma FirstByKeyAllSeen<T, K>(xs: seq<T>, key: T -> K, seen: set<K>)
    requires KeysOf(xs, key) <= seen
    ensures FirstByKey(xs, key, seen) == []
  {
  }

  /** The concatenation of `xss`, in order. */
  function Concat<T>(xss: seq<seq<T>>): (r: seq<T>)
    decreases |xss|
  {
    if |xss| == 0 then [] else Concat(xss[..|xss| - 1]) + xss[|xss| - 1]
  }

  /** One more list concatenates onto the end. */
  lemma ConcatSnoc<T>(xss: seq<seq<T>>, xs: seq<T>)
    ensures Concat(xss + [xs]) == Concat(xss) + xs
  {
    assert (xss + [xs])[..|xss|] == xss;
  }

  /** A copy of `x` missing from a prefix sits after the cut. */
  lemma CutCopy<T>(s: seq<T>, n: nat, x: T) returns (k: nat)
    requires n <= |s| && multiset(s[..n])[x] < multiset(s)[x]
    ensures n <= k < |s| && s[k] == x
  {
    assert s == s[..n] + s[n..];
    assert multiset(s[n..])[x] > 0;
    assert x in s[n..];
    var j :| 0 <= j < |s[n..]| && s[n..][j] == x;
    k := n + j;
  }

  /** A list that is `h` then `t + y`, beside one that is `h` then `t`, is the latter then `y`. */
  lemma PrependAppend<T>(whole: seq<T>, x: seq<T>, h: seq<T>, t: seq<T>, y: seq<T>)
    requires whole == h + (t + y) && x == h + t
    ensures whole == x + y
  {
  }
}
