/**
 * Python's `collections.Counter` and insertion-ordered `dict` counting, as used by the rule-mining
 * scripts: a counter is the sequence of its items in insertion order, each key once.
 */
module Counter {
  /** A counter item: a key and its count. */
  type Item<K> = (K, nat)

  /** The pairs of `t`, in order. */
  function Keys<K(==,!new)>(t: seq<Item<K>>): (r: seq<K>)
    ensures |r| == |t| && forall k :: 0 <= k < |t| ==> r[k] == t[k].0
  {
    if t == [] then [] else [t[0].0] + Keys(t[1..])
  }

  predicate DistinctKeys<K(==,!new)>(t: seq<Item<K>>)
  {
    forall i, j :: 0 <= i < j < |t| ==> t[i].0 != t[j].0
  }

  /** `counts[p] += 1` on an insertion-ordered `Counter`. */
  function Bump<K(==,!new)>(t: seq<Item<K>>, p: K): (r: seq<Item<K>>)
    requires DistinctKeys(t)
    ensures |r| == if p in Keys(t) then |t| else |t| + 1
    ensures forall k :: 0 <= k < |t| ==>
      r[k].0 == t[k].0 && r[k].1 == t[k].1 + (if t[k].0 == p then 1 else 0)
    ensures p !in Keys(t) ==> r[|t|] == (p, 1)
    ensures DistinctKeys(r)
  {
    if t == [] then [(p, 1)]
    else if t[0].0 == p then [(p, t[0].1 + 1)] + t[1..]
    else
      var tail := t[1..];
      var rest := Bump(tail, p);
      assert Keys(t) == [t[0].0] + Keys(tail);
      ConsDistinct(t, p, rest);
      [t[0]] + rest
  }

  /** The head of a counter stays distinct from the keys of its bumped tail. */
  lemma ConsDistinct<K(!new)>(t: seq<Item<K>>, p: K, rest: seq<Item<K>>)
    requires DistinctKeys(t) && t != [] && t[0].0 != p && DistinctKeys(rest)
    requires forall k :: 0 <= k < |rest| ==> (k < |t| - 1 && rest[k].0 == t[k + 1].0) || rest[k].0 == p
    ensures DistinctKeys([t[0]] + rest)
  {
    var r := [t[0]] + rest;
    forall i, j | 0 <= i < j < |r|
      ensures r[i].0 != r[j].0
    {
      if i == 0 {
        assert r[j] == rest[j - 1];
      } else {
        assert r[i] == rest[i - 1] && r[j] == rest[j - 1];
      }
    }
  }

  /** Index of the first occurrence of `x` in `s`. */
  function FirstIndex<T(==)>(s: seq<T>, x: T): (r: nat)
    requires x in s
    ensures r < |s| && s[r] == x && x !in s[..r]
  {
    if s[0] == x then 0
    else
      var r := FirstIndex(s[1..], x);
      assert s[..r + 1] == [s[0]] + s[1..][..r];
      r + 1
  }

  lemma FirstIndexUnique<T>(s: seq<T>, x: T, r: nat)
    requires r < |s| && s[r] == x && x !in s[..r]
    ensures FirstIndex(s, x) == r
  {
    var f := FirstIndex(s, x);
  }

  lemma FirstIndexSnoc<T>(s: seq<T>, x: T, q: T)
    requires q in s + [x]
    ensures q in s ==> FirstIndex(s + [x], q) == FirstIndex(s, q)
    ensures q !in s ==> FirstIndex(s + [x], q) == |s|
  {
    if q in s {
      var f := FirstIndex(s, q);
      assert (s + [x])[..f] == s[..f];
      FirstIndexUnique(s + [x], q, f);
    } else {
      assert (s + [x])[..|s|] == s;
      FirstIndexUnique(s + [x], q, |s|);
    }
  }

  /** The keys appear in the order in which their pairs first occur in `xs`. */
  predicate FirstSeenOrder<K(==,!new)>(t: seq<Item<K>>, xs: seq<K>)
  {
    (forall k :: 0 <= k < |t| ==> t[k].0 in xs)
    && forall i, j :: 0 <= i < j < |t| ==> FirstIndex(xs, t[i].0) < FirstIndex(xs, t[j].0)
  }

  /** Sum of the counts of `t`. */
  function Total<K(==,!new)>(t: seq<Item<K>>): nat
  {
    if t == [] then 0 else t[0].1 + Total(t[1..])
  }

  lemma {:induction false} BumpTotal<K(!new)>(t: seq<Item<K>>, p: K)
    requires DistinctKeys(t)
    ensures Total(Bump(t, p)) == Total(t) + 1
  {
    if t != [] && t[0].0 != p {
      assert [t[0]] + Bump(t[1..], p) == Bump(t, p);
      assert ([t[0]] + Bump(t[1..], p))[1..] == Bump(t[1..], p);
      BumpTotal(t[1..], p);
    } else if t != [] {
      assert Bump(t, p)[1..] == t[1..];
    }
  }

  lemma {:induction false} DistinctCard<K(!new)>(s: seq<K>)
    requires forall i, j :: 0 <= i < j < |s| ==> s[i] != s[j]
    ensures |set x | x in s| == |s|
  {
    if s != [] {
      var rest := set x | x in s[1..];
      DistinctCard(s[1..]);
      assert (set x | x in s) == {s[0]} + rest;
      assert s[0] !in rest;
    }
  }

  /** The counter after `counter[x] += 1` for every `x` of `xs` in turn, starting empty. */
  function Tally<K(==,!new)>(xs: seq<K>): (t: seq<Item<K>>)
    ensures DistinctKeys(t)
  {
    if xs == [] then [] else Bump(Tally(xs[..|xs| - 1]), xs[|xs| - 1])
  }

  /** Counting one more item bumps its count. */
  lemma TallySnoc<K(!new)>(xs: seq<K>, x: K)
    ensures Tally(xs + [x]) == Bump(Tally(xs), x)
  {
    assert (xs + [x])[..|xs|] == xs;
  }

  /** The counter's keys are exactly the items counted. */
  lemma {:induction false} TallyKeys<K(!new)>(xs: seq<K>)
    ensures forall k :: 0 <= k < |Tally(xs)| ==> Tally(xs)[k].0 in xs
    ensures forall x :: x in xs ==> x in Keys(Tally(xs))
  {
    if xs != [] {
      var init := xs[..|xs| - 1];
      var x := xs[|xs| - 1];
      assert xs == init + [x];
      TallyKeys(init);
      var t := Tally(init);
      var r := Tally(xs);
      forall k | 0 <= k < |r| ensures r[k].0 in xs {
        if k < |t| {
          assert r[k].0 == t[k].0;
        }
      }
      forall q | q in xs ensures q in Keys(r) {
        if q in Keys(t) {
          var k :| 0 <= k < |Keys(t)| && Keys(t)[k] == q;
          assert Keys(r)[k] == q;
        } else {
          assert q == x;
          assert Keys(r)[|t|] == q;
        }
      }
    }
  }

  /** Each count is the number of occurrences of its key. */
  lemma {:induction false} TallyCounts<K(!new)>(xs: seq<K>)
    ensures forall k :: 0 <= k < |Tally(xs)| ==> Tally(xs)[k].1 == multiset(xs)[Tally(xs)[k].0]
  {
    if xs != [] {
      var init := xs[..|xs| - 1];
      var x := xs[|xs| - 1];
      assert xs == init + [x];
      TallyCounts(init);
      TallyKeys(init);
      var t := Tally(init);
      var r := Tally(xs);
      assert multiset(xs) == multiset(init) + multiset{x};
      forall k | 0 <= k < |r| ensures r[k].1 == multiset(xs)[r[k].0] {
        if k == |t| {
          assert x !in init;
        }
      }
    }
  }

  /** The keys keep the order in which they first occur. */
  lemma {:induction false} TallyOrder<K(!new)>(xs: seq<K>)
    ensures FirstSeenOrder(Tally(xs), xs)
  {
    if xs != [] {
      var init := xs[..|xs| - 1];
      var x := xs[|xs| - 1];
      assert xs == init + [x];
      TallyOrder(init);
      TallyKeys(init);
      TallyKeys(xs);
      var t := Tally(init);
      var r := Tally(xs);
      assert r == Bump(t, x);
      forall i, j | 0 <= i < j < |r| ensures FirstIndex(xs, r[i].0) < FirstIndex(xs, r[j].0) {
        OrderStep(init, x, t, r, i, j);
      }
    }
  }

  lemma OrderStep<K(!new)>(init: seq<K>, x: K, t: seq<Item<K>>, r: seq<Item<K>>, i: nat, j: nat)
    requires t == Tally(init) && r == Bump(t, x) && i < j < |r|
    requires FirstSeenOrder(t, init)
    requires forall q :: q in init ==> q in Keys(t)
    requires forall k :: 0 <= k < |r| ==> r[k].0 in init + [x]
    ensures FirstIndex(init + [x], r[i].0) < FirstIndex(init + [x], r[j].0)
  {
    assert r[i].0 == t[i].0;
    FirstIndexSnoc(init, x, r[i].0);
    FirstIndexSnoc(init, x, r[j].0);
    if j < |t| {
      assert r[j].0 == t[j].0;
    } else {
      assert r[j].0 == x && x !in Keys(t);
    }
  }

  /** The counts add up to the number of items counted. */
  lemma {:induction false} TallyTotal<K(!new)>(xs: seq<K>)
    ensures Total(Tally(xs)) == |xs|
  {
    if xs != [] {
      TallyTotal(xs[..|xs| - 1]);
      BumpTotal(Tally(xs[..|xs| - 1]), xs[|xs| - 1]);
    }
  }

  /** There is one entry per distinct item. */
  lemma TallySize<K(!new)>(xs: seq<K>)
    ensures |Tally(xs)| == |set x | x in xs|
  {
    var t := Tally(xs);
    TallyKeys(xs);
    DistinctCard(Keys(t));
    assert (set x | x in xs) == set x | x in Keys(t);
  }

  /** `e` placed after every entry whose count is at least its own. */
  function Place<K(==,!new)>(s: seq<Item<K>>, e: Item<K>): (r: seq<Item<K>>)
    ensures multiset(r) == multiset(s) + multiset{e}
    ensures forall x :: x in r <==> x in s || x == e
  {
    if s == [] then [e]
    else if s[0].1 < e.1 then [e] + s
    else
      assert s == [s[0]] + s[1..];
      [s[0]] + Place(s[1..], e)
  }

  /** `Counter.most_common()`: a stable sort of the items by decreasing count. */
  function MostCommon<K(==,!new)>(t: seq<Item<K>>): (r: seq<Item<K>>)
    ensures multiset(r) == multiset(t)
  {
    if t == [] then []
    else
      assert t == t[..|t| - 1] + [t[|t| - 1]];
      Place(MostCommon(t[..|t| - 1]), t[|t| - 1])
  }

  /** `a` ranks before `b`: a higher count, or an equal count and an earlier first occurrence. */
  predicate RanksBefore<K(==,!new)>(a: Item<K>, b: Item<K>, xs: seq<K>)
    requires a.0 in xs && b.0 in xs
  {
    a.1 > b.1 || (a.1 == b.1 && FirstIndex(xs, a.0) < FirstIndex(xs, b.0))
  }

  /** Counts never increase along `r`; equal counts appear in first-seen order of `xs`. */
  predicate Ranked<K(==,!new)>(r: seq<Item<K>>, xs: seq<K>)
  {
    (forall k :: 0 <= k < |r| ==> r[k].0 in xs)
    && forall i, j :: 0 <= i < j < |r| ==> RanksBefore(r[i], r[j], xs)
  }

  lemma RankedHead<K(!new)>(s: seq<Item<K>>, xs: seq<K>)
    requires s != [] && Ranked(s, xs)
    ensures forall x :: x in s[1..] ==> x.0 in xs && RanksBefore(s[0], x, xs)
  {
    forall x | x in s[1..] ensures x.0 in xs && RanksBefore(s[0], x, xs) {
      var m :| 0 <= m < |s[1..]| && s[1..][m] == x;
      assert s[m + 1] == x;
    }
  }

  lemma RankedCons<K(!new)>(a: Item<K>, s: seq<Item<K>>, xs: seq<K>)
    requires Ranked(s, xs) && a.0 in xs
    requires forall x :: x in s ==> x.0 in xs && RanksBefore(a, x, xs)
    ensures Ranked([a] + s, xs)
  {
    var r := [a] + s;
    forall i, j | 0 <= i < j < |r| ensures RanksBefore(r[i], r[j], xs) {
      if i == 0 {
        assert r[j] == s[j - 1];
      } else {
        assert r[i] == s[i - 1] && r[j] == s[j - 1];
      }
    }
  }

  lemma {:induction false} PlaceRanked<K(!new)>(s: seq<Item<K>>, e: Item<K>, xs: seq<K>)
    requires Ranked(s, xs) && e.0 in xs
    requires forall k :: 0 <= k < |s| ==> FirstIndex(xs, s[k].0) < FirstIndex(xs, e.0)
    ensures Ranked(Place(s, e), xs)
  {
    if s == [] {
    } else if s[0].1 < e.1 {
      forall x | x in s ensures x.0 in xs && RanksBefore(e, x, xs) {
        var m :| 0 <= m < |s| && s[m] == x;
        if m > 0 {
          assert RanksBefore(s[0], s[m], xs);
        }
      }
      RankedCons(e, s, xs);
    } else {
      var rest := Place(s[1..], e);
      PlaceRanked(s[1..], e, xs);
      RankedHead(s, xs);
      RankedCons(s[0], rest, xs);
    }
  }

  lemma {:induction false} MostCommonRanked<K(!new)>(t: seq<Item<K>>, xs: seq<K>)
    requires FirstSeenOrder(t, xs)
    ensures Ranked(MostCommon(t), xs)
  {
    if t != [] {
      var init := t[..|t| - 1];
      var last := t[|t| - 1];
      var s := MostCommon(init);
      MostCommonRanked(init, xs);
      forall k | 0 <= k < |s| ensures FirstIndex(xs, s[k].0) < FirstIndex(xs, last.0) {
        assert s[k] in multiset(init);
        var m :| 0 <= m < |init| && init[m] == s[k];
      }
      PlaceRanked(s, last, xs);
    }
  }

  lemma {:induction false} PlaceTotal<K(!new)>(s: seq<Item<K>>, e: Item<K>)
    ensures Total(Place(s, e)) == Total(s) + e.1
  {
    if s != [] && s[0].1 >= e.1 {
      PlaceTotal(s[1..], e);
    }
  }

  lemma {:induction false} TotalSnoc<K(!new)>(t: seq<Item<K>>, e: Item<K>)
    ensures Total(t + [e]) == Total(t) + e.1
  {
    if t != [] {
      assert (t + [e])[1..] == t[1..] + [e];
      TotalSnoc(t[1..], e);
    }
  }

  lemma {:induction false} MostCommonTotal<K(!new)>(t: seq<Item<K>>)
    ensures Total(MostCommon(t)) == Total(t)
  {
    if t != [] {
      var init := t[..|t| - 1];
      assert t == init + [t[|t| - 1]];
      MostCommonTotal(init);
      PlaceTotal(MostCommon(init), t[|t| - 1]);
      TotalSnoc(init, t[|t| - 1]);
    }
  }

  /** Ranking only reorders: the ranked entries are those of the counter. */
  lemma MostCommonMembers<K(!new)>(t: seq<Item<K>>, r: seq<Item<K>>)
    requires r == MostCommon(t)
    ensures |r| == |t|
    ensures forall x :: x in r <==> x in t
    ensures forall q :: q in Keys(r) <==> q in Keys(t)
  {
    assert |r| == |multiset(r)| == |multiset(t)| == |t|;
    forall x ensures x in r <==> x in t {
      assert x in r <==> x in multiset(r);
      assert x in t <==> x in multiset(t);
    }
    forall q ensures q in Keys(r) <==> q in Keys(t) {
      if q in Keys(r) {
        var k :| 0 <= k < |Keys(r)| && Keys(r)[k] == q;
        assert r[k] in t;
        var m :| 0 <= m < |t| && t[m] == r[k];
        assert Keys(t)[m] == q;
      }
      if q in Keys(t) {
        var m :| 0 <= m < |Keys(t)| && Keys(t)[m] == q;
        assert t[m] in r;
        var k :| 0 <= k < |r| && r[k] == t[m];
        assert Keys(r)[k] == q;
      }
    }
  }
}
