/**
 * `tools/train_ml_model.py`: load tab-separated raw/optimized pairs, keep for every raw form the
 * optimized form seen most often with it, and save that model one `raw<TAB>optimized` line per
 * raw form. Files are text values: `LoadPairs` receives the pair file's content and `SaveModel`
 * returns the model file's content.
 */
module ModelTrainer {
  import opened Text
  import opened Counter
  import Collector

  /** A raw form and an optimized form. */
  type Pair = (String, String)

  /** The inner dictionaries of `countMap`: a raw form and the counter of its optimized forms. */
  type Groups = seq<(String, seq<Item<String>>)>

  /**
   * `loadPairs` on one line: the stripped line split at its first tab, unless it is blank, starts
   * with `#`, or holds no tab.
   */
  function LineEntry(line: String): Option<Pair>
  {
    var t := Strip(line);
    if t == [] || StartsWith(t, "#") then None else SplitOnce(t, '\t')
  }

  /** A line is kept exactly when, stripped, it is not blank, starts with no `#` and holds a tab. */
  lemma LineEntryFacts(line: String)
    ensures var t := Strip(line);
      (LineEntry(line).Some? <==> t != [] && t[0] != '#' && '\t' in t)
      && (LineEntry(line).Some? ==>
        (t == LineEntry(line).value.0 + "\t" + LineEntry(line).value.1 && '\t' !in LineEntry(line).value.0))
  {
    var t := Strip(line);
    if t != [] {
      assert t[..1] == [t[0]];
    }
  }

  /** The pairs `loadPairs` collects from `lines`, in order. */
  function Loaded(lines: seq<String>): seq<Pair>
  {
    if lines == [] then []
    else
      match LineEntry(lines[|lines| - 1])
      case Some(p) => Loaded(lines[..|lines| - 1]) + [p]
      case None => Loaded(lines[..|lines| - 1])
  }

  /** `loadPairs(pairPath)` on the file content `text`. */
  method LoadPairs(text: String) returns (pairs: seq<Pair>)
    ensures pairs == Loaded(SplitLines(Collector.ReadText(text)))
  {
    var lines := SplitLines(Collector.ReadText(text));
    pairs := [];
    var i := 0;
    while i < |lines|
      invariant 0 <= i <= |lines|
      invariant pairs == Loaded(lines[..i])
    {
      LoadedStep(lines, i);
      var line := Strip(lines[i]);
      if line != [] && !StartsWith(line, "#") {
        match SplitOnce(line, '\t')
        case Some(p) =>
          pairs := pairs + [p];
        case None =>
      }
      i := i + 1;
    }
    assert lines[..|lines|] == lines;
  }

  lemma LoadedStep(lines: seq<String>, i: nat)
    requires i < |lines|
    ensures Loaded(lines[..i + 1]) == match LineEntry(lines[i])
      case Some(p) => Loaded(lines[..i]) + [p]
      case None => Loaded(lines[..i])
  {
    assert lines[..i + 1][..i] == lines[..i];
  }

  /**
   * What a line that `loadPairs` keeps guarantees of its pair: both sides are non-empty and free of
   * line boundaries, the raw side holds no tab and starts with neither whitespace nor `#`, and the
   * optimized side does not end with whitespace. Nothing requires the two sides to differ.
   */
  predicate WellFormed(p: Pair)
  {
    p.0 != [] && !IsSpace(p.0[0]) && p.0[0] != '#' && '\t' !in p.0 && NoBoundary(p.0)
    && p.1 != [] && !IsSpace(p.1[|p.1| - 1]) && NoBoundary(p.1)
  }

  /** The line `raw<TAB>optimized` of a pair. */
  function RuleLine(p: Pair): String
  {
    p.0 + "\t" + p.1
  }

  /** Every pair read from a line without line boundaries is well formed. */
  lemma LineEntryShape(line: String)
    requires NoBoundary(line) && LineEntry(line).Some?
    ensures WellFormed(LineEntry(line).value)
  {
    var t := Strip(line);
    var p := LineEntry(line).value;
    LineEntryFacts(line);
    StripNoBoundary(line);
    JoinedSides(t, p.0, p.1);
  }

  /** The sides of a stripped line `a<TAB>b`: first and last characters, no line boundaries. */
  lemma JoinedSides(t: String, a: String, b: String)
    requires t == a + "\t" + b && NoBoundary(t)
    requires !IsSpace(t[0]) && !IsSpace(t[|t| - 1])
    ensures a != [] ==> a[0] == t[0]
    ensures b != [] && b[|b| - 1] == t[|t| - 1]
    ensures NoBoundary(a) && NoBoundary(b)
  {
    assert forall i :: 0 <= i < |a| ==> a[i] == t[i];
    assert forall i :: 0 <= i < |b| ==> b[i] == t[|a| + 1 + i];
    assert t[|a|] == '\t' && IsSpace(t[|a|]);
  }

  /** A well-formed pair, no-op pairs included, is read back from its line. */
  lemma LineEntryOfRule(p: Pair)
    requires WellFormed(p)
    ensures LineEntry(RuleLine(p)) == Some(p)
  {
    var line := RuleLine(p);
    assert line[0] == p.0[0] && line[|line| - 1] == p.1[|p.1| - 1];
    StripNoop(line);
    SplitOnceJoin(p.0, p.1, '\t');
  }

  /** Loading text made of lines is loading each part in turn. */
  lemma {:induction false} LoadedConcat(a: seq<String>, b: seq<String>)
    ensures Loaded(a + b) == Loaded(a) + Loaded(b)
    decreases |b|
  {
    if b != [] {
      var init := b[..|b| - 1];
      LoadedConcat(a, init);
      assert (a + b)[..|a + b| - 1] == a + init;
      assert (a + b)[|a + b| - 1] == b[|b| - 1];
    } else {
      assert a + b == a;
    }
  }

  /** Lines without line boundaries load into well-formed pairs. */
  lemma {:induction false} LoadedShape(lines: seq<String>)
    requires forall k :: 0 <= k < |lines| ==> NoBoundary(lines[k])
    ensures forall k :: 0 <= k < |Loaded(lines)| ==> WellFormed(Loaded(lines)[k])
  {
    if lines != [] {
      var last := lines[|lines| - 1];
      LoadedShape(lines[..|lines| - 1]);
      if LineEntry(last).Some? {
        LineEntryShape(last);
      }
    }
  }

  /** The lines of well-formed pairs load back into those pairs. */
  lemma {:induction false} LoadedRules(ps: seq<Pair>)
    requires forall k :: 0 <= k < |ps| ==> WellFormed(ps[k])
    ensures Loaded(RuleLines(ps)) == ps
  {
    if ps != [] {
      var init := ps[..|ps| - 1];
      var last := ps[|ps| - 1];
      var before := RuleLines(init);
      RuleLinesSnoc(init, last);
      assert init + [last] == ps;
      assert WellFormed(last);
      LineEntryOfRule(last);
      LoadedSnoc(before, RuleLine(last), last);
      AllWellFormedInit(ps, init);
      LoadedRules(init);
    }
  }

  lemma AllWellFormedInit(ps: seq<Pair>, init: seq<Pair>)
    requires ps != [] && init == ps[..|ps| - 1] && forall k :: 0 <= k < |ps| ==> WellFormed(ps[k])
    ensures forall k :: 0 <= k < |init| ==> WellFormed(init[k])
  {
  }

  lemma RuleLinesSnoc(ps: seq<Pair>, p: Pair)
    ensures RuleLines(ps + [p]) == RuleLines(ps) + [RuleLine(p)]
  {
  }

  lemma LoadedSnoc(lines: seq<String>, line: String, p: Pair)
    requires LineEntry(line) == Some(p)
    ensures Loaded(lines + [line]) == Loaded(lines) + [p]
  {
    assert (lines + [line])[..|lines|] == lines;
  }

  /** The lines `raw<TAB>optimized` of `ps`, in order. */
  function RuleLines(ps: seq<Pair>): seq<String>
  {
    seq(|ps|, k requires 0 <= k < |ps| => RuleLine(ps[k]))
  }

  /** The raw sides of `ps`, in order. */
  function Raws(ps: seq<Pair>): seq<String>
  {
    seq(|ps|, k requires 0 <= k < |ps| => ps[k].0)
  }

  /** The optimized sides seen with `raw`, in order. */
  function OptsOf(ps: seq<Pair>, raw: String): seq<String>
  {
    if ps == [] then []
    else OptsOf(ps[..|ps| - 1], raw) + (if ps[|ps| - 1].0 == raw then [ps[|ps| - 1].1] else [])
  }

  /** An optimized side is seen with `raw` exactly as often as the pair occurs. */
  lemma {:induction false} OptsOfCount(ps: seq<Pair>, raw: String, q: String)
    ensures multiset(OptsOf(ps, raw))[q] == multiset(ps)[(raw, q)]
  {
    if ps != [] {
      var init := ps[..|ps| - 1];
      var p := ps[|ps| - 1];
      assert init + [p] == ps;
      OptsOfCount(init, raw, q);
      CountSnoc(init, p, (raw, q));
      OptsOfSnoc(init, p, raw);
      if p.0 == raw {
        CountSnoc(OptsOf(init, raw), p.1, q);
        assert p == (raw, p.1);
      }
    }
  }

  /** Appending `x` adds one occurrence of `x` and none of anything else. */
  lemma CountSnoc<T>(s: seq<T>, x: T, y: T)
    ensures multiset(s + [x])[y] == multiset(s)[y] + if x == y then 1 else 0
  {
  }

  /** Some optimized side is seen with `raw` exactly when `raw` is a raw side. */
  lemma {:induction false} OptsOfSeen(ps: seq<Pair>, raw: String)
    ensures raw in Raws(ps) <==> OptsOf(ps, raw) != []
  {
    if ps != [] {
      var init := ps[..|ps| - 1];
      OptsOfSeen(init, raw);
      assert Raws(ps) == Raws(init) + [ps[|ps| - 1].0];
    }
  }

  /** The index that `max(items, key=count)` picks: the first entry of greatest count. */
  function FirstMax<K>(t: seq<Item<K>>): (i: nat)
    requires t != []
    ensures i < |t|
    ensures forall j :: 0 <= j < |t| ==> t[j].1 <= t[i].1
    ensures forall j :: 0 <= j < i ==> t[j].1 < t[i].1
  {
    if |t| == 1 then 0
    else
      var m := FirstMax(t[..|t| - 1]);
      if t[|t| - 1].1 > t[m].1 then |t| - 1 else m
  }

  /** Some optimized form is counted for every raw form of `ps`. */
  lemma GroupNonEmpty(ps: seq<Pair>, raw: String)
    requires raw in Raws(ps)
    ensures Tally(OptsOf(ps, raw)) != []
  {
    OptsOfSeen(ps, raw);
    TallyKeys(OptsOf(ps, raw));
    var o := OptsOf(ps, raw)[0];
    assert o in OptsOf(ps, raw);
  }

  /** The optimized form that `trainModel` keeps for `raw`. */
  function Best(ps: seq<Pair>, raw: String): String
    requires raw in Raws(ps)
  {
    GroupNonEmpty(ps, raw);
    var t := Tally(OptsOf(ps, raw));
    t[FirstMax(t)].0
  }

  /** `trainModel(pairList)`: each raw form, in first-seen order, with its best optimized form. */
  function Model(ps: seq<Pair>): seq<Pair>
  {
    var raws := Tally(Raws(ps));
    TallyKeys(Raws(ps));
    seq(|raws|, k requires 0 <= k < |raws| => (raws[k].0, Best(ps, raws[k].0)))
  }

  /** The item `max` picks from the counter of `xs` occurs in `xs`, as often as any, and first among equals. */
  lemma TallyFirstMax(xs: seq<String>)
    requires Tally(xs) != []
    ensures var b := Tally(xs)[FirstMax(Tally(xs))].0;
      b in xs
      && (forall q :: multiset(xs)[q] <= multiset(xs)[b])
      && (forall q :: q in xs && multiset(xs)[q] == multiset(xs)[b] ==> FirstIndex(xs, b) <= FirstIndex(xs, q))
  {
    var t := Tally(xs);
    var i := FirstMax(t);
    var b := t[i].0;
    TallyAt(xs, i);
    forall q ensures multiset(xs)[q] <= multiset(xs)[b] {
      if q in xs {
        var j := TallyEntry(xs, q);
      }
    }
    forall q | q in xs && multiset(xs)[q] == multiset(xs)[b] ensures FirstIndex(xs, b) <= FirstIndex(xs, q) {
      var j := TallyEntry(xs, q);
      assert i <= j;
      if j == i {
        assert q == b;
      } else {
        TallyOrderAt(xs, i, j);
      }
    }
  }

  /** Each counter entry is a seen item with its number of occurrences. */
  lemma TallyAt(xs: seq<String>, i: nat)
    requires i < |Tally(xs)|
    ensures Tally(xs)[i].0 in xs && Tally(xs)[i].1 == multiset(xs)[Tally(xs)[i].0]
  {
    TallyKeys(xs);
    TallyCounts(xs);
  }

  /** Where a seen item sits in its counter, and the count there. */
  lemma TallyEntry(xs: seq<String>, q: String) returns (j: nat)
    requires q in xs
    ensures j < |Tally(xs)| && Tally(xs)[j].0 == q && Tally(xs)[j].1 == multiset(xs)[q]
  {
    TallyKeys(xs);
    TallyCounts(xs);
    j :| 0 <= j < |Keys(Tally(xs))| && Keys(Tally(xs))[j] == q;
  }

  lemma TallyOrderAt(xs: seq<String>, i: nat, j: nat)
    requires i < j < |Tally(xs)|
    ensures Tally(xs)[i].0 in xs && Tally(xs)[j].0 in xs
    ensures FirstIndex(xs, Tally(xs)[i].0) < FirstIndex(xs, Tally(xs)[j].0)
  {
    TallyOrder(xs);
  }

  /**
   * The kept form was seen with `raw`, no form was seen with it more often, and every form seen
   * as often was seen with it for the first time no earlier.
   */
  lemma BestFacts(ps: seq<Pair>, raw: String)
    requires raw in Raws(ps)
    ensures (raw, Best(ps, raw)) in ps
    ensures forall q :: multiset(ps)[(raw, q)] <= multiset(ps)[(raw, Best(ps, raw))]
    ensures Best(ps, raw) in OptsOf(ps, raw)
    ensures forall q :: (q in OptsOf(ps, raw) && multiset(ps)[(raw, q)] == multiset(ps)[(raw, Best(ps, raw))]
      ==> FirstIndex(OptsOf(ps, raw), Best(ps, raw)) <= FirstIndex(OptsOf(ps, raw), q))
  {
    var opts := OptsOf(ps, raw);
    GroupNonEmpty(ps, raw);
    TallyFirstMax(opts);
    var b := Best(ps, raw);
    OptsOfCount(ps, raw, b);
    forall q ensures multiset(ps)[(raw, q)] <= multiset(ps)[(raw, b)] {
      OptsOfCount(ps, raw, q);
    }
    forall q | q in opts && multiset(ps)[(raw, q)] == multiset(ps)[(raw, b)]
      ensures FirstIndex(opts, b) <= FirstIndex(opts, q)
    {
      OptsOfCount(ps, raw, q);
    }
  }

  /** Every model entry is a pair that occurs in `ps`. */
  lemma ModelEntries(ps: seq<Pair>)
    ensures forall k :: 0 <= k < |Model(ps)| ==> Model(ps)[k] in ps
  {
    var m := Model(ps);
    TallyKeys(Raws(ps));
    forall k | 0 <= k < |m| ensures m[k] in ps {
      BestFacts(ps, m[k].0);
    }
  }

  /** The model has an entry for every raw form of `ps`, and for no other. */
  lemma ModelKeys(ps: seq<Pair>)
    ensures forall raw :: raw in Raws(Model(ps)) <==> raw in Raws(ps)
  {
    var m := Model(ps);
    var raws := Tally(Raws(ps));
    TallyKeys(Raws(ps));
    assert Raws(m) == Keys(raws) by {
      assert |Raws(m)| == |Keys(raws)|;
      forall k | 0 <= k < |m| ensures Raws(m)[k] == Keys(raws)[k] {
      }
    }
    forall raw | raw in Keys(raws) ensures raw in Raws(ps) {
      var k :| 0 <= k < |Keys(raws)| && Keys(raws)[k] == raw;
      assert raws[k].0 == raw;
    }
  }

  /** The entries follow the order in which their raw forms first occur, so each raw form has one entry. */
  lemma ModelOrder(ps: seq<Pair>)
    ensures forall k :: 0 <= k < |Model(ps)| ==> Model(ps)[k].0 in Raws(ps)
    ensures forall i, j :: 0 <= i < j < |Model(ps)| ==>
      FirstIndex(Raws(ps), Model(ps)[i].0) < FirstIndex(Raws(ps), Model(ps)[j].0)
  {
    TallyKeys(Raws(ps));
    TallyOrder(Raws(ps));
  }

  /** `countMap` after the pairs `ps`: each raw form, in first-seen order, with its counter. */
  predicate Grouped(g: Groups, ps: seq<Pair>)
  {
    |g| == |Tally(Raws(ps))|
    && forall k :: 0 <= k < |g| ==> g[k].0 == Tally(Raws(ps))[k].0 && g[k].1 == Tally(OptsOf(ps, g[k].0))
  }

  /** Where `raw` is in `countMap`, if anywhere. */
  function Lookup(g: Groups, raw: String): (r: Option<nat>)
    ensures r.None? ==> forall k :: 0 <= k < |g| ==> g[k].0 != raw
    ensures r.Some? ==> r.value < |g| && g[r.value].0 == raw
  {
    if g == [] then None
    else if g[0].0 == raw then Some(0)
    else
      match Lookup(g[1..], raw)
      case None => None
      case Some(j) => Some(j + 1)
  }

  lemma RawsSnoc(ps: seq<Pair>, p: Pair)
    ensures Raws(ps + [p]) == Raws(ps) + [p.0]
  {
    assert (ps + [p])[..|ps|] == ps;
  }

  lemma OptsOfSnoc(ps: seq<Pair>, p: Pair, raw: String)
    ensures p.0 == raw ==> OptsOf(ps + [p], raw) == OptsOf(ps, raw) + [p.1]
    ensures p.0 != raw ==> OptsOf(ps + [p], raw) == OptsOf(ps, raw)
  {
    assert (ps + [p])[..|ps|] == ps;
    assert OptsOf(ps, raw) + [] == OptsOf(ps, raw);
  }

  /** Counting pair `i` under a raw form already present. */
  lemma GroupKnown(g: Groups, pre: seq<Pair>, p: Pair, j: nat)
    requires Grouped(g, pre) && j < |g| && g[j].0 == p.0
    ensures Grouped(g[j := (p.0, Bump(g[j].1, p.1))], pre + [p])
  {
    var g' := g[j := (p.0, Bump(g[j].1, p.1))];
    KnownKeys(g, pre, p, j);
    forall k | 0 <= k < |g'| ensures g'[k].1 == Tally(OptsOf(pre + [p], g'[k].0)) {
      KnownEntry(g, pre, p, j, k);
    }
    GroupedIntro(g', pre + [p]);
  }

  lemma KnownKeys(g: Groups, pre: seq<Pair>, p: Pair, j: nat)
    requires Grouped(g, pre) && j < |g| && g[j].0 == p.0
    ensures var g' := g[j := (p.0, Bump(g[j].1, p.1))]; var after := Tally(Raws(pre + [p]));
      |g'| == |after| && forall k :: 0 <= k < |g'| ==> g'[k].0 == after[k].0
  {
    var before := Tally(Raws(pre));
    assert Tally(Raws(pre + [p])) == Bump(before, p.0) by {
      RawsSnoc(pre, p);
      TallySnoc(Raws(pre), p.0);
    }
    assert Keys(before)[j] == p.0;
  }

  lemma GroupedIntro(g: Groups, ps: seq<Pair>)
    requires |g| == |Tally(Raws(ps))| && forall k :: 0 <= k < |g| ==> g[k].0 == Tally(Raws(ps))[k].0
    requires forall k :: 0 <= k < |g| ==> g[k].1 == Tally(OptsOf(ps, g[k].0))
    ensures Grouped(g, ps)
  {
  }

  lemma KnownEntry(g: Groups, pre: seq<Pair>, p: Pair, j: nat, k: nat)
    requires Grouped(g, pre) && j < |g| && g[j].0 == p.0 && k < |g|
    ensures var g' := g[j := (p.0, Bump(g[j].1, p.1))]; g'[k].1 == Tally(OptsOf(pre + [p], g'[k].0))
  {
    OptsOfSnoc(pre, p, g[k].0);
    if k == j {
      TallySnoc(OptsOf(pre, p.0), p.1);
    } else {
      assert Tally(Raws(pre))[k].0 != Tally(Raws(pre))[j].0;
    }
  }

  /** Counting pair `i`, the first of its raw form. */
  lemma GroupFresh(g: Groups, pre: seq<Pair>, p: Pair)
    requires Grouped(g, pre) && forall k :: 0 <= k < |g| ==> g[k].0 != p.0
    ensures Grouped(g + [(p.0, Bump([], p.1))], pre + [p])
  {
    var g' := g + [(p.0, Bump([], p.1))];
    var before := Tally(Raws(pre));
    var after := Tally(Raws(pre + [p]));
    assert after == Bump(before, p.0) by {
      RawsSnoc(pre, p);
      TallySnoc(Raws(pre), p.0);
    }
    assert p.0 !in Keys(before);
    forall k | 0 <= k < |g'| ensures g'[k].1 == Tally(OptsOf(pre + [p], g'[k].0)) {
      FreshEntry(g, pre, p, k);
    }
  }

  lemma FreshEntry(g: Groups, pre: seq<Pair>, p: Pair, k: nat)
    requires Grouped(g, pre) && (forall k :: 0 <= k < |g| ==> g[k].0 != p.0) && k <= |g|
    ensures var g' := g + [(p.0, Bump([], p.1))]; g'[k].1 == Tally(OptsOf(pre + [p], g'[k].0))
  {
    if k == |g| {
      OptsOfSnoc(pre, p, p.0);
      assert OptsOf(pre, p.0) == [] by {
        TallyKeys(Raws(pre));
        OptsOfSeen(pre, p.0);
      }
      TallySnoc([], p.1);
      assert [] + [p.1] == [p.1];
    } else {
      OptsOfSnoc(pre, p, g[k].0);
    }
  }

  lemma Prefix(ps: seq<Pair>, i: nat)
    requires i < |ps|
    ensures ps[..i + 1] == ps[..i] + [ps[i]]
  {
  }

  /** `countMap.setdefault(raw, {})[opt] += 1` for the pair `p`. */
  function AddPair(g: Groups, p: Pair): Groups
    requires forall k :: 0 <= k < |g| ==> DistinctKeys(g[k].1)
  {
    match Lookup(g, p.0)
    case Some(j) => g[j := (p.0, Bump(g[j].1, p.1))]
    case None => g + [(p.0, Bump([], p.1))]
  }

  /** Counting pair `i` keeps `countMap` in step with the pairs counted. */
  lemma GroupStep(g: Groups, ps: seq<Pair>, i: nat)
    requires i < |ps| && Grouped(g, ps[..i])
    ensures Grouped(AddPair(g, ps[i]), ps[..i + 1])
  {
    Prefix(ps, i);
    match Lookup(g, ps[i].0)
    case Some(j) => GroupKnown(g, ps[..i], ps[i], j);
    case None => GroupFresh(g, ps[..i], ps[i]);
  }

  /** The first loop of `trainModel`: `countMap` filled pair by pair. */
  method CountPairs(ps: seq<Pair>) returns (countMap: Groups)
    ensures Grouped(countMap, ps)
  {
    countMap := [];
    var i := 0;
    assert Grouped(countMap, ps[..0]) by {
      assert ps[..0] == [];
      assert Raws([]) == [];
    }
    while i < |ps|
      invariant 0 <= i <= |ps|
      invariant Grouped(countMap, ps[..i])
    {
      GroupStep(countMap, ps, i);
      countMap := AddPair(countMap, ps[i]);
      i := i + 1;
    }
    assert ps[..|ps|] == ps;
  }

  /** `trainModel(pairList)`: count the pairs, then keep the first most frequent form of each raw form. */
  method TrainModel(ps: seq<Pair>) returns (model: seq<Pair>)
    ensures model == Model(ps)
  {
    var countMap := CountPairs(ps);
    ghost var target := Model(ps);
    ChoiceStep(countMap, ps, |countMap|);
    model := [];
    var k := 0;
    while k < |countMap|
      invariant 0 <= k <= |countMap|
      invariant model == target[..k]
    {
      var inner := countMap[k].1;
      ChoiceStep(countMap, ps, k);
      Prefix(target, k);
      model := model + [(countMap[k].0, inner[FirstMax(inner)].0)];
      k := k + 1;
    }
    assert target[..|countMap|] == target;
  }

  /** The entry the second loop of `trainModel` builds from `countMap[k]` is the model's. */
  lemma ChoiceStep(g: Groups, ps: seq<Pair>, k: nat)
    requires Grouped(g, ps)
    ensures |Model(ps)| == |g|
    ensures k < |g| ==> g[k].1 != [] && Model(ps)[k] == (g[k].0, g[k].1[FirstMax(g[k].1)].0)
  {
    TallyKeys(Raws(ps));
    if k < |g| {
      GroupNonEmpty(ps, g[k].0);
    }
  }

  /** `saveModel(modelMap, outPath)`: the content written, one line per model entry. */
  method SaveModel(model: seq<Pair>) returns (content: String)
    ensures content == Terminated(RuleLines(model))
  {
    content := [];
    var i := 0;
    while i < |model|
      invariant 0 <= i <= |model|
      invariant content == Terminated(RuleLines(model[..i]))
    {
      assert RuleLines(model[..i + 1]) == RuleLines(model[..i]) + [RuleLine(model[i])];
      TerminatedSnoc(RuleLines(model[..i]), RuleLine(model[i]));
      content := content + (model[i].0 + "\t" + model[i].1 + "\n");
      i := i + 1;
    }
    assert model[..|model|] == model;
  }

  /** The saved content of well-formed entries loads back into those entries. */
  lemma SavedModelLoads(model: seq<Pair>)
    requires forall k :: 0 <= k < |model| ==> WellFormed(model[k])
    ensures Loaded(SplitLines(Collector.ReadText(Terminated(RuleLines(model))))) == model
  {
    var lines := RuleLines(model);
    forall k | 0 <= k < |lines| ensures NoBoundary(lines[k]) && '\r' !in lines[k] {
      assert lines[k] == model[k].0 + "\t" + model[k].1;
      assert forall i :: 0 <= i < |model[k].0| ==> lines[k][i] == model[k].0[i];
      assert forall i :: 0 <= i < |model[k].1| ==> lines[k][|model[k].0| + 1 + i] == model[k].1[i];
    }
    TerminatedExcludes(lines, '\r');
    Collector.ReadTextPlain(Terminated(lines));
    SplitLinesTerminated(lines);
    LoadedRules(model);
  }

  /** Training on the pairs of a file and saving gives a model file that loads back as the model. */
  lemma ModelFileReloads(text: String)
    ensures var model := Model(Loaded(SplitLines(Collector.ReadText(text))));
      Loaded(SplitLines(Collector.ReadText(Terminated(RuleLines(model))))) == model
  {
    var ps := Loaded(SplitLines(Collector.ReadText(text)));
    var model := Model(ps);
    LoadedShape(SplitLines(Collector.ReadText(text)));
    ModelEntries(ps);
    forall k | 0 <= k < |model| ensures WellFormed(model[k]) {
      var m :| 0 <= m < |ps| && ps[m] == model[k];
    }
    SavedModelLoads(model);
  }
}
