/**
 * The rule miner (tools/ml_optimizer/train.py): it reads the dataset lines `raw<TAB>optimized`,
 * counts every pair whose two sides differ, and writes the pairs ranked by count
 * (`Counter.most_common`, a stable sort, so equal counts keep first-seen order) as
 * `raw<TAB>optimized` lines joined by `\n` to the model file.
 */
module RuleMiner {
  import opened Text
  import opened Counter
  import opened Collector
  import opened Normalizer

  /** A dataset pair `(raw, optimized)`. */
  type Pair = (String, String)

  /** A `Counter` item: a pair and how many times it was counted. */
  type Entry = Item<Pair>

  /** `MODEL_PATH`, relative to the repository root. */
  const ModelPath: String := "assets/ml_model.txt"

  /** The dataset lines split at their first tab, or the first line without a tab. */
  datatype Parsed = Parsed(pairs: seq<Pair>) | NoTab(line: nat)

  /** A run either writes the model file or stops with `ValueError` at a line. */
  datatype Run = Wrote(path: String, content: String) | ValueError(line: nat)

  /** `raw, opt = line.split("\t", 1)` for every line, stopping at the first line that has no tab. */
  function ParseLines(lines: seq<String>): Parsed
  {
    if lines == [] then Parsed([])
    else
      match ParseLines(lines[..|lines| - 1])
        case NoTab(i) => NoTab(i)
        case Parsed(ps) =>
          match SplitOnce(lines[|lines| - 1], '\t')
            case None => NoTab(|lines| - 1)
            case Some(p) => Parsed(ps + [p])
  }

  /**
   * Either every line is its pair joined by the first tab, or the error names the first line
   * without a tab.
   */
  lemma {:induction false} ParseLinesShape(lines: seq<String>)
    ensures var r := ParseLines(lines);
      r.NoTab? ==> (r.line < |lines| && '\t' !in lines[r.line]
        && forall k :: 0 <= k < r.line ==> '\t' in lines[k])
    ensures var r := ParseLines(lines);
      r.Parsed? ==> |r.pairs| == |lines| && forall k :: 0 <= k < |lines| ==>
        (lines[k] == r.pairs[k].0 + "\t" + r.pairs[k].1 && '\t' !in r.pairs[k].0)
  {
    if lines != [] {
      var init := lines[..|lines| - 1];
      var last := lines[|lines| - 1];
      assert init + [last] == lines;
      ParseLinesShape(init);
      ParseLinesSnoc(init, last);
      match ParseLines(init)
      case NoTab(i) =>
      case Parsed(ps) =>
        match SplitOnce(last, '\t')
        case None =>
        case Some(p) =>
          var ps2 := ps + [p];
          assert ps2[|init|] == p;
          assert last == p.0 + "\t" + p.1;
          forall k | 0 <= k < |init| ensures ps2[k] == ps[k] { }
    }
  }

  /** The parse is an error exactly when some line lacks a tab. */
  lemma ParseLinesFails(lines: seq<String>)
    ensures ParseLines(lines).NoTab? <==> exists k :: 0 <= k < |lines| && '\t' !in lines[k]
  {
    var r := ParseLines(lines);
    ParseLinesShape(lines);
    if r.Parsed? {
      forall k | 0 <= k < |lines| ensures '\t' in lines[k] {
        assert lines[k] == r.pairs[k].0 + "\t" + r.pairs[k].1;
        assert lines[k][|r.pairs[k].0|] == '\t';
      }
    }
  }

  /** The pairs the loop counts: those whose two sides differ, in dataset order. */
  function Retain(ps: seq<Pair>): seq<Pair>
  {
    if ps == [] then []
    else
      var p := ps[|ps| - 1];
      Retain(ps[..|ps| - 1]) + (if p.0 != p.1 then [p] else [])
  }

  /** Exactly the pairs with differing sides are kept, each as often as it occurs. */
  lemma {:induction false} RetainFacts(ps: seq<Pair>)
    ensures forall x :: x in Retain(ps) <==> x in ps && x.0 != x.1
    ensures forall x: Pair :: x.0 != x.1 ==> multiset(Retain(ps))[x] == multiset(ps)[x]
  {
    if ps != [] {
      var init := ps[..|ps| - 1];
      assert ps == init + [ps[|ps| - 1]];
      RetainFacts(init);
    }
  }

  /** Counted pairs first occur in the same relative order among the counted lines as in the dataset. */
  lemma {:induction false} RetainOrder(ps: seq<Pair>, a: Pair, b: Pair)
    requires a in Retain(ps) && b in Retain(ps) && a in ps && b in ps
    requires FirstIndex(Retain(ps), a) < FirstIndex(Retain(ps), b)
    ensures FirstIndex(ps, a) < FirstIndex(ps, b)
  {
    var init := ps[..|ps| - 1];
    var p := ps[|ps| - 1];
    assert ps == init + [p];
    var kept := Retain(init);
    RetainFacts(init);
    if p.0 == p.1 {
      assert Retain(ps) == kept;
      FirstIndexSnoc(init, p, a);
      FirstIndexSnoc(init, p, b);
      RetainOrder(init, a, b);
    } else {
      assert Retain(ps) == kept + [p];
      FirstIndexSnoc(kept, p, a);
      FirstIndexSnoc(kept, p, b);
      FirstIndexSnoc(init, p, a);
      FirstIndexSnoc(init, p, b);
      if b in kept {
        RetainOrder(init, a, b);
      }
    }
  }

  /** `[f"{raw}\t{opt}" for (raw, opt), _ in ranked]`. */
  function RuleLines(ranked: seq<Entry>): seq<String>
  {
    seq(|ranked|, k requires 0 <= k < |ranked| => ranked[k].0.0 + "\t" + ranked[k].0.1)
  }

  /** The effect of one run on a dataset text. */
  function Outcome(dataset: String): Run
  {
    match ParseLines(SplitLines(dataset))
      case NoTab(i) => ValueError(i)
      case Parsed(ps) => Wrote(ModelPath, Join(RuleLines(MostCommon(Tally(Retain(ps)))), '\n'))
  }

  /** `main`: the counting loop, the ranking and the write. */
  method Train(dataset: String) returns (run: Run)
    ensures run == Outcome(dataset)
  {
    var lines := SplitLines(dataset);
    var counts: seq<Entry> := [];
    ghost var ps: seq<Pair> := [];
    var i := 0;
    while i < |lines|
      invariant 0 <= i <= |lines|
      invariant ParseLines(lines[..i]) == Parsed(ps)
      invariant counts == Tally(Retain(ps))
    {
      var split := SplitOnce(lines[i], '\t');
      if split.None? {
        StepNoTab(lines, i, ps);
        OutcomeNoTab(dataset, lines, i);
        return ValueError(i);
      }
      var p := split.value;
      TrainStep(lines, i, ps, counts, p);
      if p.0 != p.1 {
        counts := Bump(counts, p);
      }
      ps := ps + [p];
      i := i + 1;
    }
    OutcomeParsed(dataset, lines, ps);
    var rules := RuleLines(MostCommon(counts));
    run := Wrote(ModelPath, Join(rules, '\n'));
  }

  /** One iteration of the counting loop: the parsed prefix grows by `p`, and `p` is counted when its sides differ. */
  lemma TrainStep(lines: seq<String>, i: nat, ps: seq<Pair>, counts: seq<Entry>, p: Pair)
    requires i < |lines| && ParseLines(lines[..i]) == Parsed(ps) && SplitOnce(lines[i], '\t') == Some(p)
    requires counts == Tally(Retain(ps))
    ensures ParseLines(lines[..i + 1]) == Parsed(ps + [p])
    ensures DistinctKeys(counts)
    ensures Tally(Retain(ps + [p])) == if p.0 != p.1 then Bump(counts, p) else counts
  {
    StepParsed(lines, i, ps, p);
    StepCounted(ps, p);
  }

  lemma OutcomeNoTab(dataset: String, lines: seq<String>, i: nat)
    requires lines == SplitLines(dataset) && ParseLines(lines) == NoTab(i)
    ensures Outcome(dataset) == ValueError(i)
  {
  }

  lemma OutcomeParsed(dataset: String, lines: seq<String>, ps: seq<Pair>)
    requires lines == SplitLines(dataset) && ParseLines(lines[..|lines|]) == Parsed(ps)
    ensures Outcome(dataset) == Wrote(ModelPath, Join(RuleLines(MostCommon(Tally(Retain(ps)))), '\n'))
  {
    assert lines[..|lines|] == lines;
  }

  lemma StepParsed(lines: seq<String>, i: nat, ps: seq<Pair>, p: Pair)
    requires i < |lines| && ParseLines(lines[..i]) == Parsed(ps) && SplitOnce(lines[i], '\t') == Some(p)
    ensures ParseLines(lines[..i + 1]) == Parsed(ps + [p])
  {
    assert lines[..i + 1][..i] == lines[..i];
  }

  lemma StepNoTab(lines: seq<String>, i: nat, ps: seq<Pair>)
    requires i < |lines| && ParseLines(lines[..i]) == Parsed(ps) && SplitOnce(lines[i], '\t') == None
    ensures ParseLines(lines) == NoTab(i)
  {
    assert lines[..i + 1][..i] == lines[..i];
    assert ParseLines(lines[..i + 1]) == NoTab(i);
    NoTabPrefix(lines, i + 1);
  }

  lemma StepCounted(ps: seq<Pair>, p: Pair)
    ensures Tally(Retain(ps + [p])) == if p.0 != p.1 then Bump(Tally(Retain(ps)), p) else Tally(Retain(ps))
  {
    assert (ps + [p])[..|ps|] == ps;
    var kept := Retain(ps);
    if p.0 != p.1 {
      assert Retain(ps + [p]) == kept + [p];
      assert (kept + [p])[..|kept|] == kept;
    } else {
      assert Retain(ps + [p]) == kept;
    }
  }

  lemma NoTabPrefix(lines: seq<String>, n: nat)
    requires n <= |lines| && ParseLines(lines[..n]).NoTab?
    ensures ParseLines(lines) == ParseLines(lines[..n])
  {
    var i := ParseLines(lines[..n]).line;
    ParseLinesShape(lines[..n]);
    ParseLinesShape(lines);
    assert lines[..n][i] == lines[i];
    forall k | 0 <= k < i ensures '\t' in lines[k] {
      assert lines[..n][k] == lines[k];
    }
    ParseLinesFails(lines);
  }

  /**
   * The ranked counter that `main` turns into rules: counts never increase, and equal counts keep
   * the order in which the pairs first occur in the dataset.
   */
  lemma RankingOrder(ps: seq<Pair>, r: seq<Entry>)
    requires r == MostCommon(Tally(Retain(ps)))
    ensures Ranked(r, ps)
  {
    var kept := Retain(ps);
    var t := Tally(kept);
    RetainFacts(ps);
    MostCommonMembers(t, r);
    TallyKeys(kept);
    TallyOrder(kept);
    MostCommonRanked(t, kept);
    forall k | 0 <= k < |r| ensures r[k].0 in kept {
      assert r[k] in r;
    }
    forall i, j | 0 <= i < j < |r| ensures RanksBefore(r[i], r[j], ps) {
      assert RanksBefore(r[i], r[j], kept);
      if r[i].1 == r[j].1 {
        RetainOrder(ps, r[i].0, r[j].0);
      }
    }
  }

  /** Each ranked pair has differing sides, carries its number of occurrences, and appears once. */
  lemma RankingCounts(ps: seq<Pair>, r: seq<Entry>)
    requires r == MostCommon(Tally(Retain(ps)))
    ensures forall k :: 0 <= k < |r| ==> r[k].0.0 != r[k].0.1 && r[k].1 == multiset(ps)[r[k].0]
    ensures DistinctKeys(r)
  {
    forall k | 0 <= k < |r| ensures r[k].0.0 != r[k].0.1 && r[k].1 == multiset(ps)[r[k].0] {
      RankedEntry(ps, r, k);
    }
    RankingOrder(ps, r);
    forall i, j | 0 <= i < j < |r| ensures r[i].0 != r[j].0 {
      RankedEntry(ps, r, i);
      RankedEntry(ps, r, j);
      RankedApart(ps, r, i, j);
    }
  }

  lemma RankedEntry(ps: seq<Pair>, r: seq<Entry>, k: nat)
    requires r == MostCommon(Tally(Retain(ps))) && k < |r|
    ensures r[k].0.0 != r[k].0.1 && r[k].1 == multiset(ps)[r[k].0]
  {
    var kept := Retain(ps);
    var t := Tally(kept);
    RetainFacts(ps);
    MostCommonMembers(t, r);
    TallyCounts(kept);
    TallyKeys(kept);
    assert r[k] in r;
    var m :| 0 <= m < |t| && t[m] == r[k];
  }

  /** Two ranked entries with the count of their own pair each are for different pairs. */
  lemma RankedApart(ps: seq<Pair>, r: seq<Entry>, i: nat, j: nat)
    requires Ranked(r, ps) && i < j < |r|
    requires r[i].1 == multiset(ps)[r[i].0] && r[j].1 == multiset(ps)[r[j].0]
    ensures r[i].0 != r[j].0
  {
    assert RanksBefore(r[i], r[j], ps);
  }

  /** Every distinct pair with differing sides is ranked, and only those. */
  lemma RankingKeys(ps: seq<Pair>, r: seq<Entry>)
    requires r == MostCommon(Tally(Retain(ps)))
    ensures forall q :: q in Keys(r) <==> q in ps && q.0 != q.1
  {
    var kept := Retain(ps);
    RetainFacts(ps);
    MostCommonMembers(Tally(kept), r);
    TallyKeys(kept);
  }

  /** There are as many rules as distinct pairs with differing sides. */
  lemma RankingSize(ps: seq<Pair>, r: seq<Entry>)
    requires r == MostCommon(Tally(Retain(ps)))
    ensures |r| == |set q | q in ps && q.0 != q.1|
  {
    var kept := Retain(ps);
    assert (set q | q in ps && q.0 != q.1) == set q | q in kept by {
      RetainFacts(ps);
    }
    assert |r| == |Tally(kept)| by {
      MostCommonMembers(Tally(kept), r);
    }
    TallySize(kept);
  }

  /** The counts of the rules add up to the number of dataset lines whose sides differ. */
  lemma RankingTotal(ps: seq<Pair>, r: seq<Entry>)
    requires r == MostCommon(Tally(Retain(ps)))
    ensures Total(r) == |Retain(ps)|
  {
    TallyTotal(Retain(ps));
    MostCommonTotal(Tally(Retain(ps)));
  }

  /** Since a raw side never holds a tab, distinct pairs give distinct rule lines. */
  lemma RuleLinesDistinct(r: seq<Entry>)
    requires DistinctKeys(r)
    requires forall k :: 0 <= k < |r| ==> '\t' !in r[k].0.0
    ensures forall i, j :: 0 <= i < j < |r| ==> RuleLines(r)[i] != RuleLines(r)[j]
  {
    forall i, j | 0 <= i < j < |r| ensures RuleLines(r)[i] != RuleLines(r)[j] {
      SplitOnceJoin(r[i].0.0, r[i].0.1, '\t');
      SplitOnceJoin(r[j].0.0, r[j].0.1, '\t');
    }
  }

  /** Rules inherit from the dataset pairs the absence of tabs and line boundaries in their sides. */
  lemma RankedSides(ps: seq<Pair>, r: seq<Entry>)
    requires r == MostCommon(Tally(Retain(ps)))
    requires forall k :: 0 <= k < |ps| ==> '\t' !in ps[k].0 && NoBoundary(ps[k].0) && NoBoundary(ps[k].1)
    ensures forall k :: 0 <= k < |r| ==> '\t' !in r[k].0.0 && NoBoundary(r[k].0.0) && NoBoundary(r[k].0.1)
  {
    RankingKeys(ps, r);
    forall k | 0 <= k < |r| ensures '\t' !in r[k].0.0 && NoBoundary(r[k].0.0) && NoBoundary(r[k].0.1) {
      assert r[k].0 in Keys(r);
      var m := FirstIndex(ps, r[k].0);
    }
  }

  /** Rule lines without line boundaries are read back line by line as they were written. */
  lemma RulesReadBack(r: seq<Entry>)
    requires forall k :: 0 <= k < |r| ==> NoBoundary(r[k].0.0) && NoBoundary(r[k].0.1)
    ensures SplitLines(Join(RuleLines(r), '\n')) == RuleLines(r)
  {
    var rules := RuleLines(r);
    forall k | 0 <= k < |rules| ensures NoBoundary(rules[k]) && rules[k] != [] {
      assert rules[k] == r[k].0.0 + "\t" + r[k].0.1;
      assert rules[k][|r[k].0.0|] == '\t';
    }
    SplitLinesJoin(rules);
  }

  /**
   * A run that succeeds writes the fixed model path; reading its content back line by line gives
   * the rules, one distinct line per pair (the dataset's lines hold no line boundary, so neither
   * side of a pair does).
   */
  lemma TrainOutput(dataset: String, ps: seq<Pair>)
    requires ParseLines(SplitLines(dataset)) == Parsed(ps)
    ensures Outcome(dataset).Wrote? && Outcome(dataset).path == ModelPath
    ensures var rules := RuleLines(MostCommon(Tally(Retain(ps))));
      SplitLines(Outcome(dataset).content) == rules
      && forall i, j :: 0 <= i < j < |rules| ==> rules[i] != rules[j]
  {
    var r := MostCommon(Tally(Retain(ps)));
    ParseLinesShape(SplitLines(dataset));
    forall k | 0 <= k < |ps| ensures NoBoundary(ps[k].0) && NoBoundary(ps[k].1) {
      SidesNoBoundary(SplitLines(dataset)[k], ps[k]);
    }
    assert Outcome(dataset) == Wrote(ModelPath, Join(RuleLines(r), '\n'));
    RankedSides(ps, r);
    assert DistinctKeys(r) by {
      RankingCounts(ps, r);
    }
    RuleLinesDistinct(r);
    RulesReadBack(r);
  }

  /** Both sides of a line split at a tab hold no line boundary when the line holds none. */
  lemma SidesNoBoundary(line: String, p: Pair)
    requires NoBoundary(line) && line == p.0 + "\t" + p.1
    ensures NoBoundary(p.0) && NoBoundary(p.1)
  {
    forall i | 0 <= i < |p.1| ensures !IsLineBoundary(p.1[i]) {
      assert p.1[i] == line[|p.0| + 1 + i];
    }
    forall i | 0 <= i < |p.0| ensures !IsLineBoundary(p.0[i]) {
      assert p.0[i] == line[i];
    }
  }

  /** The lines `raw<TAB>opt` of `pairs`, in order. */
  function PairLines(pairs: seq<Pair>): seq<String>
  {
    seq(|pairs|, k requires 0 <= k < |pairs| => pairs[k].0 + "\t" + pairs[k].1)
  }

  /** Lines `a<TAB>b` whose first sides hold no tab parse back into their pairs. */
  lemma {:induction false} ParseJoined(pairs: seq<Pair>)
    requires forall k :: 0 <= k < |pairs| ==> '\t' !in pairs[k].0
    ensures ParseLines(PairLines(pairs)) == Parsed(pairs)
  {
    if pairs != [] {
      var init := pairs[..|pairs| - 1];
      var last := pairs[|pairs| - 1];
      var line := last.0 + "\t" + last.1;
      assert init + [last] == pairs;
      ParseJoined(init);
      PairLinesSnoc(init, last);
      SplitOnceJoin(last.0, last.1, '\t');
      ParseLinesSnoc(PairLines(init), line);
    }
  }

  lemma PairLinesSnoc(pairs: seq<Pair>, p: Pair)
    ensures PairLines(pairs + [p]) == PairLines(pairs) + [p.0 + "\t" + p.1]
  {
  }

  /** Parsing one more line. */
  lemma ParseLinesSnoc(lines: seq<String>, line: String)
    ensures ParseLines(lines + [line]) == match ParseLines(lines)
      case NoTab(i) => NoTab(i)
      case Parsed(ps) => match SplitOnce(line, '\t')
        case None => NoTab(|lines|)
        case Some(p) => Parsed(ps + [p])
  {
    assert (lines + [line])[..|lines|] == lines;
  }

  /**
   * The dataset that `Collect` writes is read back as the intended pairs, provided no program holds
   * a tab or a line boundary other than `\n`.
   */
  lemma DatasetParses(files: seq<File>)
    requires forall k :: 0 <= k < |files| ==>
      '\t' !in ReadText(files[k].content) && OnlyNewlines(ReadText(files[k].content))
    ensures ParseLines(SplitLines(Terminated(Samples(files))))
      == Parsed(seq(|files|, k requires 0 <= k < |files| =>
        (ReplaceWith(ReadText(files[k].content), '\n', " "), Normalize(ReadText(files[k].content)))))
  {
    var pairs := seq(|files|, k requires 0 <= k < |files| =>
      (ReplaceWith(ReadText(files[k].content), '\n', " "), Normalize(ReadText(files[k].content))));
    forall k | 0 <= k < |files| ensures Samples(files)[k] == CleanSamples(files)[k] {
      CleanSampleAgrees(ReadText(files[k].content));
    }
    assert Samples(files) == CleanSamples(files);
    CleanDatasetParses(files);
    forall k | 0 <= k < |files|
      ensures pairs[k] == (Blank(ReadText(files[k].content)), Normalize(ReadText(files[k].content)))
    {
      BlankAgrees(ReadText(files[k].content));
    }
  }

  /** The corrected dataset lines parse back into one pair per program, whatever the programs hold. */
  lemma CleanDatasetParses(files: seq<File>)
    ensures ParseLines(SplitLines(Terminated(CleanSamples(files))))
      == Parsed(seq(|files|, k requires 0 <= k < |files| =>
        (Blank(ReadText(files[k].content)), Normalize(ReadText(files[k].content)))))
  {
    var pairs := seq(|files|, k requires 0 <= k < |files| =>
      (Blank(ReadText(files[k].content)), Normalize(ReadText(files[k].content))));
    var lines := CleanSamples(files);
    forall k | 0 <= k < |lines| ensures NoBoundary(lines[k]) {
      CleanSampleOneLine(ReadText(files[k].content));
    }
    SplitLinesTerminated(lines);
    assert lines == PairLines(pairs);
    ParseJoined(pairs);
  }

  /** A corrected dataset line holds no line boundary. */
  lemma CleanSampleOneLine(raw: String)
    ensures NoBoundary(CleanSample(raw))
  {
    var b, n := Blank(raw), Normalize(raw);
    NormalizeAlphabet(raw);
    assert NoBoundary(n);
    var line := b + "\t" + n;
    forall i | 0 <= i < |line| ensures !IsLineBoundary(line[i]) {
      if i > |b| {
        assert line[i] == n[i - |b| - 1];
      }
    }
  }

  /** A tab-indented program: its dataset line is split at the program's own tab. */
  lemma IndentedProgramMisread()
    ensures Sample("\t+") == "\t+\t+"
    ensures ParseLines(SplitLines(Terminated([Sample("\t+")]))) == Parsed([("", "+\t+")])
  {
    IndentedSample();
    SplitLinesTerminated(["\t+\t+"]);
    IndentedLineParse();
  }

  lemma IndentedSample()
    ensures Sample("\t+") == "\t+\t+"
  {
    IndentedNormalize();
    ReplaceWithAbsent("\t+", '\n', " ");
    assert "\t+" + "\t" + "+" == "\t+\t+";
  }

  lemma IndentedNormalize()
    ensures Normalize("\t+") == "+"
  {
    assert Filter("\t+", Alphabet) == "+" by {
      assert "\t+"[1..] == "+";
    }
    assert Collapse("+", PlusMinus) == "+" by {
      assert RunLength("+", PlusMinus) == 1;
    }
    assert Collapse("+", Angles) == "+";
  }

  lemma IndentedLineParse()
    ensures ParseLines(["\t+\t+"]) == Parsed([("", "+\t+")])
  {
    assert SplitOnce("\t+\t+", '\t') == Some(("", "+\t+")) by {
      SplitOnceJoin("", "+\t+", '\t');
      assert [] + "\t" + "+\t+" == "\t+\t+";
    }
    var lines := ["\t+\t+"];
    assert lines[..0] == [];
  }

  lemma FormFeedSample()
    ensures Sample("+\U{c}+") == "+\U{c}+\t"
  {
    var raw := "+\U{c}+";
    FormFeedNormalize();
    assert '\n' !in raw by {
      assert raw[0] != '\n' && raw[1] != '\n' && raw[2] != '\n';
    }
    EmptyNormalSample(raw);
  }

  /** A one-line program that normalizes to nothing is sampled as itself and a tab. */
  lemma EmptyNormalSample(raw: String)
    requires '\n' !in raw && Normalize(raw) == []
    ensures Sample(raw) == raw + "\t"
  {
    ReplaceWithAbsent(raw, '\n', " ");
  }

  lemma FormFeedNormalize()
    ensures Normalize("+\U{c}+") == []
  {
    var raw := "+\U{c}+";
    assert Filter(raw, Alphabet) == "++" by {
      assert raw == "+\U{c}" + "+";
      FilterConcat("+\U{c}", "+", Alphabet);
      FilterConcat("+", "\U{c}", Alphabet);
    }
    assert Normalize("++") == [] by {
      NormalizePlusMinusRun("++");
      assert Count("++", '+') == 2;
    }
    NormalizeIgnoresComments(raw);
  }

  lemma FormFeedLines()
    ensures SplitLines("+\U{c}+\t\n") == ["+", "+\t"]
  {
    var s := "+\U{c}+\t\n";
    var t := "+\t\n";
    assert s[..1] == "+" && s[2..] == t;
    assert NoBoundary(s[..1]) && IsLineBoundary(s[1]);
    SplitLinesAt(s, 1);
    LastLineSplit();
    SeqPair("+", "+\t");
  }

  lemma LastLineSplit()
    ensures SplitLines("+\t\n") == ["+\t"]
  {
    var t := "+\t\n";
    assert t[..2] == "+\t" && t[3..] == [];
    assert NoBoundary(t[..2]) && IsLineBoundary(t[2]);
    SplitLinesAt(t, 2);
  }

  lemma SeqPair(a: String, b: String)
    ensures [a] + [b] == [a, b]
  {
  }

  /** A program holding a form feed: its dataset line splits in two and the run stops. */
  lemma FormFeedProgramAborts()
    ensures Sample("+\U{c}+") == "+\U{c}+\t"
    ensures SplitLines(Terminated([Sample("+\U{c}+")])) == ["+", "+\t"]
    ensures Outcome(Terminated([Sample("+\U{c}+")])) == ValueError(0)
  {
    FormFeedSample();
    TerminatedOne("+\U{c}+\t");
    assert [Sample("+\U{c}+")] == ["+\U{c}+\t"];
    assert Terminated([Sample("+\U{c}+")]) == "+\U{c}+\t\n";
    FormFeedLines();
    assert ParseLines(["+"]) == NoTab(0);
    NoTabPrefix(["+", "+\t"], 1);
    assert ["+", "+\t"][..1] == ["+"];
  }
}
