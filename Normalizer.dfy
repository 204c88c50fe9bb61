/**
 * The canonicalisation applied by the sample collector (tools/ml_optimizer/collect.py, `normalize`):
 * strip every non-instruction character, then rewrite each maximal run of two or more `+`/`-`
 * characters, and afterwards each maximal run of two or more `<`/`>` characters, to its first
 * character when that character occurs an odd number of times in the run, and to nothing otherwise.
 */
module Normalizer {
  import opened Text

  /** The eight instruction characters. */
  const Alphabet: set<char> := {'+', '-', '<', '>', '.', ',', '[', ']'}
  const PlusMinus: set<char> := {'+', '-'}
  const Angles: set<char> := {'<', '>'}

  /** The characters of `s` that satisfy `keep`, in order. */
  function Filter(s: String, keep: set<char>): (r: String)
    ensures |r| <= |s|
    ensures forall i :: 0 <= i < |r| ==> r[i] in keep
  {
    if s == [] then [] else (if s[0] in keep then [s[0]] else []) + Filter(s[1..], keep)
  }

  lemma {:induction false} FilterConcat(a: String, b: String, keep: set<char>)
    ensures Filter(a + b, keep) == Filter(a, keep) + Filter(b, keep)
  {
    if a != [] {
      assert (a + b)[0] == a[0] && (a + b)[1..] == a[1..] + b;
      FilterConcat(a[1..], b, keep);
    } else {
      assert a + b == b;
    }
  }

  lemma {:induction false} FilterAll(s: String, keep: set<char>)
    requires forall i :: 0 <= i < |s| ==> s[i] in keep
    ensures Filter(s, keep) == s
  {
    if s != [] {
      FilterAll(s[1..], keep);
    }
  }

  lemma {:induction false} FilterNone(s: String, keep: set<char>)
    requires forall i :: 0 <= i < |s| ==> s[i] !in keep
    ensures Filter(s, keep) == []
  {
    if s != [] {
      FilterNone(s[1..], keep);
    }
  }

  /** Length of the longest prefix of `s` made of characters of `cls`. */
  function RunLength(s: String, cls: set<char>): (n: nat)
    ensures n <= |s|
    ensures forall i :: 0 <= i < n ==> s[i] in cls
    ensures n < |s| ==> s[n] !in cls
  {
    if s == [] || s[0] !in cls then 0 else 1 + RunLength(s[1..], cls)
  }

  /** What one matched run becomes: `run[0] * (run.count(run[0]) % 2)`. */
  function Reduce(run: String): (r: String)
    requires run != []
  {
    if Count(run, run[0]) % 2 == 1 then [run[0]] else []
  }

  /** One `re.sub` pass: every maximal run of two or more characters of `cls` is reduced. */
  function Collapse(s: String, cls: set<char>): (r: String)
    decreases |s|
  {
    if s == [] then []
    else if s[0] !in cls then [s[0]] + Collapse(s[1..], cls)
    else
      var n := RunLength(s, cls);
      RunImage(s[..n]) + Collapse(s[n..], cls)
  }

  /** What a maximal run of class characters becomes: only runs of two or more are rewritten. */
  function RunImage(run: String): (r: String)
    requires run != []
    ensures |r| <= 1
  {
    if |run| >= 2 then Reduce(run) else run
  }

/** A run's image repeats only the run's first character. */
  lemma RunImageFirst(run: String)
    requires run != []
    ensures forall i :: 0 <= i < |RunImage(run)| ==> RunImage(run)[i] == run[0]
  {
  }

  /** `normalize(code)`. */
  function Normalize(code: String): (r: String)
  {
    Collapse(Collapse(Filter(code, Alphabet), PlusMinus), Angles)
  }

  /** Collapsing never lengthens the text and introduces no new character. */
  lemma {:induction false} CollapseShrinks(s: String, cls: set<char>)
    ensures |Collapse(s, cls)| <= |s|
    ensures forall i :: 0 <= i < |Collapse(s, cls)| ==> Collapse(s, cls)[i] in s
    decreases |s|
  {
    if s != [] {
      if s[0] !in cls {
        CollapseShrinks(s[1..], cls);
      } else {
        var n := RunLength(s, cls);
        CollapseShrinks(s[n..], cls);
        var head := RunImage(s[..n]);
        assert forall i :: 0 <= i < |head| ==> head[i] in s;
        assert forall i :: 0 <= i < |Collapse(s[n..], cls)| ==> Collapse(s[n..], cls)[i] in s;
      }
    }
  }

  /** Characters outside `cls` pass through a pass unchanged and in their original order. */
  lemma {:induction false} CollapseKeepsOthers(s: String, cls: set<char>, others: set<char>)
    requires cls !! others
    ensures Filter(Collapse(s, cls), others) == Filter(s, others)
    decreases |s|
  {
    if s != [] {
      if s[0] !in cls {
        FilterConcat([s[0]], Collapse(s[1..], cls), others);
        CollapseKeepsOthers(s[1..], cls, others);
      } else {
        var n := RunLength(s, cls);
        var head := RunImage(s[..n]);
        assert Filter(head, others) == [] by {
          RunImageFirst(s[..n]);
          FilterNone(head, others);
        }
        assert Filter(s, others) == Filter(s[n..], others) by {
          assert s[..n] + s[n..] == s;
          FilterConcat(s[..n], s[n..], others);
          FilterNone(s[..n], others);
        }
        FilterConcat(head, Collapse(s[n..], cls), others);
        CollapseKeepsOthers(s[n..], cls, others);
      }
    }
  }

  /** A whole run of two or more class characters is reduced by the parity of its first character. */
  lemma CollapseRun(run: String, cls: set<char>)
    requires |run| >= 2 && forall i :: 0 <= i < |run| ==> run[i] in cls
    ensures Collapse(run, cls) == Reduce(run)
  {
    RunLengthAll(run, cls);
    assert run[..|run|] == run;
    assert run[|run|..] == [];
  }

  /** The unfolding of `Collapse` at a text that starts with a class character. */
  lemma CollapseAtRun(s: String, cls: set<char>)
    requires s != [] && s[0] in cls
    ensures Collapse(s, cls) == RunImage(s[..RunLength(s, cls)]) + Collapse(s[RunLength(s, cls)..], cls)
  {
  }

  /** A character outside `cls` separates the text into two independently collapsed halves. */
  lemma {:induction false} CollapseSplit(a: String, x: char, b: String, cls: set<char>)
    requires x !in cls
    ensures Collapse(a + ([x] + b), cls) == Collapse(a, cls) + ([x] + Collapse(b, cls))
    decreases |a|
  {
    var t := [x] + b;
    if a == [] {
      assert a + t == t && t[1..] == b;
    } else if a[0] !in cls {
      assert (a + t)[0] == a[0] && (a + t)[1..] == a[1..] + t;
      CollapseSplit(a[1..], x, b, cls);
    } else {
      CollapseSplitRun(a, x, b, cls);
    }
  }

  lemma {:induction false} CollapseSplitRun(a: String, x: char, b: String, cls: set<char>)
    requires x !in cls && a != [] && a[0] in cls
    ensures Collapse(a + ([x] + b), cls) == Collapse(a, cls) + ([x] + Collapse(b, cls))
    decreases |a|, 0
  {
    var t := [x] + b;
    var s := a + t;
    var n := RunLength(a, cls);
    RunLengthPrefix(a, t, cls);
    assert s[0] == a[0];
    assert s[..n] == a[..n] && s[n..] == a[n..] + t;
    var img := RunImage(a[..n]);
    var rest := Collapse(a[n..], cls);
    var tail := [x] + Collapse(b, cls);
    assert Collapse(s, cls) == img + Collapse(a[n..] + t, cls) by {
      CollapseAtRun(s, cls);
    }
    assert Collapse(a[n..] + t, cls) == rest + tail by {
      CollapseSplit(a[n..], x, b, cls);
    }
    assert Collapse(a, cls) == img + rest by {
      CollapseAtRun(a, cls);
    }
    SeqAssoc(img, rest, tail);
  }

  lemma {:induction false} RunLengthPrefix(a: String, b: String, cls: set<char>)
    requires b != [] && b[0] !in cls
    ensures RunLength(a + b, cls) == RunLength(a, cls)
  {
    if a == [] {
      assert a + b == b;
    } else {
      assert (a + b)[0] == a[0] && (a + b)[1..] == a[1..] + b;
      RunLengthPrefix(a[1..], b, cls);
    }
  }

  lemma {:induction false} RunLengthAll(s: String, cls: set<char>)
    requires forall i :: 0 <= i < |s| ==> s[i] in cls
    ensures RunLength(s, cls) == |s|
  {
    if s != [] {
      RunLengthAll(s[1..], cls);
    }
  }

  /** A text without class characters is left as it is. */
  lemma {:induction false} CollapseNoClass(s: String, cls: set<char>)
    requires forall i :: 0 <= i < |s| ==> s[i] !in cls
    ensures Collapse(s, cls) == s
  {
    if s != [] {
      CollapseNoClass(s[1..], cls);
    }
  }

  /** A text that starts outside `cls` still starts with that character after the pass. */
  lemma CollapseHead(s: String, cls: set<char>)
    requires s != [] && s[0] !in cls
    ensures Collapse(s, cls) != [] && Collapse(s, cls)[0] == s[0]
  {
  }

  predicate NoAdjacent(r: String, cls: set<char>)
  {
    forall i :: 0 <= i < |r| - 1 ==> !(r[i] in cls && r[i + 1] in cls)
  }

  /** After a pass no two neighbouring characters both belong to `cls`. */
  lemma {:induction false} CollapseNoAdjacent(s: String, cls: set<char>)
    ensures NoAdjacent(Collapse(s, cls), cls)
    decreases |s|
  {
    if s != [] {
      if s[0] !in cls {
        CollapseNoAdjacent(s[1..], cls);
      } else {
        var n := RunLength(s, cls);
        var head := RunImage(s[..n]);
        var tail := Collapse(s[n..], cls);
        CollapseNoAdjacent(s[n..], cls);
        assert |head| <= 1;
        if n < |s| {
          CollapseHead(s[n..], cls);
        }
        var r := head + tail;
        forall i | 0 <= i < |r| - 1 ensures !(r[i] in cls && r[i + 1] in cls) {
          if i >= |head| {
            assert r[i] == tail[i - |head|] && r[i + 1] == tail[i + 1 - |head|];
          }
        }
      }
    }
  }

  // ----- Properties of normalize -----

  /** A character outside the command alphabet never survives normalization. */
  lemma NormalOmits(raw: String, c: char)
    requires c !in Alphabet
    ensures c !in Normalize(raw)
  {
    NormalizeAlphabet(raw);
  }

  /** Every character of `normalize(s)` is an instruction character. */
  lemma NormalizeAlphabet(s: String)
    ensures forall i :: 0 <= i < |Normalize(s)| ==> Normalize(s)[i] in Alphabet
  {
    var f := Filter(s, Alphabet);
    var p := Collapse(f, PlusMinus);
    CollapseShrinks(f, PlusMinus);
    CollapseShrinks(p, Angles);
    forall i | 0 <= i < |Normalize(s)| ensures Normalize(s)[i] in Alphabet {
      assert Normalize(s)[i] in p;
      var j :| 0 <= j < |p| && p[j] == Normalize(s)[i];
      assert p[j] in f;
    }
  }

  /** `len(normalize(s)) <= len(s)`. */
  lemma NormalizeShrinks(s: String)
    ensures |Normalize(s)| <= |s|
  {
    CollapseShrinks(Filter(s, Alphabet), PlusMinus);
    CollapseShrinks(Collapse(Filter(s, Alphabet), PlusMinus), Angles);
  }

  const IoAndBrackets: set<char> := {'.', ',', '[', ']'}

  /** `.`, `,`, `[` and `]` survive normalisation, all of them and in their original order. */
  lemma NormalizeKeepsIoAndBrackets(s: String)
    ensures Filter(Normalize(s), IoAndBrackets) == Filter(s, IoAndBrackets)
  {
    var f := Filter(s, Alphabet);
    CollapseKeepsOthers(f, PlusMinus, IoAndBrackets);
    CollapseKeepsOthers(Collapse(f, PlusMinus), Angles, IoAndBrackets);
    FilterTwice(s, Alphabet, IoAndBrackets);
  }

  lemma {:induction false} FilterTwice(s: String, outer: set<char>, inner: set<char>)
    requires inner <= outer
    ensures Filter(Filter(s, outer), inner) == Filter(s, inner)
  {
    if s != [] {
      FilterConcat(if s[0] in outer then [s[0]] else [], Filter(s[1..], outer), inner);
      FilterTwice(s[1..], outer, inner);
    }
  }

  /** No two neighbouring characters of `normalize(s)` are both `<`/`>`: the angle pass runs last. */
  lemma NormalizeNoAdjacentAngles(s: String)
    ensures NoAdjacent(Normalize(s), Angles)
  {
    CollapseNoAdjacent(Collapse(Filter(s, Alphabet), PlusMinus), Angles);
  }

  /** A lone run of two or more `+`/`-` characters normalises by the parity of its first character. */
  lemma NormalizePlusMinusRun(s: String)
    requires |s| >= 2 && forall i :: 0 <= i < |s| ==> s[i] in PlusMinus
    ensures Normalize(s) == Reduce(s)
  {
    FilterAll(s, Alphabet);
    CollapseRun(s, PlusMinus);
    CollapseNoClass(Reduce(s), Angles);
  }

  /** A lone run of two or more `<`/`>` characters normalises by the parity of its first character. */
  lemma NormalizeAngleRun(s: String)
    requires |s| >= 2 && forall i :: 0 <= i < |s| ==> s[i] in Angles
    ensures Normalize(s) == Reduce(s)
  {
    FilterAll(s, Alphabet);
    CollapseNoClass(s, PlusMinus);
    CollapseRun(s, Angles);
  }

  /** An even run of one character vanishes; an odd one leaves a single character. */
  lemma ParityOfUniformRuns()
    ensures Normalize("++++") == ""
    ensures Normalize("+++") == "+"
  {
    NormalizePlusMinusRun("++++");
    assert Count("++++", '+') == 4;
    NormalizePlusMinusRun("+++");
    assert Count("+++", '+') == 3;
  }

  /**
   * The parity rule counts only the run's first character, so a mixed run of two keeps its first
   * character (the behaviour the optimiser's own unit test expects of "+-", "-+" and "><").
   */
  lemma ParityOfMixedRuns()
    ensures Normalize("+-") == "+"
    ensures Normalize("-+") == "-"
    ensures Normalize("><") == ">"
  {
    MixedPair("+-", PlusMinus);
    MixedPair("-+", PlusMinus);
    MixedPair("><", Angles);
  }

  /** Two different characters of one class keep the first, which occurs once. */
  lemma MixedPair(s: String, cls: set<char>)
    requires cls == PlusMinus || cls == Angles
    requires |s| == 2 && s[0] in cls && s[1] in cls && s[0] != s[1]
    ensures Normalize(s) == [s[0]]
  {
    if cls == PlusMinus {
      NormalizePlusMinusRun(s);
    } else {
      NormalizeAngleRun(s);
    }
    assert Count(s, s[0]) == 1 by {
      assert s[1..][1..] == [];
      assert Count(s[1..], s[0]) == 0;
    }
  }

  /** A class character with no class character beside it is a run of one, which a pass keeps. */
  lemma SignAlone(c: char, b: String, cls: set<char>)
    requires c in cls && (b == [] || b[0] !in cls)
    ensures Collapse([c] + b, cls) == [c] + Collapse(b, cls)
  {
    var s := [c] + b;
    assert s[0] == c && s[1..] == b;
    assert RunLength(s, cls) == 1;
    assert s[..1] == [c];
  }

  /** A pass keeps an isolated class character and collapses the two sides independently. */
  lemma {:induction false} CollapseIsolated(a: String, c: char, b: String, cls: set<char>)
    requires c in cls
    requires a == [] || a[|a| - 1] !in cls
    requires b == [] || b[0] !in cls
    ensures Collapse(a + [c] + b, cls) == Collapse(a, cls) + [c] + Collapse(b, cls)
  {
    SignAlone(c, b, cls);
    if a == [] {
      assert a + [c] + b == [c] + b;
    } else {
      var init := a[..|a| - 1];
      var z := a[|a| - 1];
      assert a == init + ([z] + []);
      assert a + [c] + b == init + ([z] + ([c] + b));
      CollapseSplit(init, z, [c] + b, cls);
      CollapseSplit(init, z, [], cls);
    }
  }

  /** The last and first instruction characters of two texts, when there are any. */
  predicate SignIsolated(a: String, b: String)
  {
    var fa := Filter(a, Alphabet);
    var fb := Filter(b, Alphabet);
    (fa == [] || fa[|fa| - 1] !in PlusMinus) && (fb == [] || fb[0] !in PlusMinus)
  }

  /**
   * A single `+` or `-` whose nearest instruction characters on both sides are not `+`/`-`
   * survives normalisation, between the normalisations of the text before and after it.
   */
  lemma NormalizeKeepsIsolatedSign(a: String, c: char, b: String)
    requires c in PlusMinus && SignIsolated(a, b)
    ensures Normalize(a + [c] + b) == Normalize(a) + [c] + Normalize(b)
  {
    var fa := Filter(a, Alphabet);
    var fb := Filter(b, Alphabet);
    FilterAround(a, c, b);
    BothPassesIsolated(fa, c, fb);
  }

  lemma FilterAround(a: String, c: char, b: String)
    requires c in Alphabet
    ensures Filter(a + [c] + b, Alphabet) == Filter(a, Alphabet) + [c] + Filter(b, Alphabet)
  {
    FilterConcat(a + [c], b, Alphabet);
    FilterConcat(a, [c], Alphabet);
    FilterAll([c], Alphabet);
  }

  lemma BothPassesIsolated(fa: String, c: char, fb: String)
    requires c in PlusMinus
    requires fa == [] || fa[|fa| - 1] !in PlusMinus
    requires fb == [] || fb[0] !in PlusMinus
    ensures Collapse(Collapse(fa + [c] + fb, PlusMinus), Angles)
         == Collapse(Collapse(fa, PlusMinus), Angles) + [c] + Collapse(Collapse(fb, PlusMinus), Angles)
  {
    var pa := Collapse(fa, PlusMinus);
    var pb := Collapse(fb, PlusMinus);
    var p := pa + ([c] + pb);
    assert Collapse(fa + [c] + fb, PlusMinus) == p by {
      CollapseIsolated(fa, c, fb, PlusMinus);
      SeqAssoc(pa, [c], pb);
    }
    var qa := Collapse(pa, Angles);
    var qb := Collapse(pb, Angles);
    assert Collapse(p, Angles) == qa + ([c] + qb) by {
      CollapseSplit(pa, c, pb, Angles);
    }
    SeqAssoc(qa, [c], qb);
  }

  /**
   * The same does not hold for `<` and `>`: in `"<++>"` neither angle touches another, yet the
   * `+`/`-` pass deletes the even run between them and the angle pass then drops the `>`.
   */
  lemma IsolatedAngleLost()
    ensures Normalize("<++>") == "<"
  {
    FilterAll("<++>", Alphabet);
    assert Collapse("<++>", PlusMinus) == "<>" by {
      assert "<++>" == [] + "<" + "++>";
      assert Collapse("++>", PlusMinus) == ">" by {
        assert "++>" == "++" + (">" + []);
        CollapseSplit("++", '>', [], PlusMinus);
        PlusPairVanishes();
      }
      CollapseSplit([], '<', "++>", PlusMinus);
    }
    assert Collapse("<>", Angles) == "<" by {
      CollapseRun("<>", Angles);
      assert Count("<>", '<') == 1 by {
        assert "<>"[1..] == ">";
        assert ">"[1..] == [];
      }
    }
  }

  /** Non-instruction characters play no part: removing them first changes nothing. */
  lemma NormalizeIgnoresComments(s: String)
    ensures Normalize(Filter(s, Alphabet)) == Normalize(s)
  {
    FilterTwice(s, Alphabet, Alphabet);
  }

  /** `normalize` is not idempotent: the `+`/`-` pass runs before the angle pass can join two runs. */
  lemma NotIdempotent()
    ensures Normalize("+<<+") == "++"
    ensures Normalize("++") == ""
    ensures Normalize(Normalize("+<<+")) != Normalize("+<<+")
  {
    FilterAll("+<<+", Alphabet);
    FilterAll("++", Alphabet);
    PlusPassKeeps();
    AnglePassMerges();
    PlusPairVanishes();
  }

  /** The `+`/`-` pass sees no run of two in `"+<<+"`. */
  lemma PlusPassKeeps()
    ensures Collapse("+<<+", PlusMinus) == "+<<+"
  {
    var s := "+<<+";
    assert RunLength(s, PlusMinus) == 1;
    assert s[1..] == "<<+" && "<<+"[1..] == "<+" && "<+"[1..] == "+";
    assert Collapse("+", PlusMinus) == "+";
  }

  /** The angle pass removes `"<<"`, leaving the two `+` adjacent. */
  lemma AnglePassMerges()
    ensures Collapse("+<<+", Angles) == "++"
  {
    var s := "+<<+";
    assert s[1..] == "<<+";
    RunLengthPrefix("<<", "+", Angles);
    RunLengthAll("<<", Angles);
    assert "<<+"[..2] == "<<" && "<<+"[2..] == "+";
    assert Count("<<", '<') == 2;
    assert Collapse("<<+", Angles) == "+";
  }

  lemma PlusPairVanishes()
    ensures Collapse("++", PlusMinus) == ""
  {
    CollapseRun("++", PlusMinus);
    assert Count("++", '+') == 2;
  }

}
