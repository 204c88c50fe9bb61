/**
 * The rewrite helpers shared by every front end of the VM: `fold`, which
 * measures a run of one instruction character and advances the scan index
 * past it; `processBalanced`, which cancels `+` against `-` (or `>` against
 * `<`); the splice loop of `regexReplaceInplace`; and the byte counter of
 * the `CountingResource` allocator.
 */
module Shared {
  import opened Text
  import Normalizer

  // ---------------------------------------------------------------------
  // fold

  /** Number of consecutive copies of `c` immediately after index `i`. */
  function RunAfter(code: String, i: nat, c: char): (n: nat)
    requires i < |code|
    ensures i + n < |code|
    decreases |code| - i
  {
    if i + 1 < |code| && code[i + 1] == c then 1 + RunAfter(code, i + 1, c) else 0
  }

  /** The run counted by `RunAfter` is exactly the maximal block of `c` after `i`. */
  lemma {:induction false} RunAfterMaximal(code: String, i: nat, c: char)
    requires i < |code|
    ensures forall k :: i < k <= i + RunAfter(code, i, c) ==> code[k] == c
    ensures i + RunAfter(code, i, c) + 1 < |code| ==> code[i + RunAfter(code, i, c) + 1] != c
    decreases |code| - i
  {
    if i + 1 < |code| && code[i + 1] == c {
      RunAfterMaximal(code, i + 1, c);
    }
  }

  /** `RunAfter` never looks at the character at `i` itself. */
  lemma {:induction false} RunAfterIgnoresStart(code: String, i: nat, c: char, x: char)
    requires i < |code|
    ensures RunAfter(code[i := x], i, c) == RunAfter(code, i, c)
  {
    var other := code[i := x];
    RunAfterSame(code, other, i, c);
  }

  /** Two texts that agree after `i` have the same run after `i`. */
  lemma {:induction false} RunAfterSame(a: String, b: String, i: nat, c: char)
    requires i < |a| == |b|
    requires forall k :: i < k < |a| ==> a[k] == b[k]
    ensures RunAfter(a, i, c) == RunAfter(b, i, c)
    decreases |a| - i
  {
    if i + 1 < |a| && a[i + 1] == c {
      RunAfterSame(a, b, i + 1, c);
    }
  }

  /**
   * `fold(code, i, match)`: the returned count is one plus the run of `target` (the source's `match`)
   * after `i`, and the index comes back on the last character of that run.
   */
  method Fold(code: String, i0: nat, target: char) returns (count: int, i: nat)
    requires i0 < |code|
    ensures count == 1 + RunAfter(code, i0, target)
    ensures i == i0 + count - 1 && i < |code|
    ensures forall k :: i0 < k <= i ==> code[k] == target
    ensures i + 1 == |code| || code[i + 1] != target
  {
    count := 1;
    i := i0;
    while i < |code| - 1 && code[i + 1] == target
      invariant i0 <= i < |code|
      invariant count == i - i0 + 1
      invariant RunAfter(code, i0, target) == (i - i0) + RunAfter(code, i, target)
      decreases |code| - i
    {
      i := i + 1;
      count := count + 1;
    }
    RunAfterMaximal(code, i0, target);
  }

  // ---------------------------------------------------------------------
  // processBalanced

  function Abs(x: int): nat
  {
    if x < 0 then -x else x
  }

  /** `std::string(n, c)`: `n` copies of `c`. */
  function Repeat(c: char, n: nat): (r: String)
  {
    if n == 0 then [] else [c] + Repeat(c, n - 1)
  }

  lemma {:induction false} CountRepeat(c: char, n: nat, d: char)
    ensures |Repeat(c, n)| == n
    ensures Count(Repeat(c, n), d) == if d == c then n else 0
  {
    if n > 0 {
      CountRepeat(c, n - 1, d);
      assert Repeat(c, n)[1..] == Repeat(c, n - 1);
    }
  }

  lemma {:induction false} RepeatUniform(c: char, n: nat)
    ensures forall k :: 0 <= k < |Repeat(c, n)| ==> Repeat(c, n)[k] == c
  {
    if n > 0 {
      RepeatUniform(c, n - 1);
      assert Repeat(c, n)[1..] == Repeat(c, n - 1);
    }
  }

  /** Net balance of `no1` over `no2` in `s`. */
  function Net(s: String, no1: char, no2: char): int
  {
    Count(s, no1) - Count(s, no2)
  }

  /** `processBalanced(s, no1, no2)`. */
  function ProcessBalanced(s: String, no1: char, no2: char): String
  {
    var total := Net(s, no1, no2);
    Repeat(if total > 0 then no1 else no2, Abs(total))
  }

  /**
   * The result is |count(no1) - count(no2)| characters long and uniform:
   * all `no1` on a positive net, all `no2` on a negative one, empty when the
   * counts balance.
   */
  lemma ProcessBalancedShape(s: String, no1: char, no2: char)
    ensures |ProcessBalanced(s, no1, no2)| == Abs(Count(s, no1) - Count(s, no2))
    ensures Net(s, no1, no2) > 0 ==> forall k :: 0 <= k < |ProcessBalanced(s, no1, no2)| ==> ProcessBalanced(s, no1, no2)[k] == no1
    ensures Net(s, no1, no2) < 0 ==> forall k :: 0 <= k < |ProcessBalanced(s, no1, no2)| ==> ProcessBalanced(s, no1, no2)[k] == no2
    ensures Net(s, no1, no2) == 0 <==> ProcessBalanced(s, no1, no2) == []
  {
    var total := Net(s, no1, no2);
    var c := if total > 0 then no1 else no2;
    CountRepeat(c, Abs(total), c);
    RepeatUniform(c, Abs(total));
  }

  /** Cancellation keeps the net balance of the two characters. */
  lemma ProcessBalancedNet(s: String, no1: char, no2: char)
    ensures Net(ProcessBalanced(s, no1, no2), no1, no2) == Net(s, no1, no2)
  {
    var total := Net(s, no1, no2);
    var c := if total > 0 then no1 else no2;
    CountRepeat(c, Abs(total), no1);
    CountRepeat(c, Abs(total), no2);
  }

  /** Applying the cancellation twice gives the same text as once. */
  lemma ProcessBalancedIdempotent(s: String, no1: char, no2: char)
    ensures ProcessBalanced(ProcessBalanced(s, no1, no2), no1, no2) == ProcessBalanced(s, no1, no2)
  {
    ProcessBalancedNet(s, no1, no2);
  }

  lemma {:induction false} CountPair(t: String, a: char, b: char)
    requires a != b
    ensures Count(t, a) + Count(t, b) <= |t|
  {
    if t != [] {
      CountPair(t[1..], a, b);
    }
  }

  /**
   * The result is the shortest text with the same net balance: no text at
   * all, uniform or not, reaches that balance with fewer characters. In
   * particular the result is never longer than the input.
   */
  lemma ProcessBalancedShortest(s: String, no1: char, no2: char, t: String)
    requires Net(t, no1, no2) == Net(s, no1, no2)
    ensures |ProcessBalanced(s, no1, no2)| <= |t|
    ensures |ProcessBalanced(s, no1, no2)| <= |s|
  {
    ProcessBalancedShape(s, no1, no2);
    if no1 != no2 {
      CountPair(t, no1, no2);
      CountPair(s, no1, no2);
    }
  }

  /**
   * True cancellation against the parity rule of the rule-mining normaliser:
   * `processBalanced` removes "+-" entirely, `normalize` keeps the leading `+`.
   */
  lemma CancelUnlikeNormalize()
    ensures ProcessBalanced("+-", '+', '-') == []
    ensures ProcessBalanced("><", '>', '<') == []
    ensures Normalizer.Normalize("+-") == "+"
    ensures Normalizer.Normalize("><") == ">"
  {
    assert Count("+-", '+') == 1 && Count("+-", '-') == 1 by {
      assert "+-"[1..] == "-";
    }
    assert Count("><", '>') == 1 && Count("><", '<') == 1 by {
      assert "><"[1..] == "<";
    }
    Normalizer.ParityOfMixedRuns();
  }

  // ---------------------------------------------------------------------
  // regexReplaceInplace

  /** One regular-expression match `str[start..end]`. */
  datatype Span = Span(start: nat, end: nat)

  /** Matches are ordered, non-overlapping, start at or after `from`, and lie inside `n` characters. */
  predicate Spans(spans: seq<Span>, from: nat, n: nat)
  {
    if spans == [] then from <= n
    else from <= spans[0].start <= spans[0].end && Spans(spans[1..], spans[0].end, n)
  }

  lemma {:induction false} SpansBound(spans: seq<Span>, from: nat, n: nat)
    requires Spans(spans, from, n)
    ensures from <= n
  {
    if spans != [] {
      SpansBound(spans[1..], spans[0].end, n);
    }
  }

  /**
   * The text after position `from` with every match replaced by the
   * callback's output for it: the unmatched gaps interleaved with the
   * outputs, then the tail after the last match.
   */
  function Splice(str: String, from: nat, spans: seq<Span>, outs: seq<String>): String
    requires Spans(spans, from, |str|) && |outs| == |spans|
    decreases |spans|
  {
    SpansBound(spans, from, |str|);
    if spans == [] then str[from..]
    else
      SpansBound(spans[1..], spans[0].end, |str|);
      str[from..spans[0].start] + outs[0] + Splice(str, spans[0].end, spans[1..], outs[1..])
  }

  /** Total length of the matched text. */
  function Matched(spans: seq<Span>): int
  {
    if spans == [] then 0 else spans[0].end - spans[0].start + Matched(spans[1..])
  }

  /** Total length of the callback outputs. */
  function Inserted(outs: seq<String>): nat
  {
    if outs == [] then 0 else |outs[0]| + Inserted(outs[1..])
  }

  /** The spliced text loses the matched characters and gains the outputs. */
  lemma {:induction false} SpliceLength(str: String, from: nat, spans: seq<Span>, outs: seq<String>)
    requires Spans(spans, from, |str|) && |outs| == |spans|
    ensures |Splice(str, from, spans, outs)| == |str| - from - Matched(spans) + Inserted(outs)
    decreases |spans|
  {
    if spans != [] {
      SpansBound(spans[1..], spans[0].end, |str|);
      SpliceLength(str, spans[0].end, spans[1..], outs[1..]);
    }
  }

  /** A callback that returns each match's own text leaves the string as it was. */
  lemma {:induction false} SpliceIdentity(str: String, from: nat, spans: seq<Span>, outs: seq<String>)
    requires Spans(spans, from, |str|) && |outs| == |spans|
    requires forall k :: 0 <= k < |spans| ==> spans[k].start <= spans[k].end <= |str| && outs[k] == str[spans[k].start..spans[k].end]
    ensures Splice(str, from, spans, outs) == str[from..]
    decreases |spans|
  {
    if spans != [] {
      SpansBound(spans[1..], spans[0].end, |str|);
      forall k | 0 <= k < |spans[1..]|
        ensures spans[1..][k].start <= spans[1..][k].end <= |str| && outs[1..][k] == str[spans[1..][k].start..spans[1..][k].end]
      {
        assert spans[1..][k] == spans[k + 1];
      }
      SpliceIdentity(str, spans[0].end, spans[1..], outs[1..]);
      assert str[from..] == str[from..spans[0].start] + str[spans[0].start..spans[0].end] + str[spans[0].end..];
    }
  }

  /** Unfolding `Splice` by one match, for the loop below. */
  lemma SpliceStep(str: String, last: nat, spans: seq<Span>, outs: seq<String>, k: nat)
    requires k < |spans| == |outs|
    requires Spans(spans[k..], last, |str|)
    ensures spans[k].end <= |str| && last <= spans[k].start <= spans[k].end
    ensures Spans(spans[k + 1..], spans[k].end, |str|)
    ensures Splice(str, last, spans[k..], outs[k..])
         == str[last..spans[k].start] + outs[k] + Splice(str, spans[k].end, spans[k + 1..], outs[k + 1..])
  {
    assert spans[k..][0] == spans[k] && spans[k..][1..] == spans[k + 1..];
    assert outs[k..][0] == outs[k] && outs[k..][1..] == outs[k + 1..];
    SpansBound(spans[k + 1..], spans[k].end, |str|);
  }

  /**
   * `regexReplaceInplace(str, re, cb)`, given the matches of `re` in `str`
   * and the callback's output for each: returns early with `str` unchanged
   * when there is no match, otherwise appends each gap and output in turn,
   * then the tail after the last match.
   */
  method ReplaceInPlace(str: String, spans: seq<Span>, outs: seq<String>) returns (r: String)
    requires Spans(spans, 0, |str|) && |outs| == |spans|
    ensures r == Splice(str, 0, spans, outs)
    ensures spans == [] ==> r == str
  {
    if spans == [] {
      return str;
    }
    var result: String := [];
    var last: nat := 0;
    var k := 0;
    while k < |spans|
      invariant 0 <= k <= |spans|
      invariant last <= |str| && Spans(spans[k..], last, |str|)
      invariant result + Splice(str, last, spans[k..], outs[k..]) == Splice(str, 0, spans, outs)
    {
      SpliceStep(str, last, spans, outs, k);
      result := result + str[last..spans[k].start];
      result := result + outs[k];
      last := spans[k].end;
      k := k + 1;
    }
    assert spans[k..] == [];
    r := result + str[last..];
  }

  // ---------------------------------------------------------------------
  // CountingResource

  /** `std::size_t`: arithmetic on it wraps around modulo 2^64. */
  newtype u64 = x: int | 0 <= x < 0x1_0000_0000_0000_0000

  /** An allocator that counts the bytes requested from it. */
  class CountingResource {
    var bytes: u64

    constructor()
      ensures bytes == 0
    {
      bytes := 0;
    }

    /** `do_allocate(s, align)`: adds `s` to the counter (modulo 2^64). */
    method Allocate(s: u64)
      modifies this
      ensures bytes as int == (old(bytes) as int + s as int) % 0x1_0000_0000_0000_0000
      ensures old(bytes) as int + s as int < 0x1_0000_0000_0000_0000 ==> bytes >= old(bytes)
    {
      bytes := ((bytes as int + s as int) % 0x1_0000_0000_0000_0000) as u64;
    }

    /** `do_deallocate(p, s, align)`: the counter is left alone. */
    method Deallocate(s: u64)
      ensures bytes == old(bytes)
    {
    }
  }
}
