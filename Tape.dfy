/**
 * Growth of the VM's tape. With a dynamic tape, the interpreter picks a
 * memory model from the tape's initial size; `ensure` then grows the cell
 * vector on demand: by whole 64 KiB pages, along a Fibonacci sequence of
 * sizes, or by doubling, never past the optional limit `maxTs`. The older
 * interpreter doubles the tape at most once per instruction.
 */
module Tape {

  datatype MemoryModel = Contiguous | Paged | Fibonacci

  /** Growth unit of the paged model (`PAGE_SIZE`). */
  const PageSize: nat := 0x1_0000

  /**
   * The model chosen in `execute`: with a dynamic tape, more than 2^24
   * cells select paged growth, more than 2^16 Fibonacci growth, anything
   * else doubling; a fixed tape is always contiguous.
   */
  function SelectModel(size: nat, dynamicSize: bool): MemoryModel
  {
    if dynamicSize && size > 0x100_0000 then Paged
    else if dynamicSize && size > 0x1_0000 then Fibonacci
    else Contiguous
  }

  /** Order of the models by the tape sizes that select them. */
  function Rank(m: MemoryModel): nat
  {
    match m
    case Contiguous => 0
    case Fibonacci => 1
    case Paged => 2
  }

  /**
   * The thresholds partition the sizes: a larger dynamic tape never selects
   * a model meant for smaller tapes, and the two growth models that do not
   * double are only chosen for tapes far from empty.
   */
  lemma SelectModelMonotone(a: nat, b: nat)
    requires a <= b
    ensures Rank(SelectModel(a, true)) <= Rank(SelectModel(b, true))
    ensures SelectModel(a, true) == Paged <==> a > 0x100_0000
    ensures SelectModel(a, true) == Fibonacci <==> 0x1_0000 < a <= 0x100_0000
    ensures SelectModel(a, true) != Contiguous ==> a > PageSize
    ensures SelectModel(a, false) == Contiguous
  {
  }

  function Zeros(n: nat): (r: seq<int>)
    ensures |r| == n && forall k :: 0 <= k < n ==> r[k] == 0
  {
    seq(n, _ => 0)
  }

  /** `resize` to a larger size: the old cells stay, the new ones are zero. */
  ghost predicate Extends(before: seq<int>, after: seq<int>)
  {
    |before| <= |after| && after[..|before|] == before
    && forall k :: |before| <= k < |after| ==> after[k] == 0
  }

  lemma ExtendsTrans(a: seq<int>, b: seq<int>, c: seq<int>)
    requires Extends(a, b) && Extends(b, c)
    ensures Extends(a, c)
  {
    assert c[..|a|] == c[..|b|][..|a|];
  }

  function Pow2(k: nat): (r: nat)
    ensures r >= 1
  {
    if k == 0 then 1 else 2 * Pow2(k - 1)
  }

  /**
   * The Fibonacci terms `ensure` ends with: from the pair `(a, b)`, step to
   * `(b, a + b)` until the larger term covers `needed`. The last pair is the
   * first one whose larger term is at least `needed`.
   */
  function FibSteps(a: nat, b: nat, needed: nat): (r: (nat, nat))
    requires 0 < a <= b
    ensures 0 < r.0 <= r.1 && needed <= r.1
    ensures b < needed ==> b <= r.0 < needed
    ensures b >= needed ==> r == (a, b)
    decreases needed - b
  {
    if b >= needed then (a, b) else FibSteps(b, a + b, needed)
  }

  /** Smallest multiple of the page size that holds `needed` cells. */
  function PagedSize(needed: nat): (r: nat)
    ensures r % PageSize == 0 && needed <= r < needed + PageSize
  {
    ((needed + PageSize - 1) / PageSize) * PageSize
  }

  /**
   * What a call of `ensure` comes to: it refuses (returns false), it returns
   * with the index inside the tape, or its growth loop never ends. The last
   * happens on an empty tape under doubling, since doubling zero cells gives
   * zero cells; the model stops there with the tape unchanged.
   */
  datatype Outcome = Refused | Inside | Diverges

  /** The cell vector of a dynamic tape and the state of its growth policy. */
  class Tape {
    var cells: seq<int>
    var fibA: nat
    var fibB: nat
    const model: MemoryModel
    const maxTs: nat

    /** Under Fibonacci growth, `fibB` is the tape's size and `fibA` the size before. */
    ghost predicate Valid()
      reads this
    {
      model == Fibonacci ==> fibB == |cells| && 0 < fibA <= fibB
    }

    /**
     * The state at the start of `executeImpl`, with the model `execute`
     * selects from the initial size: both Fibonacci terms are that size.
     */
    constructor(initial: seq<int>, dynamicSize: bool, limit: nat)
      ensures Valid() && cells == initial && fibA == |initial| && fibB == |initial|
      ensures model == SelectModel(|initial|, dynamicSize) && maxTs == limit
    {
      cells := initial;
      fibA := |initial|;
      fibB := |initial|;
      model := SelectModel(|initial|, dynamicSize);
      maxTs := limit;
    }

    /**
     * `ensure(currentCell, neededIndex)`: refuses exactly when a nonzero
     * limit is below `neededIndex + 1`; otherwise grows the tape, following
     * its model, until the index is inside, except that doubling an empty
     * tape never ends.
     */
    method Ensure(neededIndex: nat) returns (r: Outcome)
      requires Valid()
      modifies this
      ensures Valid()
      ensures r == Refused <==> maxTs != 0 && neededIndex + 1 > maxTs
      ensures r == Diverges <==> r != Refused && model == Contiguous && old(|cells|) == 0
      ensures r == Inside ==> neededIndex < |cells|
      ensures r != Inside ==> cells == old(cells)
      ensures Extends(old(cells), cells)
      ensures model == Paged && |cells| != old(|cells|) ==>
        |cells| == PagedSize(neededIndex + 1) && |cells| % PageSize == 0
      ensures model == Contiguous ==>
        (exists k: nat :: |cells| == old(|cells|) * Pow2(k))
        && (|cells| != old(|cells|) ==> |cells| < 2 * (neededIndex + 1))
      ensures model == Fibonacci && |cells| != old(|cells|) ==>
        old(|cells|) <= fibA < neededIndex + 1
      ensures model == Fibonacci && r == Inside ==>
        (fibA, fibB) == FibSteps(old(fibA), old(fibB), neededIndex + 1) && |cells| == fibB
      ensures model != Fibonacci || r != Inside ==> fibA == old(fibA) && fibB == old(fibB)
    {
      var needed := neededIndex + 1;
      if maxTs != 0 && needed > maxTs {
        assert cells[..|cells|] == cells && |cells| == |cells| * Pow2(0);
        return Refused;
      }
      r := Inside;
      match model {
        case Paged =>
          var newSize := PagedSize(needed);
          if newSize > |cells| {
            cells := cells + Zeros(newSize - |cells|);
          }
        case Fibonacci =>
          GrowFibonacci(needed);
        case Contiguous =>
          var stuck := GrowDoubling(needed);
          if stuck {
            r := Diverges;
          }
      }
    }

    /** The Fibonacci branch of `ensure`. */
    method GrowFibonacci(needed: nat)
      requires Valid() && model == Fibonacci
      modifies this
      ensures Valid() && needed <= |cells| && Extends(old(cells), cells)
      ensures |cells| != old(|cells|) ==> old(|cells|) <= fibA < needed
      ensures (fibA, fibB) == FibSteps(old(fibA), old(fibB), needed) && |cells| == fibB
    {
      ghost var start := cells;
      while |cells| < needed
        invariant Valid() && Extends(start, cells)
        invariant |cells| != |start| ==> |start| <= fibA < needed
        invariant FibSteps(fibA, fibB, needed) == FibSteps(old(fibA), old(fibB), needed)
        decreases needed - |cells|
      {
        var next := fibA + fibB;
        fibA := fibB;
        fibB := next;
        ghost var before := cells;
        cells := cells + Zeros(next - |cells|);
        ExtendsTrans(start, before, cells);
      }
    }

    /**
     * The doubling branch of `ensure`. On an empty tape with a positive need
     * the source loop never ends; the model reports that as `stuck` and
     * leaves the tape as it is.
     */
    method GrowDoubling(needed: nat) returns (stuck: bool)
      requires Valid() && model != Fibonacci
      modifies this
      ensures Valid() && Extends(old(cells), cells)
      ensures stuck <==> old(|cells|) == 0 && needed > 0
      ensures stuck ==> cells == old(cells)
      ensures !stuck ==> needed <= |cells|
      ensures fibA == old(fibA) && fibB == old(fibB)
      ensures exists k: nat :: |cells| == old(|cells|) * Pow2(k)
      ensures |cells| != old(|cells|) ==> |cells| < 2 * needed
    {
      if |cells| == 0 && needed > 0 {
        assert cells[..0] == cells && |cells| == |cells| * Pow2(0);
        return true;
      }
      ghost var start := cells;
      ghost var k: nat := 0;
      while |cells| < needed
        invariant (|cells| > 0 || needed == 0) && Extends(start, cells) && fibA == old(fibA) && fibB == old(fibB)
        invariant |cells| == |start| * Pow2(k)
        invariant |cells| != |start| ==> |cells| < 2 * needed
        decreases needed - |cells|
      {
        ghost var before := cells;
        cells := cells + Zeros(|cells|);
        ExtendsTrans(start, before, cells);
        k := k + 1;
      }
      assert |cells| == old(|cells|) * Pow2(k);
      return false;
    }
  }

  /** The tape of the older interpreter, which only ever doubles. */
  class DoublingTape {
    var cells: seq<int>

    constructor(initial: seq<int>)
      ensures cells == initial
    {
      cells := initial;
    }

    /**
     * `EXPAND_IF_NEEDED` (with `delta` the instruction's offset) and the
     * growth in `PTR_MOV` (with `delta` its distance): a positive move to an
     * index at or past the end doubles the tape once. An index below twice
     * the old size is then inside; one at twice the old size or beyond is
     * still outside.
     */
    method DoubleIfNeeded(currentCell: nat, delta: int)
      modifies this
      ensures Extends(old(cells), cells)
      ensures |cells| == old(|cells|) || |cells| == 2 * old(|cells|)
      ensures delta > 0 && currentCell + delta < 2 * old(|cells|) ==> currentCell + delta < |cells|
      ensures delta > 0 && currentCell + delta >= 2 * old(|cells|) ==> currentCell + delta >= |cells|
      ensures delta <= 0 ==> cells == old(cells)
    {
      if delta > 0 && currentCell + delta >= |cells| {
        cells := cells + Zeros(|cells|);
      }
    }
  }
}
