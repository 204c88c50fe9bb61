/**
 * The translation loop of the older interpreter (`execute` in main.cxx).
 * Unlike the current one it merges nothing: every run of `+` or `-`
 * becomes one `AddSub` (or `Set`) carrying plus or minus the run's length,
 * and the two jumps of a bracket pair hold each other's absolute index
 * instead of the distance between them.
 */
module LegacyFrontEnd {
  import opened Text
  import Shared
  import opened FrontEnd

  // ---------------------------------------------------------------------
  // What the instructions say about the code

  /**
   * Every closed bracket pair names its partner's index, and the jumps
   * strictly between the two are balanced, so the partner is the matching one.
   */
  ghost predicate Linked(ins: seq<Instruction>, ops: seq<Op>, open: seq<nat>)
    requires |ins| == |ops|
  {
    (forall s {:trigger JumpZeroAt(ops, s)} :: JumpZeroAt(ops, s) && s !in open ==>
       s < ins[s].data < |ins| && ops[ins[s].data] == JmpNotZer && ins[ins[s].data].data == s
       && Level(ops, s + 1, ins[s].data) == Some(0))
    && (forall c {:trigger JumpBackAt(ops, c)} :: JumpBackAt(ops, c) ==>
       0 <= ins[c].data < c && ops[ins[c].data] == JmpZer && ins[ins[c].data].data == c)
  }

  /** Sum of the `AddSub` and `Set` operands. */
  function WriteTotal(ins: seq<Instruction>, ops: seq<Op>): int
    requires |ins| == |ops|
  {
    OperandSum(ins, ops, AddSub) + OperandSum(ins, ops, Set)
  }

  /** Number of `AddSub` and `Set` instructions. */
  function WriteCount(ops: seq<Op>): nat
  {
    OpCount(ops, AddSub) + OpCount(ops, Set)
  }

  /** Number of maximal runs of `c` in `s`. */
  function Runs(s: String, c: char): nat
  {
    if s == [] then 0
    else Runs(s[..|s| - 1], c) + (if s[|s| - 1] == c && (|s| == 1 || s[|s| - 2] != c) then 1 else 0)
  }

  /** Appending one instruction moves each tally by its own contribution. */
  lemma {:induction false} TotalsSnoc(ins: seq<Instruction>, ops: seq<Op>, x: Instruction, o: Op)
    requires |ins| == |ops|
    ensures WriteTotal(ins + [x], ops + [o]) == WriteTotal(ins, ops) + (if o == AddSub || o == Set then x.data else 0)
    ensures WriteCount(ops + [o]) == WriteCount(ops) + (if o == AddSub || o == Set then 1 else 0)
    ensures MoveTotal(ins + [x], ops + [o]) == MoveTotal(ins, ops) + (if o == PtrMov then x.data else 0)
    ensures OperandSum(ins + [x], ops + [o], PutChr) == OperandSum(ins, ops, PutChr) + (if o == PutChr then x.data else 0)
    ensures OpCount(ops + [o], RadChr) == OpCount(ops, RadChr) + (if o == RadChr then 1 else 0)
  {
    TallySnoc(ins, ops, x, o, AddSub);
    TallySnoc(ins, ops, x, o, Set);
    TallySnoc(ins, ops, x, o, PutChr);
    TallySnoc(ins, ops, x, o, RadChr);
    MoveTotalSnoc(ins, ops, x, o);
  }

  /** The brace stack, the jump links, the nesting of the open brackets and the pointer moves. */
  ghost predicate Shaped(ins: seq<Instruction>, ops: seq<Op>, open: seq<nat>)
  {
    |ins| == |ops| && OpenJumps(ins, ops, open) && Linked(ins, ops, open) && MovesNonzero(ins, ops)
    && Nested(ops, open)
  }

  /** The structure after consuming `code[..i]`: shape, the brackets as jumps, bracket depth and pending pointer moves. */
  ghost predicate Tracked(ins: seq<Instruction>, ops: seq<Op>, open: seq<nat>, offset: int, code: String, i: nat)
  {
    Shaped(ins, ops, open) && i <= |code|
    && Depths(code[..i]) == Some(|open|)
    && Kinds(ops) == Brackets(code[..i])
    && -0x8000 <= offset < 0x8000
    && (MoveTotal(ins, ops) + offset - Shared.Net(code[..i], '>', '<')) % 0x1_0000 == 0
  }

  /**
   * The writes after consuming `code[..i]`: their operands, their number,
   * and the fact that no run of `+` or `-` was cut short.
   */
  ghost predicate Counted(ins: seq<Instruction>, ops: seq<Op>, code: String, i: nat)
  {
    |ins| == |ops| && i <= |code|
    && WriteTotal(ins, ops) == Shared.Net(code[..i], '+', '-')
    && WriteCount(ops) == Runs(code[..i], '+') + Runs(code[..i], '-')
    && (0 < i < |code| && (code[i] == '+' || code[i] == '-') ==> code[i - 1] != code[i])
  }

  /** What the loop keeps after consuming `code[..i]`. */
  ghost predicate LoopInv(ins: seq<Instruction>, ops: seq<Op>, open: seq<nat>, offset: int, code: String, i: nat)
  {
    Tracked(ins, ops, open, offset, code, i) && Counted(ins, ops, code, i) && Io(ins, ops, code, i)
  }

  /**
   * A complete translation: parallel vectors ending in `End`; the jumps, in
   * order, are the brackets of `code`, and each names its matching partner;
   * every pointer move is nonzero and the moves add up (modulo 2^16) to the
   * surplus of `>` over `<`; the `AddSub`/`Set` operands add up to the
   * surplus of `+` over `-`, with one such instruction per run of `+` or
   * `-`; the `PutChr` counts add up to the `.` of `code`, with one `RadChr`
   * per `,`.
   */
  ghost predicate Complete(ins: seq<Instruction>, ops: seq<Op>, code: String)
  {
    |ins| == |ops| && ops != [] && ops[|ops| - 1] == End
    && Kinds(ops) == Brackets(code)
    && Linked(ins, ops, []) && MovesNonzero(ins, ops)
    && (MoveTotal(ins, ops) - Shared.Net(code, '>', '<')) % 0x1_0000 == 0
    && WriteTotal(ins, ops) == Shared.Net(code, '+', '-')
    && WriteCount(ops) == Runs(code, '+') + Runs(code, '-')
    && OperandSum(ins, ops, PutChr) == Count(code, '.')
    && OpCount(ops, RadChr) == Count(code, ',')
  }

  /**
   * In a complete translation the partner of every `JmpZer` is its matching
   * `JmpNotZer`: the only one after it with balanced jumps in between.
   */
  lemma {:induction false} LinkedMatches(ins: seq<Instruction>, ops: seq<Op>, s: nat, c: nat)
    requires |ins| == |ops| && Linked(ins, ops, []) && JumpZeroAt(ops, s)
    requires s < c < |ops| && ops[c] == JmpNotZer
    ensures Level(ops, s + 1, c) == Some(0) <==> c == ins[s].data
  {
    var t := ins[s].data;
    assert s < t < |ops| && ops[t] == JmpNotZer && Level(ops, s + 1, t) == Some(0);
    if c < t {
      if Level(ops, s + 1, c) == Some(0) {
        MatchUnique(ops, s, c, t);
      }
    } else if t < c {
      MatchUnique(ops, s, t, c);
    }
  }

  // ---------------------------------------------------------------------
  // Keeping the shape

  /** The links survive an append that is not a `JmpNotZer`, provided a new `JmpZer` is counted as open. */
  lemma {:induction false} LinkedAppend(ins: seq<Instruction>, ops: seq<Op>, open: seq<nat>, x: Instruction, o: Op, open2: seq<nat>)
    requires |ins| == |ops| && Linked(ins, ops, open) && o != JmpNotZer
    requires o == JmpZer ==> |ins| in open2
    requires forall s :: s in open ==> s in open2
    ensures Linked(ins + [x], ops + [o], open2)
  {
    var ins2, ops2 := ins + [x], ops + [o];
    forall s | JumpZeroAt(ops2, s) && s !in open2
      ensures s < ins2[s].data < |ins2| && ops2[ins2[s].data] == JmpNotZer && ins2[ins2[s].data].data == s
              && Level(ops2, s + 1, ins2[s].data) == Some(0)
    {
      assert s < |ins|;
      assert ops2[s] == ops[s] && ins2[s] == ins[s];
      assert JumpZeroAt(ops, s) && s !in open;
      var t := ins[s].data;
      assert ops2[t] == ops[t] && ins2[t] == ins[t];
      LevelSame(ops, ops2, s + 1, t);
    }
    forall c | JumpBackAt(ops2, c)
      ensures 0 <= ins2[c].data < c && ops2[ins2[c].data] == JmpZer && ins2[ins2[c].data].data == c
    {
      assert c < |ins|;
      assert ops2[c] == ops[c] && ins2[c] == ins[c];
      assert JumpBackAt(ops, c);
      var t := ins[c].data;
      assert ops2[t] == ops[t] && ins2[t] == ins[t];
    }
  }

  /** Appending anything but a jump (a pointer move only when nonzero). */
  lemma {:induction false} AppendKept(ins: seq<Instruction>, ops: seq<Op>, open: seq<nat>, x: Instruction, o: Op)
    requires Shaped(ins, ops, open) && o != JmpZer && o != JmpNotZer && (o == PtrMov ==> x.data != 0)
    ensures Shaped(ins + [x], ops + [o], open)
    ensures Kinds(ops + [o]) == Kinds(ops)
  {
    LinkedAppend(ins, ops, open, x, o, open);
    AppendOpenJumps(ins, ops, open, x, o);
    AppendMoves(ins, ops, x, o);
    AppendSameJumps(ops, o);
    NestedSame(ops, ops + [o], open);
    SameJumpsKinds(ops, ops + [o], 0);
  }

  /** Appending the `JmpZer` of a new `[` and pushing its index. */
  lemma {:induction false} AppendOpen(ins: seq<Instruction>, ops: seq<Op>, open: seq<nat>)
    requires Shaped(ins, ops, open)
    ensures Shaped(ins + [Instruction(0, 0)], ops + [JmpZer], open + [|ins|])
    ensures Kinds(ops + [JmpZer]) == Kinds(ops) + "["
  {
    LinkedAppend(ins, ops, open, Instruction(0, 0), JmpZer, open + [|ins|]);
    PushOpenJumps(ins, ops, open);
    AppendMoves(ins, ops, Instruction(0, 0), JmpZer);
    NestedPush(ops, open);
    KindsInSame(ops, ops + [JmpZer], 0, |ops|);
  }

  /** The vectors after `]` closes the `[` at `start`: each jump gets the other's index. */
  ghost predicate Closed(ins: seq<Instruction>, ops: seq<Op>, start: nat, ins2: seq<Instruction>, ops2: seq<Op>)
    requires start < |ins|
  {
    ins2 == ins[start := ins[start].(data := |ins|)] + [Instruction(start, 0)]
    && ops2 == ops + [JmpNotZer]
  }

  lemma {:induction false} CloseKept(ins: seq<Instruction>, ops: seq<Op>, open: seq<nat>, ins2: seq<Instruction>, ops2: seq<Op>)
    requires Shaped(ins, ops, open) && open != []
    requires Closed(ins, ops, open[|open| - 1], ins2, ops2)
    ensures Shaped(ins2, ops2, open[..|open| - 1])
    ensures Kinds(ops2) == Kinds(ops) + "]"
    ensures MoveTotal(ins2, ops2) == MoveTotal(ins, ops)
    ensures WriteTotal(ins2, ops2) == WriteTotal(ins, ops) && WriteCount(ops2) == WriteCount(ops)
    ensures OperandSum(ins2, ops2, PutChr) == OperandSum(ins, ops, PutChr) && OpCount(ops2, RadChr) == OpCount(ops, RadChr)
  {
    assert ops[open[|open| - 1]] == JmpZer;
    NestedPop(ops, open);
    KindsInSame(ops, ops2, 0, |ops|);
    CloseOpenJumps(ins, ops, open, ins2, ops2);
    assert SegmentBalanced(ops, open, |open| - 1);
    assert SegmentEnd(open, |open| - 1, |ops|) == |ops|;
    CloseForward(ins, ops, open, ins2, ops2);
    CloseBackward(ins, ops, open, ins2, ops2);
    CloseTotals(ins, ops, open, ins2, ops2);
  }

  lemma {:induction false} CloseOpenJumps(ins: seq<Instruction>, ops: seq<Op>, open: seq<nat>, ins2: seq<Instruction>, ops2: seq<Op>)
    requires Shaped(ins, ops, open) && open != []
    requires Closed(ins, ops, open[|open| - 1], ins2, ops2)
    ensures |ins2| == |ops2| && OpenJumps(ins2, ops2, open[..|open| - 1])
  {
    var start := open[|open| - 1];
    var open2 := open[..|open| - 1];
    forall j | 0 <= j < |open2|
      ensures open2[j] < |ins2| && ops2[open2[j]] == JmpZer && ins2[open2[j]].data == 0
    {
      assert open2[j] == open[j] && open[j] < start;
      assert ops2[open[j]] == ops[open[j]] && ins2[open[j]] == ins[open[j]];
    }
  }

  lemma {:induction false} CloseForward(ins: seq<Instruction>, ops: seq<Op>, open: seq<nat>, ins2: seq<Instruction>, ops2: seq<Op>)
    requires |ins| == |ops| && OpenJumps(ins, ops, open) && Linked(ins, ops, open) && open != []
    requires open[|open| - 1] < |ops| && Level(ops, open[|open| - 1] + 1, |ops|) == Some(0)
    requires Closed(ins, ops, open[|open| - 1], ins2, ops2)
    ensures |ins2| == |ops2|
    ensures forall s {:trigger JumpZeroAt(ops2, s)} :: JumpZeroAt(ops2, s) && s !in open[..|open| - 1] ==>
       s < ins2[s].data < |ins2| && ops2[ins2[s].data] == JmpNotZer && ins2[ins2[s].data].data == s
       && Level(ops2, s + 1, ins2[s].data) == Some(0)
  {
    var start := open[|open| - 1];
    var open2 := open[..|open| - 1];
    var n := |ins|;
    assert open == open2 + [start];
    assert ops[start] == JmpZer;
    forall s | JumpZeroAt(ops2, s) && s !in open2
      ensures s < ins2[s].data < |ins2| && ops2[ins2[s].data] == JmpNotZer && ins2[ins2[s].data].data == s
              && Level(ops2, s + 1, ins2[s].data) == Some(0)
    {
      assert s < n;
      if s == start {
        assert ins2[s].data == n && ops2[n] == JmpNotZer && ins2[n].data == start;
        LevelSame(ops, ops2, start + 1, n);
      } else {
        assert ops2[s] == ops[s] && ins2[s] == ins[s];
        assert JumpZeroAt(ops, s) && s !in open;
        LinkOther(ins, ops, start, ins2, ops2, s);
      }
    }
  }

  /** A linked pair other than the one being closed keeps its links and its balance. */
  lemma {:induction false} LinkOther(ins: seq<Instruction>, ops: seq<Op>, start: nat, ins2: seq<Instruction>, ops2: seq<Op>, s: nat)
    requires |ins| == |ops| && start < |ins| && ops[start] == JmpZer && Closed(ins, ops, start, ins2, ops2)
    requires s < |ins| && s != start && ops[s] == JmpZer
    requires s < ins[s].data < |ins| && ops[ins[s].data] == JmpNotZer && ins[ins[s].data].data == s
       && Level(ops, s + 1, ins[s].data) == Some(0)
    ensures s < ins2[s].data < |ins2| && ops2[ins2[s].data] == JmpNotZer && ins2[ins2[s].data].data == s
       && Level(ops2, s + 1, ins2[s].data) == Some(0)
  {
    var t := ins[s].data;
    assert ins2[s] == ins[s] && ops2[t] == ops[t] && ins2[t] == ins[t];
    LevelSame(ops, ops2, s + 1, t);
  }

  lemma {:induction false} CloseBackward(ins: seq<Instruction>, ops: seq<Op>, open: seq<nat>, ins2: seq<Instruction>, ops2: seq<Op>)
    requires Shaped(ins, ops, open) && open != []
    requires Closed(ins, ops, open[|open| - 1], ins2, ops2)
    ensures |ins2| == |ops2|
    ensures forall c {:trigger JumpBackAt(ops2, c)} :: JumpBackAt(ops2, c) ==>
       0 <= ins2[c].data < c && ops2[ins2[c].data] == JmpZer && ins2[ins2[c].data].data == c
  {
    var start := open[|open| - 1];
    var n := |ins|;
    assert start < n && ins[start].data == 0 && ops[start] == JmpZer;
    forall c | JumpBackAt(ops2, c)
      ensures 0 <= ins2[c].data < c && ops2[ins2[c].data] == JmpZer && ins2[ins2[c].data].data == c
    {
      if c < n {
        assert c != start;
        assert ops2[c] == ops[c] && ins2[c] == ins[c];
        assert JumpBackAt(ops, c);
        var t := ins[c].data;
        assert ins[t].data == c && t != start;
        assert ops2[t] == ops[t] && ins2[t] == ins[t];
      } else {
        assert c == n && ins2[n].data == start && ins2[start].data == n && ops2[start] == JmpZer;
      }
    }
  }

  lemma {:induction false} CloseTotals(ins: seq<Instruction>, ops: seq<Op>, open: seq<nat>, ins2: seq<Instruction>, ops2: seq<Op>)
    requires Shaped(ins, ops, open) && open != []
    requires Closed(ins, ops, open[|open| - 1], ins2, ops2)
    ensures |ins2| == |ops2| && MovesNonzero(ins2, ops2)
    ensures MoveTotal(ins2, ops2) == MoveTotal(ins, ops)
    ensures WriteTotal(ins2, ops2) == WriteTotal(ins, ops) && WriteCount(ops2) == WriteCount(ops)
    ensures OperandSum(ins2, ops2, PutChr) == OperandSum(ins, ops, PutChr) && OpCount(ops2, RadChr) == OpCount(ops, RadChr)
  {
    var start := open[|open| - 1];
    var n := |ins|;
    var mid := ins[start := ins[start].(data := n)];
    assert ops[start] == JmpZer;
    assert ins2 == mid + [Instruction(start, 0)];
    forall k | 0 <= k < n && ops[k] != JmpZer
      ensures mid[k] == ins[k]
    {
      assert k != start;
    }
    TotalsSnoc(mid, ops, Instruction(start, 0), JmpNotZer);
    MoveTotalSame(ins, ops, mid);
    OperandSumSame(ins, ops, mid, AddSub);
    OperandSumSame(ins, ops, mid, Set);
    OperandSumSame(ins, ops, mid, PutChr);
    forall k | 0 <= k < |ins2| && ops2[k] == PtrMov
      ensures ins2[k].data != 0
    {
      assert k < n && k != start;
      assert ops2[k] == ops[k] && ins2[k] == ins[k];
    }
  }

  // ---------------------------------------------------------------------
  // Consuming the code

  /**
   * Consuming the run `code[i..next]` of `c`: the counts of `+` and `-`
   * and their runs grow by what the run holds.
   */
  lemma {:induction false} RunCounts(code: String, i: nat, next: nat, c: char)
    requires i < next <= |code|
    requires forall k :: i <= k < next ==> code[k] == c
    requires (c == '+' || c == '-') ==> i == 0 || code[i - 1] != c
    ensures Shared.Net(code[..next], '+', '-')
         == Shared.Net(code[..i], '+', '-') + (if c == '+' then next - i else if c == '-' then i - next else 0)
    ensures Runs(code[..next], '+') == Runs(code[..i], '+') + (if c == '+' then 1 else 0)
    ensures Runs(code[..next], '-') == Runs(code[..i], '-') + (if c == '-' then 1 else 0)
  {
    var run := code[i..next];
    assert code[..next] == code[..i] + run;
    assert forall k :: 0 <= k < |run| ==> run[k] == c;
    CountUniform(run, c, '+');
    CountUniform(run, c, '-');
    CountConcat(code[..i], run, '+');
    CountConcat(code[..i], run, '-');
    RunsGrow(code, i, next, c, '+');
    RunsGrow(code, i, next, c, '-');
  }

  lemma {:induction false} RunsGrow(code: String, i: nat, k: nat, c: char, d: char)
    requires i < k <= |code|
    requires forall t :: i <= t < k ==> code[t] == c
    requires d == c ==> i == 0 || code[i - 1] != c
    ensures Runs(code[..k], d) == Runs(code[..i], d) + (if d == c then 1 else 0)
    decreases k - i
  {
    assert code[..k][..k - 1] == code[..k - 1];
    if k - 1 > i {
      RunsGrow(code, i, k - 1, c, d);
    }
  }

  /**
   * Appending the instruction of a run of `.` (a `PutChr` of its length), or
   * of a single `,` (a `RadChr`) or `C` (a `Clr`), and consuming the run.
   */
  lemma {:induction false} PushKept(ins: seq<Instruction>, ops: seq<Op>, open: seq<nat>, offset: int, code: String, i: nat, next: nat,
                 x: Instruction, o: Op)
    requires i < next <= |code| && LoopInv(ins, ops, open, offset, code, i)
    requires forall k :: i <= k < next ==> code[k] == code[i]
    requires (code[i] == '.' && o == PutChr && x.data == next - i)
          || (code[i] == ',' && o == RadChr && next == i + 1)
          || (code[i] == 'C' && o == Clr)
    ensures LoopInv(ins + [x], ops + [o], open, offset, code, next)
  {
    RunTracked(ins, ops, open, offset, code, i, next, x, o);
    RunCounted(ins, ops, code, i, next, x, o);
  }

  /** Consuming a run of a character that emits nothing. */
  lemma {:induction false} PassKept(ins: seq<Instruction>, ops: seq<Op>, open: seq<nat>, offset: int, code: String, i: nat, next: nat, c: char)
    requires i < next <= |code| && LoopInv(ins, ops, open, offset, code, i)
    requires forall k :: i <= k < next ==> code[k] == c
    requires c != '[' && c != ']' && c != '+' && c != '-' && c != '>' && c != '<' && c != '.' && c != ','
    ensures LoopInv(ins, ops, open, offset, code, next)
  {
    TrackedRun(ins, ops, open, offset, code, i, next);
    RunPassed(ins, ops, code, i, next);
  }

  /** A maximal run of `+` or `-` pushed as one write carrying its signed length. */
  lemma {:induction false} WriteKept(ins: seq<Instruction>, ops: seq<Op>, open: seq<nat>, offset: int, code: String, i: nat, next: nat, x: Instruction, o: Op)
    requires i < next <= |code| && LoopInv(ins, ops, open, offset, code, i)
    requires code[i] == '+' || code[i] == '-'
    requires forall k :: i <= k < next ==> code[k] == code[i]
    requires next == |code| || code[next] != code[i]
    requires (o == AddSub || o == Set) && x.data == (if code[i] == '+' then next - i else i - next)
    ensures LoopInv(ins + [x], ops + [o], open, offset, code, next)
  {
    RunTracked(ins, ops, open, offset, code, i, next, x, o);
    RunCounted(ins, ops, code, i, next, x, o);
  }

  /** Appending an instruction that is neither a jump nor a pointer move, and consuming a run without brackets or moves, keeps the structure. */
  lemma {:induction false} RunTracked(ins: seq<Instruction>, ops: seq<Op>, open: seq<nat>, offset: int, code: String,
                                      i: nat, next: nat, x: Instruction, o: Op)
    requires i < next <= |code| && Tracked(ins, ops, open, offset, code, i)
    requires forall k :: i <= k < next ==> code[k] == code[i]
    requires code[i] != '[' && code[i] != ']' && code[i] != '>' && code[i] != '<'
    requires o != JmpZer && o != JmpNotZer && o != PtrMov
    ensures Tracked(ins + [x], ops + [o], open, offset, code, next)
  {
    AppendTracked(ins, ops, open, offset, code, i, x, o);
    TrackedRun(ins + [x], ops + [o], open, offset, code, i, next);
  }

  /** Appending an instruction that is neither a jump nor a pointer move keeps the structure. */
  lemma {:induction false} AppendTracked(ins: seq<Instruction>, ops: seq<Op>, open: seq<nat>, offset: int, code: String,
                                         i: nat, x: Instruction, o: Op)
    requires Tracked(ins, ops, open, offset, code, i)
    requires o != JmpZer && o != JmpNotZer && o != PtrMov
    ensures Tracked(ins + [x], ops + [o], open, offset, code, i)
  {
    AppendKept(ins, ops, open, x, o);
    MoveTotalSnoc(ins, ops, x, o);
  }

  /** Consuming a run without brackets or moves keeps the structure. */
  lemma {:induction false} TrackedRun(ins: seq<Instruction>, ops: seq<Op>, open: seq<nat>, offset: int, code: String,
                                      i: nat, next: nat)
    requires i < next <= |code| && Tracked(ins, ops, open, offset, code, i)
    requires forall k :: i <= k < next ==> code[k] == code[i]
    requires code[i] != '[' && code[i] != ']' && code[i] != '>' && code[i] != '<'
    ensures Tracked(ins, ops, open, offset, code, next)
  {
    RunAdvance(code, i, next, code[i]);
  }

  /**
   * Appending an instruction whose contribution to each tally is what the
   * consumed run adds to the corresponding count of the code keeps the tallies.
   */
  lemma {:induction false} RunCounted(ins: seq<Instruction>, ops: seq<Op>, code: String, i: nat, next: nat, x: Instruction, o: Op)
    requires i < next <= |code| && Counted(ins, ops, code, i) && Io(ins, ops, code, i)
    requires forall k :: i <= k < next ==> code[k] == code[i]
    requires code[i] != '[' && code[i] != ']' && code[i] != '>' && code[i] != '<'
    requires (code[i] == '+' || code[i] == '-') ==> next == |code| || code[next] != code[i]
    requires (o == AddSub || o == Set) == (code[i] == '+' || code[i] == '-')
    requires (o == AddSub || o == Set) ==> x.data == (if code[i] == '+' then next - i else i - next)
    requires (o == PutChr) == (code[i] == '.') && (o == PutChr ==> x.data == next - i)
    requires (o == RadChr) == (code[i] == ',') && (o == RadChr ==> next == i + 1)
    ensures Counted(ins + [x], ops + [o], code, next) && Io(ins + [x], ops + [o], code, next)
  {
    TotalsSnoc(ins, ops, x, o);
    RunAdvance(code, i, next, code[i]);
    RunCounts(code, i, next, code[i]);
  }

  /** The pending offset flushed as a `PtrMov` (`MOVEOFFSET`): the offset is now carried by the vector. */
  method MoveOffset(ins: seq<Instruction>, ops: seq<Op>, open: seq<nat>, offset: int, ghost code: String, ghost i: nat)
    returns (ins2: seq<Instruction>, ops2: seq<Op>)
    requires LoopInv(ins, ops, open, offset, code, i)
    ensures LoopInv(ins2, ops2, open, 0, code, i)
    ensures (ins2, ops2) == Flush(ins, ops, offset)
  {
    ins2, ops2 := ins, ops;
    if offset != 0 {
      ins2, ops2 := ins + [Instruction(offset, 0)], ops + [PtrMov];
      FlushKept(ins, ops, open, offset, code, i);
    }
  }

  lemma {:induction false} FlushKept(ins: seq<Instruction>, ops: seq<Op>, open: seq<nat>, offset: int, code: String, i: nat)
    requires LoopInv(ins, ops, open, offset, code, i) && offset != 0
    ensures LoopInv(ins + [Instruction(offset, 0)], ops + [PtrMov], open, 0, code, i)
  {
    AppendKept(ins, ops, open, Instruction(offset, 0), PtrMov);
    TotalsSnoc(ins, ops, Instruction(offset, 0), PtrMov);
  }

  /**
   * `+`, `-` or `.`: the maximal run starting at `i` becomes one appended
   * instruction at the pending offset, unmerged: a `PutChr` of the run's
   * length, or an `AddSub` (a `Set` after `S`) of plus or minus it.
   */
  method WriteRun(code: String, i: nat, ins: seq<Instruction>, ops: seq<Op>, open: seq<nat>, offset: int, setNext: bool)
    returns (next: nat, ins2: seq<Instruction>, ops2: seq<Op>)
    requires i < |code| && LoopInv(ins, ops, open, offset, code, i)
    requires code[i] == '+' || code[i] == '-' || code[i] == '.'
    ensures i < next <= |code| && LoopInv(ins2, ops2, open, offset, code, next)
    ensures next == i + 1 + Shared.RunAfter(code, i, code[i])
    ensures ins2 == ins + [Instruction(if code[i] == '-' then i - next else next - i, offset)]
    ensures ops2 == ops + [if code[i] == '.' then PutChr else if setNext then Set else AddSub]
  {
    var c := code[i];
    var n, j := Shared.Fold(code, i, c);
    next := j + 1;
    if c == '.' {
      var inst := Instruction(n, offset);
      ins2, ops2 := ins + [inst], ops + [PutChr];
      PushKept(ins, ops, open, offset, code, i, next, inst, PutChr);
    } else {
      var op := if setNext then Set else AddSub;
      var inst := Instruction(if c == '-' then -n else n, offset);
      ins2, ops2 := ins + [inst], ops + [op];
      WriteKept(ins, ops, open, offset, code, i, next, inst, op);
    }
  }

  /** `>` or `<`: the folded run is added to the pending `int16_t` offset. */
  method MoveRun(code: String, i: nat, offset: int, ghost ins: seq<Instruction>, ghost ops: seq<Op>, ghost open: seq<nat>)
    returns (next: nat, offset2: int)
    requires i < |code| && LoopInv(ins, ops, open, offset, code, i)
    requires code[i] == '>' || code[i] == '<'
    ensures i < next <= |code| && LoopInv(ins, ops, open, offset2, code, next)
    ensures next == i + 1 + Shared.RunAfter(code, i, code[i])
    ensures offset2 == Wrap16(if code[i] == '>' then offset + (next - i) else offset - (next - i))
  {
    var c := code[i];
    var n, j := Shared.Fold(code, i, c);
    offset2 := Wrap16(if c == '>' then offset + n else offset - n);
    next := j + 1;
    MoveKept(ins, ops, open, offset, code, i, next, offset2);
  }

  lemma {:induction false} MoveKept(ins: seq<Instruction>, ops: seq<Op>, open: seq<nat>, offset: int, code: String, i: nat, next: nat, offset2: int)
    requires i < next <= |code| && LoopInv(ins, ops, open, offset, code, i)
    requires code[i] == '>' || code[i] == '<'
    requires forall k :: i <= k < next ==> code[k] == code[i]
    requires offset2 == Wrap16(if code[i] == '>' then offset + (next - i) else offset - (next - i))
    ensures LoopInv(ins, ops, open, offset2, code, next)
  {
    MoveTracked(ins, ops, open, offset, code, i, next, offset2);
    RunPassed(ins, ops, code, i, next);
  }

  /** The wrapped offset keeps the moves congruent to the surplus of `>` over `<`. */
  lemma {:induction false} MoveTracked(ins: seq<Instruction>, ops: seq<Op>, open: seq<nat>, offset: int, code: String,
                                       i: nat, next: nat, offset2: int)
    requires i < next <= |code| && Tracked(ins, ops, open, offset, code, i)
    requires code[i] == '>' || code[i] == '<'
    requires forall k :: i <= k < next ==> code[k] == code[i]
    requires offset2 == Wrap16(if code[i] == '>' then offset + (next - i) else offset - (next - i))
    ensures Tracked(ins, ops, open, offset2, code, next)
  {
    var c := code[i];
    var moved := if c == '>' then offset + (next - i) else offset - (next - i);
    RunAdvance(code, i, next, c);
    SumOfMultiples(MoveTotal(ins, ops) + offset - Shared.Net(code[..i], '>', '<'), offset2 - moved);
  }

  /** Consuming a run of a character that the tallies do not count keeps them. */
  lemma {:induction false} RunPassed(ins: seq<Instruction>, ops: seq<Op>, code: String, i: nat, next: nat)
    requires i < next <= |code| && Counted(ins, ops, code, i) && Io(ins, ops, code, i)
    requires forall k :: i <= k < next ==> code[k] == code[i]
    requires code[i] != '+' && code[i] != '-' && code[i] != '.' && code[i] != ',' && code[i] != '[' && code[i] != ']'
    ensures Counted(ins, ops, code, next) && Io(ins, ops, code, next)
  {
    RunAdvance(code, i, next, code[i]);
    RunCounts(code, i, next, code[i]);
  }

  /** `[`: flush the offset, then append a `JmpZer` without a target and push its index. */
  method OpenBracket(code: String, i: nat, ins: seq<Instruction>, ops: seq<Op>, open: seq<nat>, offset: int)
    returns (ins2: seq<Instruction>, ops2: seq<Op>, open2: seq<nat>)
    requires i < |code| && code[i] == '[' && LoopInv(ins, ops, open, offset, code, i)
    ensures LoopInv(ins2, ops2, open2, 0, code, i + 1)
    ensures var (ins1, ops1) := Flush(ins, ops, offset);
      ins2 == ins1 + [Instruction(0, 0)] && ops2 == ops1 + [JmpZer] && open2 == open + [|ins1|]
  {
    var ins1, ops1 := MoveOffset(ins, ops, open, offset, code, i);
    open2 := open + [|ins1|];
    ins2, ops2 := ins1 + [Instruction(0, 0)], ops1 + [JmpZer];
    OpenKept(ins1, ops1, open, code, i);
  }

  lemma {:induction false} OpenKept(ins: seq<Instruction>, ops: seq<Op>, open: seq<nat>, code: String, i: nat)
    requires i < |code| && code[i] == '[' && LoopInv(ins, ops, open, 0, code, i)
    ensures LoopInv(ins + [Instruction(0, 0)], ops + [JmpZer], open + [|ins|], 0, code, i + 1)
  {
    AppendOpen(ins, ops, open);
    MoveTotalSnoc(ins, ops, Instruction(0, 0), JmpZer);
    AdvanceBracket(code, i);
    TotalsSnoc(ins, ops, Instruction(0, 0), JmpZer);
    BracketCounted(ins, ops, ins + [Instruction(0, 0)], ops + [JmpZer], code, i);
  }

  /** A bracket changes no tally: the tallies carry over one character further on. */
  lemma {:induction false} BracketCounted(ins: seq<Instruction>, ops: seq<Op>, ins2: seq<Instruction>, ops2: seq<Op>, code: String, i: nat)
    requires i < |code| && (code[i] == '[' || code[i] == ']') && Counted(ins, ops, code, i) && Io(ins, ops, code, i)
    requires |ins2| == |ops2| && WriteTotal(ins2, ops2) == WriteTotal(ins, ops) && WriteCount(ops2) == WriteCount(ops)
    requires OperandSum(ins2, ops2, PutChr) == OperandSum(ins, ops, PutChr) && OpCount(ops2, RadChr) == OpCount(ops, RadChr)
    ensures Counted(ins2, ops2, code, i + 1) && Io(ins2, ops2, code, i + 1)
  {
    AdvanceBracket(code, i);
    RunCounts(code, i, i + 1, code[i]);
  }

  /**
   * `]` with an open `[`: flush, pop the innermost open `[`, give its
   * `JmpZer` the index the `JmpNotZer` gets, and append that `JmpNotZer`
   * holding the index of the `JmpZer`.
   */
  method CloseBracket(code: String, i: nat, ins: seq<Instruction>, ops: seq<Op>, open: seq<nat>, offset: int)
    returns (ins2: seq<Instruction>, ops2: seq<Op>, open2: seq<nat>)
    requires i < |code| && code[i] == ']' && open != [] && LoopInv(ins, ops, open, offset, code, i)
    ensures LoopInv(ins2, ops2, open2, 0, code, i + 1)
    ensures var (ins1, ops1) := Flush(ins, ops, offset);
      var start := open[|open| - 1];
      start < |ins1|
      && ins2 == ins1[start := ins1[start].(data := |ins1|)] + [Instruction(start, 0)]
      && ops2 == ops1 + [JmpNotZer] && open2 == open[..|open| - 1]
  {
    var ins1, ops1 := MoveOffset(ins, ops, open, offset, code, i);
    var start := open[|open| - 1];
    open2 := open[..|open| - 1];
    ins2 := ins1[start := ins1[start].(data := |ins1|)] + [Instruction(start, 0)];
    ops2 := ops1 + [JmpNotZer];
    ClosedKept(ins1, ops1, open, code, i, ins2, ops2);
  }

  lemma {:induction false} ClosedKept(ins: seq<Instruction>, ops: seq<Op>, open: seq<nat>, code: String, i: nat, ins2: seq<Instruction>, ops2: seq<Op>)
    requires i < |code| && code[i] == ']' && open != [] && LoopInv(ins, ops, open, 0, code, i)
    requires Closed(ins, ops, open[|open| - 1], ins2, ops2)
    ensures LoopInv(ins2, ops2, open[..|open| - 1], 0, code, i + 1)
  {
    CloseKept(ins, ops, open, ins2, ops2);
    AdvanceBracket(code, i);
    BracketCounted(ins, ops, ins2, ops2, code, i);
  }

  /** `,` and `C` append at the pending offset; `S` and any other character append nothing. */
  method OtherChar(code: String, i: nat, ins: seq<Instruction>, ops: seq<Op>, ghost open: seq<nat>, offset: int)
    returns (ins2: seq<Instruction>, ops2: seq<Op>)
    requires i < |code| && LoopInv(ins, ops, open, offset, code, i)
    requires code[i] != '+' && code[i] != '-' && code[i] != '.' && code[i] != '>' && code[i] != '<'
    requires code[i] != '[' && code[i] != ']'
    ensures LoopInv(ins2, ops2, open, offset, code, i + 1)
    ensures code[i] == ',' ==> ins2 == ins + [Instruction(0, offset)] && ops2 == ops + [RadChr]
    ensures code[i] == 'C' ==> ins2 == ins + [Instruction(0, offset)] && ops2 == ops + [Clr]
    ensures code[i] != ',' && code[i] != 'C' ==> ins2 == ins && ops2 == ops
  {
    var c := code[i];
    ins2, ops2 := ins, ops;
    if c == ',' || c == 'C' {
      var op := if c == ',' then RadChr else Clr;
      ins2, ops2 := ins + [Instruction(0, offset)], ops + [op];
      PushKept(ins, ops, open, offset, code, i, i + 1, Instruction(0, offset), op);
    } else {
      PassKept(ins, ops, open, offset, code, i, i + 1, c);
    }
  }

  /** One pass of the `switch`; `failed` is the early `return 1`. */
  method Step(code: String, i: nat, ins: seq<Instruction>, ops: seq<Op>, open: seq<nat>, offset: int, setNext: bool)
    returns (next: nat, ins2: seq<Instruction>, ops2: seq<Op>, open2: seq<nat>, offset2: int, setNext2: bool, failed: bool)
    requires i < |code| && LoopInv(ins, ops, open, offset, code, i)
    requires code[i] != 'P' && code[i] != 'R' && code[i] != 'L' && code[i] != 'V'
    ensures failed ==> Depths(code) == None
    ensures !failed ==> i < next <= |code| && LoopInv(ins2, ops2, open2, offset2, code, next)
  {
    var c := code[i];
    ins2, ops2, open2, offset2, setNext2, failed := ins, ops, open, offset, setNext, false;
    if c == '+' || c == '-' || c == '.' {
      next, ins2, ops2 := WriteRun(code, i, ins, ops, open, offset, setNext);
      if c != '.' {
        setNext2 := false;
      }
    } else if c == '>' || c == '<' {
      next, offset2 := MoveRun(code, i, offset, ins, ops, open);
    } else if c == '[' {
      ins2, ops2, open2 := OpenBracket(code, i, ins, ops, open, offset);
      offset2 := 0;
      next := i + 1;
    } else if c == ']' {
      if open == [] {
        Unmatched(code, i);
        return i + 1, ins, ops, open, offset, setNext, true;
      }
      ins2, ops2, open2 := CloseBracket(code, i, ins, ops, open, offset);
      offset2 := 0;
      next := i + 1;
    } else {
      ins2, ops2 := OtherChar(code, i, ins, ops, open, offset);
      next := i + 1;
      if c == 'S' {
        setNext2 := true;
      }
    }
  }

  /**
   * The translation loop of `execute` over text free of the letters `P`,
   * `R`, `L` and `V` (whose operands come from the regular-expression
   * passes). It fails with 1 at the first `]` without an open `[`, and with
   * 2 when a `[` is still open at the end; otherwise the result is complete.
   */
  method Translate(code: String) returns (r: Translation)
    requires forall k :: 0 <= k < |code| ==> code[k] != 'P' && code[k] != 'R' && code[k] != 'L' && code[k] != 'V'
    ensures r == Failure(1) <==> Depths(code) == None
    ensures r == Failure(2) <==> Depths(code).Some? && Depths(code).value > 0
    ensures r.Program? <==> Depths(code) == Some(0)
    ensures r.Program? ==> Complete(r.instructions, r.ops, code)
  {
    var failed, ins, ops, open, offset := Scan(code);
    if failed {
      return Failure(1);
    }
    r := Finish(code, ins, ops, open, offset);
  }

  /** The loop of `execute` over the characters; `failed` is the early `return 1`. */
  method Scan(code: String) returns (failed: bool, ins: seq<Instruction>, ops: seq<Op>, open: seq<nat>, offset: int)
    requires forall k :: 0 <= k < |code| ==> code[k] != 'P' && code[k] != 'R' && code[k] != 'L' && code[k] != 'V'
    ensures failed ==> Depths(code) == None
    ensures !failed ==> LoopInv(ins, ops, open, offset, code, |code|) && Depths(code) == Some(|open|)
  {
    ins, ops, open, offset := [], [], [], 0;
    var setNext := false;
    var i := 0;
    failed := false;
    assert code[..0] == [];
    while i < |code|
      invariant LoopInv(ins, ops, open, offset, code, i)
      decreases |code| - i
    {
      i, ins, ops, open, offset, setNext, failed := Step(code, i, ins, ops, open, offset, setNext);
      if failed {
        return;
      }
    }
    assert code[..i] == code;
  }

  /** After the loop: flush the offset, append `End`, and return 2 if a `[` is still open. */
  method Finish(code: String, ins: seq<Instruction>, ops: seq<Op>, open: seq<nat>, offset: int) returns (r: Translation)
    requires LoopInv(ins, ops, open, offset, code, |code|)
    ensures r == Failure(2) <==> |open| > 0
    ensures r.Program? <==> |open| == 0
    ensures r.Program? ==> Complete(r.instructions, r.ops, code)
  {
    var ins1, ops1 := MoveOffset(ins, ops, open, offset, code, |code|);
    if open != [] {
      return Failure(2);
    }
    EndKept(ins1, ops1, code);
    r := Program(ins1 + [Instruction(0, 0)], ops1 + [End]);
  }

  /** Appending `End` to the vectors of a fully consumed, balanced text completes them. */
  lemma {:induction false} EndKept(ins: seq<Instruction>, ops: seq<Op>, code: String)
    requires LoopInv(ins, ops, [], 0, code, |code|)
    ensures Complete(ins + [Instruction(0, 0)], ops + [End], code)
  {
    AppendKept(ins, ops, [], Instruction(0, 0), End);
    TotalsSnoc(ins, ops, Instruction(0, 0), End);
    assert code[..|code|] == code;
  }
}
