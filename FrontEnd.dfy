/**
 * The front end of the VM: the translation of brainfuck text into the
 * instruction vector that the interpreter dispatches on. Pointer moves are
 * folded into a pending offset carried by the instructions that touch
 * cells, bracket pairs become relative jumps, and the `emit` peephole
 * merges consecutive writes to the same cell.
 */
module FrontEnd {
  import opened Text
  import Shared
  import Arith

  /** The opcodes of the instruction vector (`insType`). */
  datatype Op = AddSub | Set | PtrMov | JmpZer | JmpNotZer | PutChr | RadChr
              | Clr | MulCpy | ScnRgt | ScnLft | End

  /** Opcodes that only write the cell at their offset. */
  predicate IsWrite(op: Op)
  {
    op == AddSub || op == Set || op == Clr
  }

  /** Opcodes that the translation places by index: jumps and pointer moves. */
  predicate IsStructural(op: Op)
  {
    op == JmpZer || op == JmpNotZer || op == PtrMov
  }

  /** An `instruction` without its dispatch address: its `data` and cell `offset`. */
  datatype Instruction = Instruction(data: int, offset: int)

  /** The cell type `CellT`: 8, 16 or 32 unsigned bits. */
  datatype Width = W8 | W16 | W32

  function Modulus(w: Width): nat
  {
    match w
    case W8 => 0x100
    case W16 => 0x1_0000
    case W32 => 0x1_0000_0000
  }

  /** `static_cast<int32_t>(static_cast<CellT>(x))`. */
  function CellCast(x: int, w: Width): (r: int)
    ensures (r - x) % Modulus(w) == 0
    ensures -0x8000_0000 <= r < 0x8000_0000
  {
    var u := x % Modulus(w);
    if w == W32 && u >= 0x8000_0000 then
      RemainderShift(x, Modulus(w), -1);
      u - 0x1_0000_0000
    else
      RemainderShift(x, Modulus(w), 0);
      u
  }

  /** The remainder, moved by whole multiples of the modulus, stays congruent to `x`. */
  lemma RemainderShift(x: int, m: int, k: int)
    requires m > 0
    ensures (x % m + m * k - x) % m == 0
  {
    var q := x / m;
    assert x == m * q + x % m;
    assert x % m + m * k - x == m * (k - q);
    Arith.ModUnique(x % m + m * k - x, m, k - q, 0);
  }

  /** An `int16_t` receiving the value `x`: wraps modulo 2^16. */
  function Wrap16(x: int): (r: int)
    ensures -0x8000 <= r < 0x8000
    ensures (r - x) % 0x1_0000 == 0
  {
    (x + 0x8000) % 0x1_0000 - 0x8000
  }

  // ---------------------------------------------------------------------
  // The emit peephole

  /**
   * The instruction and opcode vectors after `emit(op, inst)`. A write at
   * the offset of a preceding write is merged into it: an `AddSub` adds to an
   * `AddSub`, folds (cast to the cell type) into a `Set`, and turns a `Clr`
   * into a `Set`; a `Set` or `Clr` replaces the preceding write. Anything
   * else is appended.
   */
  function Emitted(ins: seq<Instruction>, ops: seq<Op>, op: Op, inst: Instruction, w: Width): (seq<Instruction>, seq<Op>)
    requires |ins| == |ops|
  {
    if ins != [] && ins[|ins| - 1].offset == inst.offset && IsWrite(ops[|ops| - 1]) && IsWrite(op) then
      var last := ins[|ins| - 1];
      var lastOp := ops[|ops| - 1];
      var init := ins[..|ins| - 1];
      var initOps := ops[..|ops| - 1];
      if op == AddSub then
        if lastOp == AddSub then (init + [last.(data := last.data + inst.data)], ops)
        else if lastOp == Set then (init + [last.(data := CellCast(last.data + inst.data, w))], ops)
        else (init + [Instruction(CellCast(inst.data, w), inst.offset)], initOps + [Set])
      else (init + [inst], initOps + [op])
    else (ins + [inst], ops + [op])
  }

  /** What a write does to a cell holding `v`. */
  function Apply(op: Op, data: int, v: int, w: Width): (r: int)
    requires IsWrite(op)
    ensures 0 <= r < Modulus(w)
  {
    match op
    case AddSub => (v + data) % Modulus(w)
    case Set => data % Modulus(w)
    case Clr => 0
  }

  lemma AddMod(a: int, b: int, w: Width)
    ensures ((a % Modulus(w)) + b) % Modulus(w) == (a + b) % Modulus(w)
  {
    var m := Modulus(w);
    var q := a / m;
    assert a == q * m + a % m;
    Arith.ModShift(a % m + b, q, m);
  }

  /** Congruent values give the same `Set`. */
  lemma CongruentMod(a: int, b: int, w: Width)
    requires (a - b) % Modulus(w) == 0
    ensures a % Modulus(w) == b % Modulus(w)
  {
    var m := Modulus(w);
    var q := (a - b) / m;
    assert a - b == q * m;
    Arith.ModShift(b, q, m);
  }

  /**
   * The peephole is sound: a merged write leaves the cell exactly as the two
   * writes in sequence would, touches nothing before it, and keeps the
   * vectors the same length; any emission that is not merged is appended.
   */
  lemma EmitSemantics(ins: seq<Instruction>, ops: seq<Op>, op: Op, inst: Instruction, w: Width, v: int)
    requires |ins| == |ops|
    requires 0 <= v < Modulus(w)
    ensures |Emitted(ins, ops, op, inst, w).0| == |Emitted(ins, ops, op, inst, w).1|
    ensures !(ins != [] && ins[|ins| - 1].offset == inst.offset && IsWrite(ops[|ops| - 1]) && IsWrite(op))
            ==> Emitted(ins, ops, op, inst, w) == (ins + [inst], ops + [op])
    ensures ins != [] && ins[|ins| - 1].offset == inst.offset && IsWrite(ops[|ops| - 1]) && IsWrite(op) ==>
      var (ins2, ops2) := Emitted(ins, ops, op, inst, w);
      var n := |ins| - 1;
      |ins2| == |ins| && ins2[..n] == ins[..n] && ops2[..n] == ops[..n]
      && ins2[n].offset == inst.offset && IsWrite(ops2[n])
      && Apply(ops2[n], ins2[n].data, v, w) == Apply(op, inst.data, Apply(ops[n], ins[n].data, v, w), w)
  {
    if ins != [] && ins[|ins| - 1].offset == inst.offset && IsWrite(ops[|ops| - 1]) && IsWrite(op) {
      var n := |ins| - 1;
      var last := ins[n];
      var (ins2, ops2) := Emitted(ins, ops, op, inst, w);
      assert ins2[..n] == ins[..n] && ops2[..n] == ops[..n];
      if op == AddSub && ops[n] == AddSub {
        assert ins2[n] == last.(data := last.data + inst.data) && ops2[n] == AddSub;
        AddAfterAdd(v, last.data, inst.data, w);
      } else if op == AddSub && ops[n] == Set {
        assert ins2[n] == last.(data := CellCast(last.data + inst.data, w)) && ops2[n] == Set;
        AddAfterSet(v, last.data, inst.data, w);
      } else if op == AddSub {
        assert ins2[n] == Instruction(CellCast(inst.data, w), inst.offset) && ops2[n] == Set;
        AddAfterClr(v, last.data, inst.data, w);
      } else {
        assert ins2[n] == inst && ops2[n] == op;
      }
    }
  }

  lemma AddAfterAdd(v: int, a: int, b: int, w: Width)
    ensures Apply(AddSub, a + b, v, w) == Apply(AddSub, b, Apply(AddSub, a, v, w), w)
  {
    AddMod(v + a, b, w);
  }

  lemma AddAfterSet(v: int, a: int, b: int, w: Width)
    ensures Apply(Set, CellCast(a + b, w), v, w) == Apply(AddSub, b, Apply(Set, a, v, w), w)
  {
    AddMod(a, b, w);
    CongruentMod(CellCast(a + b, w), a + b, w);
  }

  lemma AddAfterClr(v: int, a: int, b: int, w: Width)
    ensures Apply(Set, CellCast(b, w), v, w) == Apply(AddSub, b, Apply(Clr, a, v, w), w)
  {
    CongruentMod(CellCast(b, w), b, w);
  }

  /**
   * The `emit` of the interpreter with one-byte cells: an `AddSub` merged
   * into a `Set` or a `Clr` leaves a `Set` whose operand is a byte, and the
   * merged write leaves an 8-bit cell as the two writes in sequence would.
   */
  lemma EmitByteCells(ins: seq<Instruction>, ops: seq<Op>, inst: Instruction, v: int)
    requires |ins| == |ops| && 0 <= v < 0x100
    requires ins != [] && ins[|ins| - 1].offset == inst.offset && IsWrite(ops[|ops| - 1])
    ensures var (ins2, ops2) := Emitted(ins, ops, AddSub, inst, W8);
      var n := |ins| - 1;
      |ins2| == |ops2| == |ins|
      && (ops[n] != AddSub ==> ops2[n] == Set && 0 <= ins2[n].data < 0x100)
      && Apply(ops2[n], ins2[n].data, v, W8) == (Apply(ops[n], ins[n].data, v, W8) + inst.data) % 0x100
  {
    EmitSemantics(ins, ops, AddSub, inst, W8, v);
  }

  /** The emitter: the instruction vector and its parallel opcode vector. */
  class Emitter {
    var instructions: seq<Instruction>
    var ops: seq<Op>
    const width: Width

    predicate Valid()
      reads this
    {
      |instructions| == |ops|
    }

    constructor(w: Width)
      ensures Valid() && instructions == [] && ops == [] && width == w
    {
      instructions := [];
      ops := [];
      width := w;
    }

    /** `emit(op, inst)`. */
    method Emit(op: Op, inst: Instruction)
      requires Valid()
      modifies this
      ensures Valid()
      ensures (instructions, ops) == Emitted(old(instructions), old(ops), op, inst, width)
    {
      if |instructions| > 0 && instructions[|instructions| - 1].offset == inst.offset {
        var n := |instructions| - 1;
        var last := instructions[n];
        var lastOp := ops[n];
        var lastIsWrite := lastOp == AddSub || lastOp == Set || lastOp == Clr;
        var newIsWrite := op == AddSub || op == Set || op == Clr;
        if lastIsWrite && newIsWrite {
          if op == AddSub {
            if lastOp == AddSub {
              assert instructions[n := last.(data := last.data + inst.data)] == instructions[..n] + [last.(data := last.data + inst.data)];
              instructions := instructions[n := last.(data := last.data + inst.data)];
              return;
            } else if lastOp == Set {
              var merged := last.(data := CellCast(last.data + inst.data, width));
              assert instructions[n := merged] == instructions[..n] + [merged];
              instructions := instructions[n := merged];
              return;
            } else if lastOp == Clr {
              instructions := instructions[..n];
              ops := ops[..n];
              instructions := instructions + [Instruction(CellCast(inst.data, width), inst.offset)];
              ops := ops + [Set];
              return;
            }
          } else {
            instructions := instructions[..n];
            ops := ops[..n];
            instructions := instructions + [inst];
            ops := ops + [op];
            return;
          }
        }
      }
      instructions := instructions + [inst];
      ops := ops + [op];
    }
  }

  // ---------------------------------------------------------------------
  // Brackets

  /**
   * The depth of open brackets after `s`, or `None` once a `]` has no
   * open `[` to close.
   */
  function Depths(s: String): Option<nat>
  {
    if s == [] then Some(0)
    else
      match Depths(s[..|s| - 1])
      case None => None
      case Some(d) =>
        var c := s[|s| - 1];
        if c == '[' then Some(d + 1)
        else if c == ']' then (if d == 0 then None else Some(d - 1))
        else Some(d)
  }

  lemma DepthsSnoc(s: String, c: char)
    ensures Depths(s + [c]) == match Depths(s)
      case None => None
      case Some(d) =>
        if c == '[' then Some(d + 1)
        else if c == ']' then (if d == 0 then None else Some(d - 1))
        else Some(d)
  {
    assert (s + [c])[..|s|] == s;
  }

  /** Once a `]` has gone unmatched, no continuation repairs it. */
  lemma {:induction false} DepthsStuck(s: String, t: String)
    requires Depths(s) == None
    ensures Depths(s + t) == None
    decreases |t|
  {
    if t != [] {
      var t0 := t[..|t| - 1];
      assert s + t == (s + t0) + [t[|t| - 1]];
      DepthsStuck(s, t0);
      DepthsSnoc(s + t0, t[|t| - 1]);
    } else {
      assert s + t == s;
    }
  }

  /** Text without brackets leaves the depth alone. */
  lemma {:induction false} DepthsSkip(s: String, t: String)
    requires forall k :: 0 <= k < |t| ==> t[k] != '[' && t[k] != ']'
    ensures Depths(s + t) == Depths(s)
    decreases |t|
  {
    if t != [] {
      var t0 := t[..|t| - 1];
      assert s + t == (s + t0) + [t[|t| - 1]];
      DepthsSkip(s, t0);
      DepthsSnoc(s + t0, t[|t| - 1]);
    } else {
      assert s + t == s;
    }
  }

  /** The depth is the surplus of `[` over `]`. */
  lemma {:induction false} DepthsCount(s: String)
    requires Depths(s).Some?
    ensures Depths(s).value == Count(s, '[') - Count(s, ']')
    decreases |s|
  {
    if s != [] {
      var s0 := s[..|s| - 1];
      assert s == s0 + [s[|s| - 1]];
      DepthsSnoc(s0, s[|s| - 1]);
      DepthsCount(s0);
      CountConcat(s0, [s[|s| - 1]], '[');
      CountConcat(s0, [s[|s| - 1]], ']');
    }
  }

  /** The brackets of `s`, in order: the characters that become jumps. */
  function Brackets(s: String): String
  {
    if s == [] then []
    else Brackets(s[..|s| - 1]) + (if s[|s| - 1] == '[' || s[|s| - 1] == ']' then [s[|s| - 1]] else [])
  }

  lemma BracketsSnoc(s: String, c: char)
    ensures Brackets(s + [c]) == Brackets(s) + (if c == '[' || c == ']' then [c] else [])
  {
    assert (s + [c])[..|s|] == s;
  }

  /** Text without brackets adds no bracket. */
  lemma {:induction false} BracketsSkip(s: String, t: String)
    requires forall k :: 0 <= k < |t| ==> t[k] != '[' && t[k] != ']'
    ensures Brackets(s + t) == Brackets(s)
    decreases |t|
  {
    if t != [] {
      var t0 := t[..|t| - 1];
      assert s + t == (s + t0) + [t[|t| - 1]];
      BracketsSkip(s, t0);
      BracketsSnoc(s + t0, t[|t| - 1]);
    } else {
      assert s + t == s;
    }
  }

  /** The bracket depth depends on the brackets alone. */
  lemma {:induction false} DepthsOfBrackets(s: String)
    ensures Depths(Brackets(s)) == Depths(s)
    decreases |s|
  {
    if s != [] {
      var s0, c := s[..|s| - 1], s[|s| - 1];
      assert s == s0 + [c];
      DepthsOfBrackets(s0);
      BracketsSnoc(s0, c);
      DepthsSnoc(s0, c);
      if c == '[' || c == ']' {
        DepthsSnoc(Brackets(s0), c);
      } else {
        assert Brackets(s) == Brackets(s0) + [] == Brackets(s0);
        assert Depths(s) == Depths(s0);
      }
    }
  }

  // ---------------------------------------------------------------------
  // Jumps read as brackets

  /** The bracket a jump stands for: `[` for `JmpZer`, `]` for `JmpNotZer`, nothing for other opcodes. */
  function KindOf(op: Op): String
  {
    if op == JmpZer then "[" else if op == JmpNotZer then "]" else []
  }

  /** The jumps among `ops[a..b]`, in order, written as the brackets they stand for. */
  function KindsIn(ops: seq<Op>, a: nat, b: nat): String
    requires a <= b <= |ops|
    decreases b
  {
    if a == b then [] else KindsIn(ops, a, b - 1) + KindOf(ops[b - 1])
  }

  /** All the jumps of `ops`, as brackets. */
  function Kinds(ops: seq<Op>): String
  {
    KindsIn(ops, 0, |ops|)
  }

  /** Vectors that agree on their jumps over `[a, b)` read the same brackets there. */
  lemma {:induction false} KindsInSame(ops: seq<Op>, ops2: seq<Op>, a: nat, b: nat)
    requires a <= b <= |ops| && b <= |ops2|
    requires forall k :: a <= k < b ==> KindOf(ops2[k]) == KindOf(ops[k])
    ensures KindsIn(ops2, a, b) == KindsIn(ops, a, b)
    decreases b
  {
    if a < b {
      KindsInSame(ops, ops2, a, b - 1);
    }
  }

  lemma {:induction false} KindsInSplit(ops: seq<Op>, a: nat, m: nat, b: nat)
    requires a <= m <= b <= |ops|
    ensures KindsIn(ops, a, b) == KindsIn(ops, a, m) + KindsIn(ops, m, b)
    decreases b
  {
    if m < b {
      KindsInSplit(ops, a, m, b - 1);
    } else {
      assert KindsIn(ops, m, b) == [];
    }
  }

  lemma {:induction false} KindsInNone(ops: seq<Op>, a: nat, b: nat)
    requires a <= b <= |ops|
    requires forall k :: a <= k < b ==> KindOf(ops[k]) == []
    ensures KindsIn(ops, a, b) == []
    decreases b
  {
    if a < b {
      KindsInNone(ops, a, b - 1);
    }
  }

  /**
   * The bracket depth reached over `ops[a..b]` read as brackets, or `None`
   * once a `JmpNotZer` there has no `JmpZer` to close: `Depths` of
   * `KindsIn(ops, a, b)` (see `LevelIsDepths`), computed on the opcodes.
   */
  function Level(ops: seq<Op>, a: nat, b: nat): Option<nat>
    requires a <= b <= |ops|
    decreases b
  {
    if a == b then Some(0) else JumpStep(Level(ops, a, b - 1), ops[b - 1])
  }

  /** The depth after one more opcode: a `JmpZer` opens, a `JmpNotZer` closes. */
  function JumpStep(d: Option<nat>, o: Op): Option<nat>
  {
    match d
    case None => None
    case Some(n) =>
      if o == JmpZer then Some(n + 1)
      else if o == JmpNotZer then (if n == 0 then None else Some(n - 1))
      else Some(n)
  }

  /** The bracket a jump stands for moves `Depths` as the jump moves `Level`. */
  lemma DepthsKind(x: String, o: Op)
    ensures Depths(x + KindOf(o)) == JumpStep(Depths(x), o)
  {
    if o == JmpZer {
      DepthsSnoc(x, '[');
    } else if o == JmpNotZer {
      DepthsSnoc(x, ']');
    } else {
      assert x + KindOf(o) == x;
    }
  }

  /** `Level` is the depth of the brackets the jumps stand for. */
  lemma {:induction false} LevelIsDepths(ops: seq<Op>, a: nat, b: nat)
    requires a <= b <= |ops|
    ensures Level(ops, a, b) == Depths(KindsIn(ops, a, b))
    decreases b
  {
    if a < b {
      var x := KindsIn(ops, a, b - 1);
      assert KindsIn(ops, a, b) == x + KindOf(ops[b - 1]);
      assert Level(ops, a, b) == JumpStep(Level(ops, a, b - 1), ops[b - 1]);
      LevelIsDepths(ops, a, b - 1);
      DepthsKind(x, ops[b - 1]);
    }
  }

  /** Vectors that agree on their jumps over `[a, b)` reach the same depth there. */
  lemma {:induction false} LevelSame(ops: seq<Op>, ops2: seq<Op>, a: nat, b: nat)
    requires a <= b <= |ops| && b <= |ops2|
    requires forall k :: a <= k < b ==> KindOf(ops2[k]) == KindOf(ops[k])
    ensures Level(ops2, a, b) == Level(ops, a, b)
    decreases b
  {
    if a < b {
      LevelSame(ops, ops2, a, b - 1);
      assert KindOf(ops2[b - 1]) == KindOf(ops[b - 1]);
    }
  }

  /** Depths add up over consecutive stretches that do not underflow. */
  lemma {:induction false} LevelJoin(ops: seq<Op>, a: nat, m: nat, b: nat)
    requires a <= m <= b <= |ops|
    requires Level(ops, a, m).Some? && Level(ops, m, b).Some?
    ensures Level(ops, a, b) == Some(Level(ops, a, m).value + Level(ops, m, b).value)
    decreases b
  {
    if m < b {
      LevelJoin(ops, a, m, b - 1);
    }
  }

  /** A stretch without jumps stays at depth zero. */
  lemma {:induction false} LevelNone(ops: seq<Op>, a: nat, b: nat)
    requires a <= b <= |ops|
    requires forall k :: a <= k < b ==> KindOf(ops[k]) == []
    ensures Level(ops, a, b) == Some(0)
    decreases b
  {
    if a < b {
      LevelNone(ops, a, b - 1);
      assert KindOf(ops[b - 1]) == [];
    }
  }

  /** `ops2` keeps every jump of `ops` in place, and has no jump beyond them. */
  ghost predicate SameJumps(ops: seq<Op>, ops2: seq<Op>)
  {
    |ops| <= |ops2|
    && (forall k :: 0 <= k < |ops| ==> KindOf(ops2[k]) == KindOf(ops[k]))
    && (forall k :: |ops| <= k < |ops2| ==> KindOf(ops2[k]) == [])
  }

  /** Under `SameJumps`, every stretch that starts inside `ops` reads the same brackets. */
  lemma SameJumpsKinds(ops: seq<Op>, ops2: seq<Op>, a: nat)
    requires SameJumps(ops, ops2) && a <= |ops|
    ensures KindsIn(ops2, a, |ops2|) == KindsIn(ops, a, |ops|)
  {
    KindsInSplit(ops2, a, |ops|, |ops2|);
    KindsInNone(ops2, |ops|, |ops2|);
    KindsInSame(ops, ops2, a, |ops|);
  }

  /** Appending an instruction that is not a jump keeps the jumps. */
  lemma AppendSameJumps(ops: seq<Op>, o: Op)
    requires o != JmpZer && o != JmpNotZer
    ensures SameJumps(ops, ops + [o])
  {
  }

  /** Where the part of the vector after the `j`-th open `[` ends: at the next open `[`, or at the end. */
  function SegmentEnd(open: seq<nat>, j: nat, n: nat): nat
    requires j < |open|
  {
    if j + 1 < |open| then open[j + 1] else n
  }

  /**
   * Between each open `JmpZer` and the next one (or the end of the vector)
   * the jumps are balanced: every `[` emitted since has been closed.
   */
  ghost predicate Nested(ops: seq<Op>, open: seq<nat>)
  {
    forall j :: 0 <= j < |open| ==> SegmentBalanced(ops, open, j)
  }

  /** The segment of the `j`-th open `[` is balanced. */
  ghost predicate SegmentBalanced(ops: seq<Op>, open: seq<nat>, j: nat)
    requires j < |open|
  {
    open[j] < SegmentEnd(open, j, |ops|) <= |ops|
    && Level(ops, open[j] + 1, SegmentEnd(open, j, |ops|)) == Some(0)
  }

  /** Under `SameJumps`, a stretch to the end that starts inside `ops` reaches the same depth. */
  lemma SameJumpsLevel(ops: seq<Op>, ops2: seq<Op>, a: nat)
    requires SameJumps(ops, ops2) && a <= |ops| && Level(ops, a, |ops|).Some?
    ensures Level(ops2, a, |ops2|) == Level(ops, a, |ops|)
  {
    LevelSame(ops, ops2, a, |ops|);
    LevelNone(ops2, |ops|, |ops2|);
    LevelJoin(ops2, a, |ops|, |ops2|);
  }

  /** Keeping the jumps keeps the nesting. */
  lemma NestedSame(ops: seq<Op>, ops2: seq<Op>, open: seq<nat>)
    requires Nested(ops, open) && SameJumps(ops, ops2)
    ensures Nested(ops2, open)
  {
    forall j | 0 <= j < |open|
      ensures SegmentBalanced(ops2, open, j)
    {
      SegmentSame(ops, ops2, open, j);
    }
  }

  lemma SegmentSame(ops: seq<Op>, ops2: seq<Op>, open: seq<nat>, j: nat)
    requires j < |open| && SegmentBalanced(ops, open, j) && SameJumps(ops, ops2)
    ensures SegmentBalanced(ops2, open, j)
  {
    var a := open[j] + 1;
    if j + 1 < |open| {
      LevelSame(ops, ops2, a, open[j + 1]);
    } else {
      SameJumpsLevel(ops, ops2, a);
    }
  }

  /** Appending a new `JmpZer` and pushing its index starts an empty segment. */
  lemma NestedPush(ops: seq<Op>, open: seq<nat>)
    requires Nested(ops, open)
    ensures Nested(ops + [JmpZer], open + [|ops|])
  {
    var ops2, open2 := ops + [JmpZer], open + [|ops|];
    forall j | 0 <= j < |open2|
      ensures SegmentBalanced(ops2, open2, j)
    {
      if j < |open| {
        assert SegmentBalanced(ops, open, j);
        PushedSegment(ops, open, j);
      } else {
      }
    }
  }

  lemma PushedSegment(ops: seq<Op>, open: seq<nat>, j: nat)
    requires j < |open| && SegmentBalanced(ops, open, j)
    ensures SegmentBalanced(ops + [JmpZer], open + [|ops|], j)
  {
    var ops2, open2 := ops + [JmpZer], open + [|ops|];
    assert open2[j] == open[j];
    var e := SegmentEnd(open, j, |ops|);
    assert SegmentEnd(open2, j, |ops2|) == e;
    LevelSame(ops, ops2, open[j] + 1, e);
  }

  /**
   * Appending the `JmpNotZer` of the innermost open `[` and popping it: the
   * segment of the `[` below grows by a balanced bracket pair.
   */
  lemma NestedPop(ops: seq<Op>, open: seq<nat>)
    requires Nested(ops, open) && open != [] && open[|open| - 1] < |ops| && ops[open[|open| - 1]] == JmpZer
    ensures Nested(ops + [JmpNotZer], open[..|open| - 1])
  {
    var ops2, open2 := ops + [JmpNotZer], open[..|open| - 1];
    forall j | 0 <= j < |open2|
      ensures SegmentBalanced(ops2, open2, j)
    {
      assert SegmentBalanced(ops, open, j);
      if j + 1 < |open2| {
        PoppedInner(ops, open, j);
      } else {
        PoppedLast(ops, open);
      }
    }
  }

  /** The segment of the second innermost `[` after the pop. */
  lemma PoppedLast(ops: seq<Op>, open: seq<nat>)
    requires |open| >= 2 && open[|open| - 1] < |ops| && ops[open[|open| - 1]] == JmpZer
    requires SegmentBalanced(ops, open, |open| - 2) && SegmentBalanced(ops, open, |open| - 1)
    ensures SegmentBalanced(ops + [JmpNotZer], open[..|open| - 1], |open| - 2)
  {
    var j := |open| - 2;
    var a, start := open[j] + 1, open[j + 1];
    assert SegmentEnd(open, j, |ops|) == start;
    assert SegmentEnd(open, j + 1, |ops|) == |ops|;
    PoppedOuter(ops, a, start);
    assert SegmentEnd(open[..|open| - 1], j, |ops| + 1) == |ops| + 1;
  }

  /** A segment below the innermost one is untouched by the pop. */
  lemma PoppedInner(ops: seq<Op>, open: seq<nat>, j: nat)
    requires j + 2 < |open| && SegmentBalanced(ops, open, j)
    ensures SegmentBalanced(ops + [JmpNotZer], open[..|open| - 1], j)
  {
    var ops2, open2 := ops + [JmpNotZer], open[..|open| - 1];
    assert open2[j] == open[j] && open2[j + 1] == open[j + 1];
    LevelSame(ops, ops2, open[j] + 1, open[j + 1]);
  }

  /** The segment of the new innermost `[` absorbs the closed pair. */
  lemma PoppedOuter(ops: seq<Op>, a: nat, start: nat)
    requires a <= start < |ops| && ops[start] == JmpZer
    requires Level(ops, a, start) == Some(0) && Level(ops, start + 1, |ops|) == Some(0)
    ensures Level(ops + [JmpNotZer], a, |ops| + 1) == Some(0)
  {
    var ops2, n := ops + [JmpNotZer], |ops|;
    LevelSame(ops, ops2, a, start + 1);
    LevelSame(ops, ops2, start + 1, n);
    LevelJoin(ops2, a, start + 1, n);
  }

  // ---------------------------------------------------------------------
  // Translation

  /** Sum of the `PtrMov` distances. */
  function MoveTotal(ins: seq<Instruction>, ops: seq<Op>): int
    requires |ins| == |ops|
  {
    if ins == [] then 0
    else MoveTotal(ins[..|ins| - 1], ops[..|ops| - 1])
         + (if ops[|ops| - 1] == PtrMov then ins[|ins| - 1].data else 0)
  }

  lemma MoveTotalSnoc(ins: seq<Instruction>, ops: seq<Op>, x: Instruction, o: Op)
    requires |ins| == |ops|
    ensures MoveTotal(ins + [x], ops + [o]) == MoveTotal(ins, ops) + (if o == PtrMov then x.data else 0)
  {
    assert (ins + [x])[..|ins|] == ins && (ops + [o])[..|ops|] == ops;
  }

  /** The operands of the instructions with opcode `o`, added up. */
  function OperandSum(ins: seq<Instruction>, ops: seq<Op>, o: Op): int
    requires |ins| == |ops|
  {
    if ins == [] then 0
    else OperandSum(ins[..|ins| - 1], ops[..|ops| - 1], o) + (if ops[|ops| - 1] == o then ins[|ins| - 1].data else 0)
  }

  /** The number of instructions with opcode `o`. */
  function OpCount(ops: seq<Op>, o: Op): nat
  {
    if ops == [] then 0 else OpCount(ops[..|ops| - 1], o) + (if ops[|ops| - 1] == o then 1 else 0)
  }

  lemma TallySnoc(ins: seq<Instruction>, ops: seq<Op>, x: Instruction, p: Op, o: Op)
    requires |ins| == |ops|
    ensures OperandSum(ins + [x], ops + [p], o) == OperandSum(ins, ops, o) + (if p == o then x.data else 0)
    ensures OpCount(ops + [p], o) == OpCount(ops, o) + (if p == o then 1 else 0)
  {
    assert (ins + [x])[..|ins|] == ins && (ops + [p])[..|ops|] == ops;
  }

  /** Changing only operands of other opcodes keeps the operand sum of `o`. */
  lemma {:induction false} OperandSumSame(ins: seq<Instruction>, ops: seq<Op>, ins2: seq<Instruction>, o: Op)
    requires |ins| == |ops| == |ins2|
    requires forall k :: 0 <= k < |ins| && ops[k] == o ==> ins2[k] == ins[k]
    ensures OperandSum(ins2, ops, o) == OperandSum(ins, ops, o)
  {
    if ins != [] {
      OperandSumSame(ins[..|ins| - 1], ops[..|ops| - 1], ins2[..|ins2| - 1], o);
    }
  }

  /**
   * What the program writes and reads: the `PutChr` repeat counts add up to
   * the `.` of `code[..i]`, and there is one `RadChr` per `,`.
   */
  ghost predicate Io(ins: seq<Instruction>, ops: seq<Op>, code: String, i: nat)
  {
    |ins| == |ops| && i <= |code|
    && OperandSum(ins, ops, PutChr) == Count(code[..i], '.')
    && OpCount(ops, RadChr) == Count(code[..i], ',')
  }

  /** Appending a jump, a pointer move or `End` keeps the input and output. */
  lemma AppendIo(ins: seq<Instruction>, ops: seq<Op>, x: Instruction, p: Op, code: String, i: nat)
    requires Io(ins, ops, code, i) && p != PutChr && p != RadChr
    ensures Io(ins + [x], ops + [p], code, i)
  {
    TallySnoc(ins, ops, x, p, PutChr);
    TallySnoc(ins, ops, x, p, RadChr);
  }

  /**
   * Every `emit` of a write, `PutChr` or `RadChr` adds its own operand to the
   * `PutChr` total and itself to the `RadChr` count: a merge only ever
   * replaces a write by a write.
   */
  lemma {:induction false} EmitTally(ins: seq<Instruction>, ops: seq<Op>, op: Op, inst: Instruction, w: Width)
    requires |ins| == |ops|
    ensures var (ins2, ops2) := Emitted(ins, ops, op, inst, w);
      |ins2| == |ops2|
      && OperandSum(ins2, ops2, PutChr) == OperandSum(ins, ops, PutChr) + (if op == PutChr then inst.data else 0)
      && OpCount(ops2, RadChr) == OpCount(ops, RadChr) + (if op == RadChr then 1 else 0)
  {
    EmitShape(ins, ops, op, inst, w);
    var (ins2, ops2) := Emitted(ins, ops, op, inst, w);
    if ins2 == ins + [inst] && ops2 == ops + [op] {
      TallySnoc(ins, ops, inst, op, PutChr);
      TallySnoc(ins, ops, inst, op, RadChr);
    } else {
      ReplaceTally(ins, ops, ins2, ops2, PutChr);
      ReplaceTally(ins, ops, ins2, ops2, RadChr);
    }
  }

  /** Replacing the last write by a write leaves the tallies of other opcodes alone. */
  lemma ReplaceTally(ins: seq<Instruction>, ops: seq<Op>, ins2: seq<Instruction>, ops2: seq<Op>, o: Op)
    requires |ins| == |ops| && ins != [] && |ins2| == |ins| && |ops2| == |ops|
    requires ins2[..|ins| - 1] == ins[..|ins| - 1] && ops2[..|ins| - 1] == ops[..|ins| - 1]
    requires IsWrite(ops[|ins| - 1]) && IsWrite(ops2[|ins| - 1]) && !IsWrite(o)
    ensures OperandSum(ins2, ops2, o) == OperandSum(ins, ops, o)
    ensures OpCount(ops2, o) == OpCount(ops, o)
  {
  }

  /** A `JmpZer` at index `s` (a trigger that the jump targets below do not re-create). */
  predicate JumpZeroAt(ops: seq<Op>, s: int)
  {
    0 <= s < |ops| && ops[s] == JmpZer
  }

  /** A `JmpNotZer` at index `c`. */
  predicate JumpBackAt(ops: seq<Op>, c: int)
  {
    0 <= c < |ops| && ops[c] == JmpNotZer
  }

  /**
   * Every closed bracket pair carries its distance on both jumps, and the
   * jumps strictly between the two are balanced, so the `JmpNotZer` is the
   * one that matches the `JmpZer`.
   */
  ghost predicate Paired(ins: seq<Instruction>, ops: seq<Op>, open: seq<nat>)
    requires |ins| == |ops|
  {
    (forall s {:trigger JumpZeroAt(ops, s)} :: JumpZeroAt(ops, s) && s !in open ==>
       0 < ins[s].data && s + ins[s].data < |ins|
       && ops[s + ins[s].data] == JmpNotZer && ins[s + ins[s].data].data == ins[s].data
       && Level(ops, s + 1, s + ins[s].data) == Some(0))
    && (forall c {:trigger JumpBackAt(ops, c)} :: JumpBackAt(ops, c) ==>
       0 < ins[c].data <= c
       && ops[c - ins[c].data] == JmpZer && ins[c - ins[c].data].data == ins[c].data)
  }

  /** Once a `JmpNotZer` has gone unmatched, the depth stays undefined. */
  lemma {:induction false} LevelStuck(ops: seq<Op>, a: nat, m: nat, b: nat)
    requires a <= m <= b <= |ops| && Level(ops, a, m) == None
    ensures Level(ops, a, b) == None
    decreases b
  {
    if m < b {
      LevelStuck(ops, a, m, b - 1);
    }
  }

  /**
   * Bracket matching is unique: after a `JmpNotZer` at `c1` that closes the
   * stretch from `s + 1`, no later end `c2` closes it again.
   */
  lemma {:induction false} MatchUnique(ops: seq<Op>, s: nat, c1: nat, c2: nat)
    requires s < c1 < c2 <= |ops| && ops[c1] == JmpNotZer && Level(ops, s + 1, c1) == Some(0)
    ensures Level(ops, s + 1, c2) != Some(0)
  {
    assert Level(ops, s + 1, c1 + 1) == None;
    LevelStuck(ops, s + 1, c1 + 1, c2);
  }

  /**
   * In a translation without open brackets, the partner of every `JmpZer`
   * is its matching `JmpNotZer`: the only one after it with balanced jumps in between.
   */
  lemma {:induction false} PairedMatches(ins: seq<Instruction>, ops: seq<Op>, s: nat, c: nat)
    requires |ins| == |ops| && Paired(ins, ops, []) && JumpZeroAt(ops, s)
    requires s < c < |ops| && ops[c] == JmpNotZer
    ensures Level(ops, s + 1, c) == Some(0) <==> c == s + ins[s].data
  {
    var t := s + ins[s].data;
    assert t < |ops| && ops[t] == JmpNotZer && Level(ops, s + 1, t) == Some(0);
    if c < t {
      if Level(ops, s + 1, c) == Some(0) {
        MatchUnique(ops, s, c, t);
      }
    } else if t < c {
      MatchUnique(ops, s, t, c);
    }
  }

  /** The brace stack: increasing indices of open `JmpZer`s, still without a distance. */
  ghost predicate OpenJumps(ins: seq<Instruction>, ops: seq<Op>, open: seq<nat>)
    requires |ins| == |ops|
  {
    (forall j :: 0 <= j < |open| ==> open[j] < |ins| && ops[open[j]] == JmpZer && ins[open[j]].data == 0)
    && (forall j, j' :: 0 <= j < j' < |open| ==> open[j] < open[j'])
  }

  /** Pointer moves are emitted only for a nonzero pending offset. */
  ghost predicate MovesNonzero(ins: seq<Instruction>, ops: seq<Op>)
    requires |ins| == |ops|
  {
    forall k :: 0 <= k < |ins| && ops[k] == PtrMov ==> ins[k].data != 0
  }

  /** The jumps, pointer moves and brace stack that the translation has built so far. */
  ghost predicate Built(ins: seq<Instruction>, ops: seq<Op>, open: seq<nat>)
  {
    |ins| == |ops| && OpenJumps(ins, ops, open) && Paired(ins, ops, open) && MovesNonzero(ins, ops)
    && Nested(ops, open)
  }

  /** What the translation loop keeps after consuming `code[..i]`. */
  ghost predicate Inv(ins: seq<Instruction>, ops: seq<Op>, open: seq<nat>, offset: int, code: String, i: nat)
  {
    Built(ins, ops, open) && i <= |code|
    && Depths(code[..i]) == Some(|open|)
    && Kinds(ops) == Brackets(code[..i])
    && -0x8000 <= offset < 0x8000
    && (MoveTotal(ins, ops) + offset - Shared.Net(code[..i], '>', '<')) % 0x1_0000 == 0
  }

  /** `ins2`/`ops2` hold the same jumps and pointer moves at the same indices as `ins`/`ops`. */
  ghost predicate SameStructure(ins: seq<Instruction>, ops: seq<Op>, ins2: seq<Instruction>, ops2: seq<Op>)
  {
    |ins| == |ops| && |ins2| == |ops2| && |ins| <= |ins2|
    && (forall k :: 0 <= k < |ins| && IsStructural(ops[k]) ==> k < |ins2| && ops2[k] == ops[k] && ins2[k] == ins[k])
    && (forall k :: 0 <= k < |ins2| && IsStructural(ops2[k]) ==> k < |ins| && ops[k] == ops2[k] && ins[k] == ins2[k])
  }

  /** The two outcomes of `emit`: an append, or a write replacing the last write. */
  lemma EmitShape(ins: seq<Instruction>, ops: seq<Op>, op: Op, inst: Instruction, w: Width)
    requires |ins| == |ops|
    ensures var (ins2, ops2) := Emitted(ins, ops, op, inst, w);
      (ins2 == ins + [inst] && ops2 == ops + [op])
      || (ins != [] && |ins2| == |ins| && |ops2| == |ops|
          && ins2[..|ins| - 1] == ins[..|ins| - 1] && ops2[..|ins| - 1] == ops[..|ins| - 1]
          && IsWrite(ops[|ins| - 1]) && IsWrite(ops2[|ins| - 1]) && IsWrite(op))
  {
  }

  /** Emitting anything but a jump or a pointer move keeps the structure and the moves. */
  lemma EmitKeepsStructure(ins: seq<Instruction>, ops: seq<Op>, op: Op, inst: Instruction, w: Width)
    requires |ins| == |ops| && !IsStructural(op)
    ensures var (ins2, ops2) := Emitted(ins, ops, op, inst, w);
      SameStructure(ins, ops, ins2, ops2) && MoveTotal(ins2, ops2) == MoveTotal(ins, ops)
  {
    EmitShape(ins, ops, op, inst, w);
    var (ins2, ops2) := Emitted(ins, ops, op, inst, w);
    if ins2 == ins + [inst] && ops2 == ops + [op] {
      AppendKeepsStructure(ins, ops, inst, op);
    } else {
      ReplaceKeepsStructure(ins, ops, ins2, ops2);
    }
  }

  lemma AppendKeepsStructure(ins: seq<Instruction>, ops: seq<Op>, inst: Instruction, op: Op)
    requires |ins| == |ops| && !IsStructural(op)
    ensures SameStructure(ins, ops, ins + [inst], ops + [op])
    ensures MoveTotal(ins + [inst], ops + [op]) == MoveTotal(ins, ops)
  {
    MoveTotalSnoc(ins, ops, inst, op);
  }

  lemma ReplaceKeepsStructure(ins: seq<Instruction>, ops: seq<Op>, ins2: seq<Instruction>, ops2: seq<Op>)
    requires |ins| == |ops| && ins != [] && |ins2| == |ins| && |ops2| == |ops|
    requires ins2[..|ins| - 1] == ins[..|ins| - 1] && ops2[..|ins| - 1] == ops[..|ins| - 1]
    requires IsWrite(ops[|ins| - 1]) && IsWrite(ops2[|ins| - 1])
    ensures SameStructure(ins, ops, ins2, ops2) && MoveTotal(ins2, ops2) == MoveTotal(ins, ops)
  {
    var n := |ins| - 1;
    PrefixAgree(ins, ins2, n);
    PrefixAgree(ops, ops2, n);
    assert !IsStructural(ops[n]) && !IsStructural(ops2[n]);
  }

  /** Sequences with the same first `n` elements agree at each index below `n`. */
  lemma PrefixAgree<T>(a: seq<T>, b: seq<T>, n: nat)
    requires n <= |a| && n <= |b| && a[..n] == b[..n]
    ensures forall k :: 0 <= k < n ==> a[k] == b[k]
  {
    forall k | 0 <= k < n
      ensures a[k] == b[k]
    {
      assert a[..n][k] == a[k] && b[..n][k] == b[k];
    }
  }

  /** Keeping the structure keeps the jumps. */
  lemma SameStructureJumps(ins: seq<Instruction>, ops: seq<Op>, ins2: seq<Instruction>, ops2: seq<Op>)
    requires SameStructure(ins, ops, ins2, ops2)
    ensures SameJumps(ops, ops2)
  {
    forall k | 0 <= k < |ops|
      ensures KindOf(ops2[k]) == KindOf(ops[k])
    {
      if IsStructural(ops[k]) || IsStructural(ops2[k]) {
        assert ops2[k] == ops[k];
      }
    }
    forall k | |ops| <= k < |ops2|
      ensures KindOf(ops2[k]) == []
    {
      assert !IsStructural(ops2[k]);
    }
  }

  /** Keeping the structure keeps what it says about jumps, the brace stack and pointer moves. */
  lemma StructureKept(ins: seq<Instruction>, ops: seq<Op>, ins2: seq<Instruction>, ops2: seq<Op>, open: seq<nat>)
    requires SameStructure(ins, ops, ins2, ops2) && Built(ins, ops, open)
    ensures Built(ins2, ops2, open)
    ensures Kinds(ops2) == Kinds(ops)
  {
    SameStructureJumps(ins, ops, ins2, ops2);
    NestedSame(ops, ops2, open);
    SameJumpsKinds(ops, ops2, 0);
    StructureForward(ins, ops, ins2, ops2, open);
    StructureBackward(ins, ops, ins2, ops2, open);
    StructureOpen(ins, ops, ins2, ops2, open);
  }

  lemma StructureForward(ins: seq<Instruction>, ops: seq<Op>, ins2: seq<Instruction>, ops2: seq<Op>, open: seq<nat>)
    requires SameStructure(ins, ops, ins2, ops2) && SameJumps(ops, ops2) && Paired(ins, ops, open)
    ensures forall s {:trigger JumpZeroAt(ops2, s)} :: JumpZeroAt(ops2, s) && s !in open ==>
       0 < ins2[s].data && s + ins2[s].data < |ins2|
       && ops2[s + ins2[s].data] == JmpNotZer && ins2[s + ins2[s].data].data == ins2[s].data
       && Level(ops2, s + 1, s + ins2[s].data) == Some(0)
  {
    forall s | JumpZeroAt(ops2, s) && s !in open
      ensures 0 < ins2[s].data && s + ins2[s].data < |ins2|
              && ops2[s + ins2[s].data] == JmpNotZer && ins2[s + ins2[s].data].data == ins2[s].data
              && Level(ops2, s + 1, s + ins2[s].data) == Some(0)
    {
      assert IsStructural(ops2[s]);
      assert JumpZeroAt(ops, s);
      assert IsStructural(ops[s + ins[s].data]);
      LevelSame(ops, ops2, s + 1, s + ins[s].data);
    }
  }

  lemma StructureBackward(ins: seq<Instruction>, ops: seq<Op>, ins2: seq<Instruction>, ops2: seq<Op>, open: seq<nat>)
    requires SameStructure(ins, ops, ins2, ops2) && Paired(ins, ops, open)
    ensures forall c {:trigger JumpBackAt(ops2, c)} :: JumpBackAt(ops2, c) ==>
       0 < ins2[c].data <= c
       && ops2[c - ins2[c].data] == JmpZer && ins2[c - ins2[c].data].data == ins2[c].data
  {
    forall c | JumpBackAt(ops2, c)
      ensures 0 < ins2[c].data <= c
              && ops2[c - ins2[c].data] == JmpZer && ins2[c - ins2[c].data].data == ins2[c].data
    {
      assert IsStructural(ops2[c]);
      assert JumpBackAt(ops, c);
      assert IsStructural(ops[c - ins[c].data]);
    }
  }

  lemma StructureOpen(ins: seq<Instruction>, ops: seq<Op>, ins2: seq<Instruction>, ops2: seq<Op>, open: seq<nat>)
    requires SameStructure(ins, ops, ins2, ops2) && OpenJumps(ins, ops, open) && MovesNonzero(ins, ops)
    ensures OpenJumps(ins2, ops2, open) && MovesNonzero(ins2, ops2)
  {
    forall j | 0 <= j < |open|
      ensures open[j] < |ins2| && ops2[open[j]] == JmpZer && ins2[open[j]].data == 0
    {
      assert IsStructural(ops[open[j]]);
    }
  }

  /** Appending a nonzero pointer move. */
  lemma AppendMoveKept(ins: seq<Instruction>, ops: seq<Op>, x: Instruction, open: seq<nat>)
    requires Built(ins, ops, open) && x.data != 0
    ensures Built(ins + [x], ops + [PtrMov], open)
    ensures MoveTotal(ins + [x], ops + [PtrMov]) == MoveTotal(ins, ops) + x.data
    ensures Kinds(ops + [PtrMov]) == Kinds(ops)
  {
    MoveTotalSnoc(ins, ops, x, PtrMov);
    AppendSameJumps(ops, PtrMov);
    NestedSame(ops, ops + [PtrMov], open);
    SameJumpsKinds(ops, ops + [PtrMov], 0);
    AppendForward(ins, ops, open, x, PtrMov, open);
    AppendBackward(ins, ops, open, x, PtrMov);
    AppendOpenJumps(ins, ops, open, x, PtrMov);
    AppendMoves(ins, ops, x, PtrMov);
  }

  /** Appending the `JmpZer` of a new `[` and pushing its index. */
  lemma AppendOpenKept(ins: seq<Instruction>, ops: seq<Op>, open: seq<nat>)
    requires Built(ins, ops, open)
    ensures Built(ins + [Instruction(0, 0)], ops + [JmpZer], open + [|ins|])
  {
    NestedPush(ops, open);
    AppendForward(ins, ops, open, Instruction(0, 0), JmpZer, open + [|ins|]);
    AppendBackward(ins, ops, open, Instruction(0, 0), JmpZer);
    PushOpenJumps(ins, ops, open);
    AppendMoves(ins, ops, Instruction(0, 0), JmpZer);
  }

  /**
   * The forward half of `Paired` survives an append that is not a
   * `JmpNotZer`, provided a new `JmpZer` is counted as open.
   */
  lemma AppendForward(ins: seq<Instruction>, ops: seq<Op>, open: seq<nat>, x: Instruction, o: Op, open2: seq<nat>)
    requires |ins| == |ops| && Paired(ins, ops, open) && o != JmpNotZer
    requires o == JmpZer ==> |ins| in open2
    requires forall s :: s in open ==> s in open2
    ensures forall s {:trigger JumpZeroAt(ops + [o], s)} :: JumpZeroAt(ops + [o], s) && s !in open2 ==>
       0 < (ins + [x])[s].data && s + (ins + [x])[s].data < |ins + [x]|
       && (ops + [o])[s + (ins + [x])[s].data] == JmpNotZer
       && (ins + [x])[s + (ins + [x])[s].data].data == (ins + [x])[s].data
       && Level(ops + [o], s + 1, s + (ins + [x])[s].data) == Some(0)
  {
    var ins2, ops2 := ins + [x], ops + [o];
    forall s | JumpZeroAt(ops2, s) && s !in open2
      ensures 0 < ins2[s].data && s + ins2[s].data < |ins2|
              && ops2[s + ins2[s].data] == JmpNotZer && ins2[s + ins2[s].data].data == ins2[s].data
              && Level(ops2, s + 1, s + ins2[s].data) == Some(0)
    {
      assert s < |ins|;
      assert ops2[s] == ops[s] && ins2[s] == ins[s];
      assert JumpZeroAt(ops, s);
      var t := s + ins[s].data;
      assert ops2[t] == ops[t] && ins2[t] == ins[t];
      LevelSame(ops, ops2, s + 1, t);
    }
  }

  /** The backward half of `Paired` survives an append that is not a `JmpNotZer`. */
  lemma AppendBackward(ins: seq<Instruction>, ops: seq<Op>, open: seq<nat>, x: Instruction, o: Op)
    requires |ins| == |ops| && Paired(ins, ops, open) && o != JmpNotZer
    ensures forall c {:trigger JumpBackAt(ops + [o], c)} :: JumpBackAt(ops + [o], c) ==>
       0 < (ins + [x])[c].data <= c
       && (ops + [o])[c - (ins + [x])[c].data] == JmpZer
       && (ins + [x])[c - (ins + [x])[c].data].data == (ins + [x])[c].data
  {
    var ins2, ops2 := ins + [x], ops + [o];
    forall c | JumpBackAt(ops2, c)
      ensures 0 < ins2[c].data <= c
              && ops2[c - ins2[c].data] == JmpZer && ins2[c - ins2[c].data].data == ins2[c].data
    {
      assert c < |ins|;
      assert ops2[c] == ops[c] && ins2[c] == ins[c];
      assert JumpBackAt(ops, c);
      var t := c - ins[c].data;
      assert ops2[t] == ops[t] && ins2[t] == ins[t];
    }
  }

  /** The brace stack survives an append. */
  lemma AppendOpenJumps(ins: seq<Instruction>, ops: seq<Op>, open: seq<nat>, x: Instruction, o: Op)
    requires |ins| == |ops| && OpenJumps(ins, ops, open)
    ensures OpenJumps(ins + [x], ops + [o], open)
  {
    var ins2, ops2 := ins + [x], ops + [o];
    forall j | 0 <= j < |open|
      ensures open[j] < |ins2| && ops2[open[j]] == JmpZer && ins2[open[j]].data == 0
    {
      assert ops2[open[j]] == ops[open[j]] && ins2[open[j]] == ins[open[j]];
    }
  }

  /** Pushing the index of an appended `JmpZer` onto the brace stack. */
  lemma PushOpenJumps(ins: seq<Instruction>, ops: seq<Op>, open: seq<nat>)
    requires |ins| == |ops| && OpenJumps(ins, ops, open)
    ensures OpenJumps(ins + [Instruction(0, 0)], ops + [JmpZer], open + [|ins|])
  {
    var ins2, ops2, open2 := ins + [Instruction(0, 0)], ops + [JmpZer], open + [|ins|];
    forall j | 0 <= j < |open2|
      ensures open2[j] < |ins2| && ops2[open2[j]] == JmpZer && ins2[open2[j]].data == 0
    {
      if j < |open| {
        assert open2[j] == open[j];
        assert ops2[open[j]] == ops[open[j]] && ins2[open[j]] == ins[open[j]];
      }
    }
    forall j, j' | 0 <= j < j' < |open2|
      ensures open2[j] < open2[j']
    {
      assert open2[j] == open[j];
    }
  }

  /** Appending keeps the pointer moves nonzero, if the new one is. */
  lemma AppendMoves(ins: seq<Instruction>, ops: seq<Op>, x: Instruction, o: Op)
    requires |ins| == |ops| && MovesNonzero(ins, ops) && (o == PtrMov ==> x.data != 0)
    ensures MovesNonzero(ins + [x], ops + [o])
  {
    var ins2, ops2 := ins + [x], ops + [o];
    forall k | 0 <= k < |ins2| && ops2[k] == PtrMov
      ensures ins2[k].data != 0
    {
      if k < |ins| {
        assert ops2[k] == ops[k] && ins2[k] == ins[k];
      }
    }
  }

  /** Closing the innermost `[`: both jumps get the distance between them. */
  lemma {:induction false} CloseKept(ins: seq<Instruction>, ops: seq<Op>, open: seq<nat>, ins2: seq<Instruction>, ops2: seq<Op>)
    requires Built(ins, ops, open) && open != []
    requires var start := open[|open| - 1];
      ins2 == ins[start := ins[start].(data := |ins| - start)] + [Instruction(|ins| - start, 0)]
    requires ops2 == ops + [JmpNotZer]
    ensures Built(ins2, ops2, open[..|open| - 1])
    ensures MoveTotal(ins2, ops2) == MoveTotal(ins, ops)
    ensures Kinds(ops2) == Kinds(ops) + "]"
  {
    assert ops[open[|open| - 1]] == JmpZer;
    NestedPop(ops, open);
    KindsInSame(ops, ops2, 0, |ops|);
    CloseOpenJumps(ins, ops, open, ins2, ops2);
    assert SegmentBalanced(ops, open, |open| - 1);
    assert SegmentEnd(open, |open| - 1, |ops|) == |ops|;
    CloseForward(ins, ops, open, ins2, ops2);
    CloseBackward(ins, ops, open, ins2, ops2);
    CloseMoves(ins, ops, open, ins2, ops2);
  }

  lemma CloseOpenJumps(ins: seq<Instruction>, ops: seq<Op>, open: seq<nat>, ins2: seq<Instruction>, ops2: seq<Op>)
    requires Built(ins, ops, open) && open != []
    requires var start := open[|open| - 1];
      ins2 == ins[start := ins[start].(data := |ins| - start)] + [Instruction(|ins| - start, 0)]
    requires ops2 == ops + [JmpNotZer]
    ensures |ins2| == |ops2| && OpenJumps(ins2, ops2, open[..|open| - 1])
  {
    var start := open[|open| - 1];
    var open2 := open[..|open| - 1];
    forall j | 0 <= j < |open2|
      ensures open2[j] < |ins2| && ops2[open2[j]] == JmpZer && ins2[open2[j]].data == 0
    {
      assert open2[j] == open[j] && open[j] < start;
    }
  }

  lemma CloseForward(ins: seq<Instruction>, ops: seq<Op>, open: seq<nat>, ins2: seq<Instruction>, ops2: seq<Op>)
    requires |ins| == |ops| && OpenJumps(ins, ops, open) && Paired(ins, ops, open) && open != []
    requires open[|open| - 1] < |ops| && Level(ops, open[|open| - 1] + 1, |ops|) == Some(0)
    requires var start := open[|open| - 1];
      ins2 == ins[start := ins[start].(data := |ins| - start)] + [Instruction(|ins| - start, 0)]
    requires ops2 == ops + [JmpNotZer]
    ensures |ins2| == |ops2|
    ensures forall s {:trigger JumpZeroAt(ops2, s)} :: JumpZeroAt(ops2, s) && s !in open[..|open| - 1] ==>
       0 < ins2[s].data && s + ins2[s].data < |ins2|
       && ops2[s + ins2[s].data] == JmpNotZer && ins2[s + ins2[s].data].data == ins2[s].data
       && Level(ops2, s + 1, s + ins2[s].data) == Some(0)
  {
    var start := open[|open| - 1];
    var open2 := open[..|open| - 1];
    assert open == open2 + [start];
    var n := |ins|;
    assert ops[start] == JmpZer;
    forall s | JumpZeroAt(ops2, s) && s !in open2
      ensures 0 < ins2[s].data && s + ins2[s].data < |ins2|
              && ops2[s + ins2[s].data] == JmpNotZer && ins2[s + ins2[s].data].data == ins2[s].data
              && Level(ops2, s + 1, s + ins2[s].data) == Some(0)
    {
      assert s < n;
      if s == start {
        assert ins2[s].data == n - start && ops2[n] == JmpNotZer && ins2[n].data == n - start;
        assert s + ins2[s].data == n;
        LevelSame(ops, ops2, start + 1, n);
      } else {
        assert ops2[s] == ops[s] && ins2[s] == ins[s];
        assert JumpZeroAt(ops, s) && s !in open;
        CloseOther(ins, ops, start, ins2, ops2, s);
      }
    }
  }

  /** A closed pair other than the one being closed keeps its distances and its balance. */
  lemma CloseOther(ins: seq<Instruction>, ops: seq<Op>, start: nat, ins2: seq<Instruction>, ops2: seq<Op>, s: nat)
    requires |ins| == |ops| && start < |ins| && ops[start] == JmpZer
    requires ins2 == ins[start := ins[start].(data := |ins| - start)] + [Instruction(|ins| - start, 0)]
    requires ops2 == ops + [JmpNotZer]
    requires s < |ins| && s != start && ops[s] == JmpZer
    requires 0 < ins[s].data && s + ins[s].data < |ins|
       && ops[s + ins[s].data] == JmpNotZer && ins[s + ins[s].data].data == ins[s].data
       && Level(ops, s + 1, s + ins[s].data) == Some(0)
    ensures 0 < ins2[s].data && s + ins2[s].data < |ins2|
       && ops2[s + ins2[s].data] == JmpNotZer && ins2[s + ins2[s].data].data == ins2[s].data
       && Level(ops2, s + 1, s + ins2[s].data) == Some(0)
  {
    var t := s + ins[s].data;
    assert ins2[s] == ins[s] && ops2[t] == ops[t] && ins2[t] == ins[t];
    LevelSame(ops, ops2, s + 1, t);
  }

  lemma CloseBackward(ins: seq<Instruction>, ops: seq<Op>, open: seq<nat>, ins2: seq<Instruction>, ops2: seq<Op>)
    requires Built(ins, ops, open) && open != []
    requires var start := open[|open| - 1];
      ins2 == ins[start := ins[start].(data := |ins| - start)] + [Instruction(|ins| - start, 0)]
    requires ops2 == ops + [JmpNotZer]
    ensures |ins2| == |ops2|
    ensures forall c {:trigger JumpBackAt(ops2, c)} :: JumpBackAt(ops2, c) ==>
       0 < ins2[c].data <= c
       && ops2[c - ins2[c].data] == JmpZer && ins2[c - ins2[c].data].data == ins2[c].data
  {
    var start := open[|open| - 1];
    var n := |ins|;
    assert start < n && ins[start].data == 0;
    forall c | JumpBackAt(ops2, c)
      ensures 0 < ins2[c].data <= c
              && ops2[c - ins2[c].data] == JmpZer && ins2[c - ins2[c].data].data == ins2[c].data
    {
      if c < n {
        assert c != start;
        assert ops2[c] == ops[c] && ins2[c] == ins[c];
        assert JumpBackAt(ops, c);
        var t := c - ins[c].data;
        assert ins[t].data == ins[c].data && 0 < ins[c].data;
        assert t != start;
        assert ops2[t] == ops[t] && ins2[t] == ins[t];
      } else {
        assert c == n && ins2[n].data == n - start && ins2[start].data == n - start && ops2[start] == JmpZer;
      }
    }
  }

  lemma CloseMoves(ins: seq<Instruction>, ops: seq<Op>, open: seq<nat>, ins2: seq<Instruction>, ops2: seq<Op>)
    requires Built(ins, ops, open) && open != []
    requires var start := open[|open| - 1];
      ins2 == ins[start := ins[start].(data := |ins| - start)] + [Instruction(|ins| - start, 0)]
    requires ops2 == ops + [JmpNotZer]
    ensures |ins2| == |ops2| && MovesNonzero(ins2, ops2)
    ensures MoveTotal(ins2, ops2) == MoveTotal(ins, ops)
  {
    var start := open[|open| - 1];
    assert start < |ins| && ops[start] == JmpZer;
    PatchedJumpMoves(ins, ops, start, ins2, ops2);
  }

  /** Patching a jump at `start` and appending a jump changes no pointer move. */
  lemma PatchedJumpMoves(ins: seq<Instruction>, ops: seq<Op>, start: nat, ins2: seq<Instruction>, ops2: seq<Op>)
    requires |ins| == |ops| && MovesNonzero(ins, ops) && start < |ins| && ops[start] == JmpZer
    requires ins2 == ins[start := ins[start].(data := |ins| - start)] + [Instruction(|ins| - start, 0)]
    requires ops2 == ops + [JmpNotZer]
    ensures |ins2| == |ops2| && MovesNonzero(ins2, ops2)
    ensures MoveTotal(ins2, ops2) == MoveTotal(ins, ops)
  {
    var n := |ins|;
    var mid := ins[start := ins[start].(data := n - start)];
    var jump := Instruction(n - start, 0);
    assert ins2 == mid + [jump];
    PatchKeepsMoves(ins, ops, start, mid);
    MoveTotalSnoc(mid, ops, jump, JmpNotZer);
    MoveTotalSame(ins, ops, mid);
    forall k | 0 <= k < |ins2| && ops2[k] == PtrMov
      ensures ins2[k].data != 0
    {
      PatchedMove(ins, ops, start, ins2, ops2, k);
    }
  }

  lemma PatchKeepsMoves(ins: seq<Instruction>, ops: seq<Op>, start: nat, mid: seq<Instruction>)
    requires |ins| == |ops| && start < |ins| && ops[start] == JmpZer
    requires mid == ins[start := ins[start].(data := |ins| - start)]
    ensures |mid| == |ins| && forall k :: 0 <= k < |ins| && ops[k] == PtrMov ==> mid[k] == ins[k]
  {
  }

  lemma PatchedMove(ins: seq<Instruction>, ops: seq<Op>, start: nat, ins2: seq<Instruction>, ops2: seq<Op>, k: nat)
    requires |ins| == |ops| && MovesNonzero(ins, ops) && start < |ins| && ops[start] == JmpZer
    requires ins2 == ins[start := ins[start].(data := |ins| - start)] + [Instruction(|ins| - start, 0)]
    requires ops2 == ops + [JmpNotZer]
    requires k < |ins2| && ops2[k] == PtrMov
    ensures ins2[k].data != 0
  {
    assert k < |ins| && k != start;
    assert ops[k] == PtrMov && ins2[k] == ins[k];
  }

  lemma {:induction false} MoveTotalSame(ins: seq<Instruction>, ops: seq<Op>, ins2: seq<Instruction>)
    requires |ins| == |ops| == |ins2|
    requires forall k :: 0 <= k < |ins| && ops[k] == PtrMov ==> ins2[k] == ins[k]
    ensures MoveTotal(ins2, ops) == MoveTotal(ins, ops)
  {
    if ins != [] {
      MoveTotalSame(ins[..|ins| - 1], ops[..|ops| - 1], ins2[..|ins2| - 1]);
    }
  }

  /** Consuming `code[i..next]`, which holds no bracket and `d` more `>` than `<`. */
  lemma Advance(code: String, i: nat, next: nat, d: int)
    requires i <= next <= |code|
    requires forall k :: i <= k < next ==> code[k] != '[' && code[k] != ']'
    requires Shared.Net(code[i..next], '>', '<') == d
    ensures Depths(code[..next]) == Depths(code[..i])
    ensures Brackets(code[..next]) == Brackets(code[..i])
    ensures Shared.Net(code[..next], '>', '<') == Shared.Net(code[..i], '>', '<') + d
  {
    assert code[..next] == code[..i] + code[i..next];
    DepthsSkip(code[..i], code[i..next]);
    BracketsSkip(code[..i], code[i..next]);
    CountConcat(code[..i], code[i..next], '>');
    CountConcat(code[..i], code[i..next], '<');
  }

  /** Consuming one bracket. */
  lemma AdvanceBracket(code: String, i: nat)
    requires i < |code| && (code[i] == '[' || code[i] == ']')
    ensures Depths(code[..i + 1]) == match Depths(code[..i])
      case None => None
      case Some(d) => if code[i] == '[' then Some(d + 1) else if d == 0 then None else Some(d - 1)
    ensures Brackets(code[..i + 1]) == Brackets(code[..i]) + [code[i]]
    ensures Shared.Net(code[..i + 1], '>', '<') == Shared.Net(code[..i], '>', '<')
    ensures Count(code[..i + 1], '.') == Count(code[..i], '.') && Count(code[..i + 1], ',') == Count(code[..i], ',')
  {
    assert code[..i + 1] == code[..i] + [code[i]];
    DepthsSnoc(code[..i], code[i]);
    BracketsSnoc(code[..i], code[i]);
    CountConcat(code[..i], [code[i]], '.');
    CountConcat(code[..i], [code[i]], ',');
    CountConcat(code[..i], [code[i]], '>');
    CountConcat(code[..i], [code[i]], '<');
  }

  lemma {:induction false} CountUniform(s: String, c: char, d: char)
    requires forall k :: 0 <= k < |s| ==> s[k] == c
    ensures Count(s, c) == |s|
    ensures d != c ==> Count(s, d) == 0
  {
    if s != [] {
      CountUniform(s[1..], c, d);
    }
  }

  lemma SumOfMultiples(a: int, b: int)
    requires a % 0x1_0000 == 0 && (b % 0x1_0000 == 0 || (-b) % 0x1_0000 == 0)
    ensures (a + b) % 0x1_0000 == 0
  {
    var p := a / 0x1_0000;
    assert a == 0x1_0000 * p;
    if b % 0x1_0000 == 0 {
      var q := b / 0x1_0000;
      assert b == 0x1_0000 * q;
      Arith.ModShift(0, p + q, 0x1_0000);
    } else {
      var q := (-b) / 0x1_0000;
      assert b == 0x1_0000 * -q;
      Arith.ModShift(0, p - q, 0x1_0000);
    }
  }

  /** The vectors after `MOVEOFFSET`: a `PtrMov` of the pending offset, when it is nonzero. */
  function Flush(ins: seq<Instruction>, ops: seq<Op>, offset: int): (seq<Instruction>, seq<Op>)
  {
    if offset != 0 then (ins + [Instruction(offset, 0)], ops + [PtrMov]) else (ins, ops)
  }

  /** The pending offset flushed as a `PtrMov` (`MOVEOFFSET`): the offset is now carried by the vector. */
  method MoveOffset(e: Emitter, offset: int, ghost open: seq<nat>, ghost code: String, ghost i: nat)
    requires e.Valid() && Inv(e.instructions, e.ops, open, offset, code, i) && Io(e.instructions, e.ops, code, i)
    modifies e
    ensures e.Valid() && Inv(e.instructions, e.ops, open, 0, code, i) && Io(e.instructions, e.ops, code, i)
    ensures (e.instructions, e.ops) == Flush(old(e.instructions), old(e.ops), offset)
  {
    if offset != 0 {
      ghost var ins := e.instructions;
      ghost var ops := e.ops;
      e.Emit(PtrMov, Instruction(offset, 0));
      assert e.instructions == ins + [Instruction(offset, 0)] && e.ops == ops + [PtrMov];
      FlushKept(ins, ops, open, offset, code, i);
    }
  }

  /** A flushed offset moves from the pending offset into the vector's pointer moves. */
  lemma FlushKept(ins: seq<Instruction>, ops: seq<Op>, open: seq<nat>, offset: int, code: String, i: nat)
    requires Inv(ins, ops, open, offset, code, i) && Io(ins, ops, code, i) && offset != 0
    ensures Inv(ins + [Instruction(offset, 0)], ops + [PtrMov], open, 0, code, i)
    ensures Io(ins + [Instruction(offset, 0)], ops + [PtrMov], code, i)
  {
    AppendMoveKept(ins, ops, Instruction(offset, 0), open);
    AppendIo(ins, ops, Instruction(offset, 0), PtrMov, code, i);
  }

  /**
   * The opcode and instruction emitted for a run of `n` copies of `c`: `+`
   * adds `n` (or sets it after `S`), `-` adds `-n` (or sets it cast to the
   * cell type), `.` writes the cell `n` times.
   */
  function RunEmission(c: char, n: int, offset: int, setNext: bool, w: Width): (Op, Instruction)
  {
    if c == '+' then (if setNext then Set else AddSub, Instruction(n, offset))
    else if c == '-' then (if setNext then Set else AddSub, Instruction(if setNext then CellCast(-n, w) else -n, offset))
    else (PutChr, Instruction(n, offset))
  }

  /** `+`, `-` or `.`: the maximal run starting at `i` becomes one emitted instruction. */
  method EmitRun(e: Emitter, code: String, i: nat, offset: int, setNext: bool, ghost open: seq<nat>)
    returns (next: nat)
    requires e.Valid() && i < |code| && Inv(e.instructions, e.ops, open, offset, code, i)
    requires Io(e.instructions, e.ops, code, i)
    requires code[i] == '+' || code[i] == '-' || code[i] == '.'
    modifies e
    ensures e.Valid() && i < next <= |code| && Inv(e.instructions, e.ops, open, offset, code, next)
    ensures Io(e.instructions, e.ops, code, next)
    ensures next == i + 1 + Shared.RunAfter(code, i, code[i])
    ensures var (op, inst) := RunEmission(code[i], next - i, offset, setNext, e.width);
      (e.instructions, e.ops) == Emitted(old(e.instructions), old(e.ops), op, inst, e.width)
  {
    ghost var ins, ops := e.instructions, e.ops;
    var c := code[i];
    var n, j := Shared.Fold(code, i, c);
    var op: Op;
    var inst: Instruction;
    if c == '+' {
      op := if setNext then Set else AddSub;
      inst := Instruction(n, offset);
    } else if c == '-' {
      var folded := -n;
      op := if setNext then Set else AddSub;
      inst := Instruction(if setNext then CellCast(folded, e.width) else folded, offset);
    } else {
      op := PutChr;
      inst := Instruction(n, offset);
    }
    next := j + 1;
    assert (op, inst) == RunEmission(code[i], next - i, offset, setNext, e.width);
    e.Emit(op, inst);
    RunKept(ins, ops, open, offset, code, i, next, setNext, e.width);
  }

  /** Emitting the run's instruction and consuming the run keeps the invariant and the tallies. */
  lemma RunKept(ins: seq<Instruction>, ops: seq<Op>, open: seq<nat>, offset: int, code: String, i: nat, next: nat,
                setNext: bool, w: Width)
    requires Inv(ins, ops, open, offset, code, i) && Io(ins, ops, code, i) && i < next <= |code|
    requires code[i] == '+' || code[i] == '-' || code[i] == '.'
    requires forall k :: i < k < next ==> code[k] == code[i]
    ensures var (op, inst) := RunEmission(code[i], next - i, offset, setNext, w);
      Inv(Emitted(ins, ops, op, inst, w).0, Emitted(ins, ops, op, inst, w).1, open, offset, code, next)
      && Io(Emitted(ins, ops, op, inst, w).0, Emitted(ins, ops, op, inst, w).1, code, next)
  {
    var (op, inst) := RunEmission(code[i], next - i, offset, setNext, w);
    EmitInv(ins, ops, open, offset, code, i, next, code[i], op, inst, w);
    RunIo(ins, ops, code, i, next, offset, setNext, w);
  }

  /** Emitting an instruction that is neither a jump nor a pointer move, then consuming its run, keeps the invariant. */
  lemma EmitInv(ins: seq<Instruction>, ops: seq<Op>, open: seq<nat>, offset: int, code: String, i: nat, next: nat,
                c: char, op: Op, inst: Instruction, w: Width)
    requires Inv(ins, ops, open, offset, code, i) && !IsStructural(op)
    requires i < next <= |code| && c != '>' && c != '<' && c != '[' && c != ']'
    requires forall k :: i <= k < next ==> code[k] == c
    ensures Inv(Emitted(ins, ops, op, inst, w).0, Emitted(ins, ops, op, inst, w).1, open, offset, code, next)
  {
    var (ins2, ops2) := Emitted(ins, ops, op, inst, w);
    EmitKeepsStructure(ins, ops, op, inst, w);
    StructureKept(ins, ops, ins2, ops2, open);
    InvRun(ins2, ops2, open, offset, code, i, next, c);
  }

  /** The run's emission accounts for its `.` characters. */
  lemma RunIo(ins: seq<Instruction>, ops: seq<Op>, code: String, i: nat, next: nat, offset: int, setNext: bool, w: Width)
    requires Io(ins, ops, code, i) && i < next <= |code|
    requires code[i] == '+' || code[i] == '-' || code[i] == '.'
    requires forall k :: i <= k < next ==> code[k] == code[i]
    ensures var (op, inst) := RunEmission(code[i], next - i, offset, setNext, w);
      Io(Emitted(ins, ops, op, inst, w).0, Emitted(ins, ops, op, inst, w).1, code, next)
  {
    var (op, inst) := RunEmission(code[i], next - i, offset, setNext, w);
    EmitTally(ins, ops, op, inst, w);
    RunAdvance(code, i, next, code[i]);
  }

  /** Consuming a run of one character that is not a bracket. */
  lemma RunAdvance(code: String, i: nat, next: nat, c: char)
    requires i < next <= |code| && c != '[' && c != ']'
    requires forall k :: i <= k < next ==> code[k] == c
    ensures Depths(code[..next]) == Depths(code[..i])
    ensures Brackets(code[..next]) == Brackets(code[..i])
    ensures Shared.Net(code[..next], '>', '<')
         == Shared.Net(code[..i], '>', '<') + (if c == '>' then next - i else if c == '<' then i - next else 0)
    ensures Count(code[..next], '.') == Count(code[..i], '.') + (if c == '.' then next - i else 0)
    ensures Count(code[..next], ',') == Count(code[..i], ',') + (if c == ',' then next - i else 0)
  {
    var run := code[i..next];
    assert forall k :: 0 <= k < |run| ==> run[k] == c;
    assert code[..next] == code[..i] + run;
    CountConcat(code[..i], run, '.');
    CountConcat(code[..i], run, ',');
    CountUniform(run, c, '.');
    CountUniform(run, c, ',');
    CountUniform(run, c, '>');
    CountUniform(run, c, '<');
    Advance(code, i, next, if c == '>' then next - i else if c == '<' then i - next else 0);
  }

  /** `>` or `<`: the folded run is added to the pending `int16_t` offset. */
  method MoveRun(code: String, i: nat, offset: int, ghost ins: seq<Instruction>, ghost ops: seq<Op>, ghost open: seq<nat>)
    returns (next: nat, offset2: int)
    requires i < |code| && Inv(ins, ops, open, offset, code, i) && Io(ins, ops, code, i)
    requires code[i] == '>' || code[i] == '<'
    ensures i < next <= |code| && Inv(ins, ops, open, offset2, code, next) && Io(ins, ops, code, next)
    ensures next == i + 1 + Shared.RunAfter(code, i, code[i])
    ensures offset2 == Wrap16(if code[i] == '>' then offset + Wrap16(next - i) else offset - Wrap16(next - i))
  {
    var c := code[i];
    var n, j := Shared.Fold(code, i, c);
    var step := Wrap16(n);
    var moved := if c == '>' then offset + step else offset - step;
    offset2 := Wrap16(moved);
    next := j + 1;
    MoveRunKept(ins, ops, open, offset, code, i, next);
  }

  /** Adding the wrapped run to the wrapped offset keeps the total of the moves congruent to the net `>` surplus. */
  lemma MoveRunKept(ins: seq<Instruction>, ops: seq<Op>, open: seq<nat>, offset: int, code: String, i: nat, next: nat)
    requires i < next <= |code| && Inv(ins, ops, open, offset, code, i) && Io(ins, ops, code, i)
    requires (code[i] == '>' || code[i] == '<') && forall k :: i <= k < next ==> code[k] == code[i]
    ensures Inv(ins, ops, open, Wrap16(if code[i] == '>' then offset + Wrap16(next - i) else offset - Wrap16(next - i)), code, next)
    ensures Io(ins, ops, code, next)
  {
    var right := code[i] == '>';
    RunAdvance(code, i, next, code[i]);
    RunWrapped(MoveTotal(ins, ops), offset, Shared.Net(code[..i], '>', '<'), Shared.Net(code[..next], '>', '<'),
               next - i, right);
    MovedOn(ins, ops, open, offset, Wrap16(if right then offset + Wrap16(next - i) else offset - Wrap16(next - i)), code, i, next);
  }

  /** The invariant carries over to a later position with the same brackets and tallies, for a new offset that accounts for the moves in between. */
  lemma MovedOn(ins: seq<Instruction>, ops: seq<Op>, open: seq<nat>, offset: int, offset2: int, code: String, i: nat, next: nat)
    requires Inv(ins, ops, open, offset, code, i) && Io(ins, ops, code, i) && i <= next <= |code|
    requires Depths(code[..next]) == Depths(code[..i]) && Brackets(code[..next]) == Brackets(code[..i])
    requires Count(code[..next], '.') == Count(code[..i], '.') && Count(code[..next], ',') == Count(code[..i], ',')
    requires -0x8000 <= offset2 < 0x8000 && (MoveTotal(ins, ops) + offset2 - Shared.Net(code[..next], '>', '<')) % 0x1_0000 == 0
    ensures Inv(ins, ops, open, offset2, code, next) && Io(ins, ops, code, next)
  {
  }

  /** Wrapping the run and the offset to 16 bits changes the pending total only by multiples of 2^16. */
  lemma RunWrapped(t: int, offset: int, net: int, net2: int, n: int, right: bool)
    requires (t + offset - net) % 0x1_0000 == 0 && net2 == net + if right then n else -n
    ensures (t + Wrap16(if right then offset + Wrap16(n) else offset - Wrap16(n)) - net2) % 0x1_0000 == 0
  {
    var step := Wrap16(n);
    var moved := if right then offset + step else offset - step;
    var offset2 := Wrap16(moved);
    var d := if right then n else -n;
    if right {
      SumOfMultiples(offset2 - moved, step - n);
    } else {
      SumOfMultiples(offset2 - moved, -(step - n));
    }
    SumOfMultiples(t + offset - net, offset2 - (offset + d));
  }

  /** `[`: flush the offset, then append a `JmpZer` without a distance and push its index. */
  method OpenBracket(e: Emitter, code: String, i: nat, offset: int, open: seq<nat>)
    returns (open2: seq<nat>)
    requires e.Valid() && i < |code| && code[i] == '[' && Inv(e.instructions, e.ops, open, offset, code, i)
    requires Io(e.instructions, e.ops, code, i)
    modifies e
    ensures e.Valid() && Inv(e.instructions, e.ops, open2, 0, code, i + 1) && Io(e.instructions, e.ops, code, i + 1)
    ensures var (ins, ops) := Flush(old(e.instructions), old(e.ops), offset);
      e.instructions == ins + [Instruction(0, 0)] && e.ops == ops + [JmpZer] && open2 == open + [|ins|]
  {
    MoveOffset(e, offset, open, code, i);
    ghost var ins := e.instructions;
    ghost var ops := e.ops;
    open2 := open + [|e.instructions|];
    e.Emit(JmpZer, Instruction(0, 0));
    assert e.instructions == ins + [Instruction(0, 0)] && e.ops == ops + [JmpZer];
    OpenKept(ins, ops, open, code, i);
  }

  /** Appending the `JmpZer` of a `[` and pushing its index keeps the invariant, one character further on. */
  lemma OpenKept(ins: seq<Instruction>, ops: seq<Op>, open: seq<nat>, code: String, i: nat)
    requires i < |code| && code[i] == '[' && Inv(ins, ops, open, 0, code, i) && Io(ins, ops, code, i)
    ensures Inv(ins + [Instruction(0, 0)], ops + [JmpZer], open + [|ins|], 0, code, i + 1)
    ensures Io(ins + [Instruction(0, 0)], ops + [JmpZer], code, i + 1)
  {
    AppendOpenKept(ins, ops, open);
    MoveTotalSnoc(ins, ops, Instruction(0, 0), JmpZer);
    KindsInSame(ops, ops + [JmpZer], 0, |ops|);
    AppendIo(ins, ops, Instruction(0, 0), JmpZer, code, i);
    AdvanceBracket(code, i);
  }

  /**
   * `]` with an open `[`: flush, pop the innermost open `[`, give its
   * `JmpZer` the distance `size - start`, and append a `JmpNotZer` with the same distance.
   */
  method CloseBracket(e: Emitter, code: String, i: nat, offset: int, open: seq<nat>)
    returns (open2: seq<nat>)
    requires e.Valid() && i < |code| && code[i] == ']' && open != [] && Inv(e.instructions, e.ops, open, offset, code, i)
    requires Io(e.instructions, e.ops, code, i)
    modifies e
    ensures e.Valid() && Inv(e.instructions, e.ops, open2, 0, code, i + 1) && Io(e.instructions, e.ops, code, i + 1)
    ensures var (ins, ops) := Flush(old(e.instructions), old(e.ops), offset);
      var start := open[|open| - 1];
      start < |ins|
      && e.instructions == ins[start := ins[start].(data := |ins| - start)] + [Instruction(|ins| - start, 0)]
      && e.ops == ops + [JmpNotZer] && open2 == open[..|open| - 1]
  {
    MoveOffset(e, offset, open, code, i);
    var start := open[|open| - 1];
    var distance := |e.instructions| - start;
    open2 := open[..|open| - 1];
    ghost var ins := e.instructions;
    ghost var ops := e.ops;
    e.instructions := e.instructions[start := e.instructions[start].(data := distance)];
    JumpAppends(e.instructions, ops, Instruction(distance, 0), e.width);
    e.Emit(JmpNotZer, Instruction(distance, 0));
    CloseStep(ins, ops, open, code, i, e.instructions, e.ops);
    CloseIo(ins, ops, start, code, i);
  }

  /** Patching a `JmpZer` and appending a `JmpNotZer` at a `]` keeps the input and output. */
  lemma CloseIo(ins: seq<Instruction>, ops: seq<Op>, start: nat, code: String, i: nat)
    requires Io(ins, ops, code, i) && start < |ins| && ops[start] == JmpZer && i < |code| && code[i] == ']'
    ensures Io(ins[start := ins[start].(data := |ins| - start)] + [Instruction(|ins| - start, 0)], ops + [JmpNotZer], code, i + 1)
  {
    var mid := ins[start := ins[start].(data := |ins| - start)];
    OperandSumSame(ins, ops, mid, PutChr);
    AppendIo(mid, ops, Instruction(|ins| - start, 0), JmpNotZer, code, i);
    AdvanceBracket(code, i);
  }

  /** A jump is always appended: it is not a write, so it merges with nothing. */
  lemma JumpAppends(ins: seq<Instruction>, ops: seq<Op>, inst: Instruction, w: Width)
    requires |ins| == |ops|
    ensures Emitted(ins, ops, JmpNotZer, inst, w) == (ins + [inst], ops + [JmpNotZer])
  {
  }

  /** Closing the innermost loop at a `]` keeps the invariant, one character further on. */
  lemma CloseStep(ins: seq<Instruction>, ops: seq<Op>, open: seq<nat>, code: String, i: nat,
                  ins2: seq<Instruction>, ops2: seq<Op>)
    requires i < |code| && code[i] == ']' && open != [] && Inv(ins, ops, open, 0, code, i)
    requires var start := open[|open| - 1];
      ins2 == ins[start := ins[start].(data := |ins| - start)] + [Instruction(|ins| - start, 0)]
    requires ops2 == ops + [JmpNotZer]
    ensures Inv(ins2, ops2, open[..|open| - 1], 0, code, i + 1)
  {
    CloseKept(ins, ops, open, ins2, ops2);
    AdvanceBracket(code, i);
  }

  /** `,` and `C` emit at the pending offset; `S` and any other character emit nothing. */
  method OtherChar(e: Emitter, code: String, i: nat, offset: int, ghost open: seq<nat>) returns (next: nat)
    requires e.Valid() && i < |code| && Inv(e.instructions, e.ops, open, offset, code, i)
    requires Io(e.instructions, e.ops, code, i)
    requires code[i] != '+' && code[i] != '-' && code[i] != '.' && code[i] != '>' && code[i] != '<'
    requires code[i] != '[' && code[i] != ']'
    modifies e
    ensures e.Valid() && next == i + 1 && Inv(e.instructions, e.ops, open, offset, code, next)
    ensures Io(e.instructions, e.ops, code, next)
    ensures code[i] == ',' ==>
      (e.instructions, e.ops) == Emitted(old(e.instructions), old(e.ops), RadChr, Instruction(0, offset), e.width)
    ensures code[i] == 'C' ==>
      (e.instructions, e.ops) == Emitted(old(e.instructions), old(e.ops), Clr, Instruction(0, offset), e.width)
    ensures code[i] != ',' && code[i] != 'C' ==> e.instructions == old(e.instructions) && e.ops == old(e.ops)
  {
    ghost var ins, ops := e.instructions, e.ops;
    var c := code[i];
    next := i + 1;
    if c == ',' || c == 'C' {
      var op := if c == ',' then RadChr else Clr;
      e.Emit(op, Instruction(0, offset));
      EmitInv(ins, ops, open, offset, code, i, next, c, op, Instruction(0, offset), e.width);
      OtherIo(ins, ops, code, i, op, offset, e.width);
    } else {
      InvRun(ins, ops, open, offset, code, i, next, c);
      RunAdvance(code, i, next, c);
    }
  }

  /** A `,` is tallied as one `RadChr`; a `C` changes neither tally. */
  lemma OtherIo(ins: seq<Instruction>, ops: seq<Op>, code: String, i: nat, op: Op, offset: int, w: Width)
    requires Io(ins, ops, code, i) && i < |code| && (code[i] == ',' || code[i] == 'C')
    requires op == if code[i] == ',' then RadChr else Clr
    ensures Io(Emitted(ins, ops, op, Instruction(0, offset), w).0, Emitted(ins, ops, op, Instruction(0, offset), w).1, code, i + 1)
  {
    EmitTally(ins, ops, op, Instruction(0, offset), w);
    RunAdvance(code, i, i + 1, code[i]);
  }

  /** Consuming a run of one character that neither moves the pointer nor is a bracket keeps the invariant. */
  lemma InvRun(ins: seq<Instruction>, ops: seq<Op>, open: seq<nat>, offset: int, code: String, i: nat, next: nat, c: char)
    requires i < next <= |code| && Inv(ins, ops, open, offset, code, i)
    requires c != '>' && c != '<' && c != '[' && c != ']'
    requires forall k :: i <= k < next ==> code[k] == c
    ensures Inv(ins, ops, open, offset, code, next)
  {
    RunAdvance(code, i, next, c);
  }

  /** The result of translation: the instruction and opcode vectors, or the error code returned. */
  datatype Translation = Program(instructions: seq<Instruction>, ops: seq<Op>) | Failure(code: int)

  /**
   * The translation loop of `executeImpl` over text free of the letters
   * `P`, `R` and `L` (whose operands come from the regular-expression
   * passes). It fails with 1 at the first `]` without an open `[`, and with 2
   * when a `[` is still open at the end; otherwise every jump pair carries
   * the distance between its two ends, every pointer move is nonzero, the
   * pointer moves add up (modulo 2^16) to the surplus of `>` over `<`, and
   * the program ends with `End`.
   */
  method Translate(code: String, w: Width) returns (r: Translation)
    requires forall k :: 0 <= k < |code| ==> code[k] != 'P' && code[k] != 'R' && code[k] != 'L'
    ensures r == Failure(1) <==> Depths(code) == None
    ensures r == Failure(2) <==> Depths(code).Some? && Depths(code).value > 0
    ensures r.Program? <==> Depths(code) == Some(0)
    ensures r.Program? ==>
      |r.instructions| == |r.ops| && r.ops != [] && r.ops[|r.ops| - 1] == End
      && Kinds(r.ops) == Brackets(code)
      && Paired(r.instructions, r.ops, []) && MovesNonzero(r.instructions, r.ops)
      && (MoveTotal(r.instructions, r.ops) - Shared.Net(code, '>', '<')) % 0x1_0000 == 0
      && OperandSum(r.instructions, r.ops, PutChr) == Count(code, '.')
      && OpCount(r.ops, RadChr) == Count(code, ',')
  {
    var e := new Emitter(w);
    var failed, open, offset := Scan(e, code);
    if failed {
      return Failure(1);
    }
    assert code[..|code|] == code;
    r := Finish(e, code, offset, open);
  }

  /** The loop over the characters of `code`; `failed` is the early `return 1`. */
  method Scan(e: Emitter, code: String) returns (failed: bool, open: seq<nat>, offset: int)
    requires e.Valid() && e.instructions == [] && e.ops == []
    requires forall k :: 0 <= k < |code| ==> code[k] != 'P' && code[k] != 'R' && code[k] != 'L'
    modifies e
    ensures e.Valid()
    ensures failed ==> Depths(code) == None
    ensures !failed ==> Inv(e.instructions, e.ops, open, offset, code, |code|) && Io(e.instructions, e.ops, code, |code|)
  {
    open, offset, failed := [], 0, false;
    var setNext := false;
    var i := 0;
    assert code[..0] == [];
    while i < |code|
      invariant e.Valid() && Inv(e.instructions, e.ops, open, offset, code, i)
      invariant Io(e.instructions, e.ops, code, i)
      decreases |code| - i
    {
      i, offset, setNext, open, failed := Step(e, code, i, offset, setNext, open);
      if failed {
        return;
      }
    }
  }

  /**
   * The translation loop of the interpreter with one-byte cells: the same
   * loop with `uint8_t` casts, so the same outcome and the same relative jumps.
   */
  method TranslateBytes(code: String) returns (r: Translation)
    requires forall k :: 0 <= k < |code| ==> code[k] != 'P' && code[k] != 'R' && code[k] != 'L'
    ensures r == Failure(1) <==> Depths(code) == None
    ensures r == Failure(2) <==> Depths(code).Some? && Depths(code).value > 0
    ensures r.Program? <==> Depths(code) == Some(0)
    ensures r.Program? ==>
      |r.instructions| == |r.ops| && r.ops != [] && r.ops[|r.ops| - 1] == End
      && Kinds(r.ops) == Brackets(code)
      && Paired(r.instructions, r.ops, []) && MovesNonzero(r.instructions, r.ops)
      && (MoveTotal(r.instructions, r.ops) - Shared.Net(code, '>', '<')) % 0x1_0000 == 0
      && OperandSum(r.instructions, r.ops, PutChr) == Count(code, '.')
      && OpCount(r.ops, RadChr) == Count(code, ',')
  {
    r := Translate(code, W8);
  }

  /** One pass of the `switch` in the translation loop; `failed` is the early `return 1`. */
  method Step(e: Emitter, code: String, i: nat, offset: int, setNext: bool, open: seq<nat>)
    returns (next: nat, offset2: int, setNext2: bool, open2: seq<nat>, failed: bool)
    requires e.Valid() && i < |code| && Inv(e.instructions, e.ops, open, offset, code, i)
    requires Io(e.instructions, e.ops, code, i)
    requires code[i] != 'P' && code[i] != 'R' && code[i] != 'L'
    modifies e
    ensures e.Valid()
    ensures failed ==> Depths(code) == None
    ensures !failed ==> i < next <= |code| && Inv(e.instructions, e.ops, open2, offset2, code, next)
                        && Io(e.instructions, e.ops, code, next)
  {
    var c := code[i];
    offset2, setNext2, open2, failed := offset, setNext, open, false;
    if c == '+' || c == '-' || c == '.' {
      next := EmitRun(e, code, i, offset, setNext, open);
      if c != '.' {
        setNext2 := false;
      }
    } else if c == '>' || c == '<' {
      next, offset2 := MoveRun(code, i, offset, e.instructions, e.ops, open);
    } else if c == '[' {
      open2 := OpenBracket(e, code, i, offset, open);
      offset2 := 0;
      next := i + 1;
    } else if c == ']' {
      if open == [] {
        Unmatched(code, i);
        return i + 1, offset, setNext, open, true;
      }
      open2 := CloseBracket(e, code, i, offset, open);
      offset2 := 0;
      next := i + 1;
    } else {
      next := OtherChar(e, code, i, offset, open);
      if c == 'S' {
        setNext2 := true;
      }
    }
  }

  /** A `]` reached at depth 0 leaves `code` unbalanced, whatever follows. */
  lemma Unmatched(code: String, i: nat)
    requires i < |code| && code[i] == ']' && Depths(code[..i]) == Some(0)
    ensures Depths(code) == None
  {
    AdvanceBracket(code, i);
    DepthsStuck(code[..i + 1], code[i + 1..]);
    assert code[..i + 1] + code[i + 1..] == code;
  }

  /**
   * A complete translation of `code`: parallel vectors ending in `End`;
   * the jumps, in order, are the brackets of `code`, and each `JmpZer` is
   * paired with its matching `JmpNotZer` by the distance between them; every
   * pointer move is nonzero and the moves add up (modulo 2^16) to the surplus
   * of `>` over `<`; the `PutChr` counts add up to the `.` of `code`, and
   * there is one `RadChr` per `,`.
   */
  ghost predicate Finished(ins: seq<Instruction>, ops: seq<Op>, code: String)
  {
    |ins| == |ops| && ops != [] && ops[|ops| - 1] == End
    && Kinds(ops) == Brackets(code)
    && Paired(ins, ops, []) && MovesNonzero(ins, ops)
    && (MoveTotal(ins, ops) - Shared.Net(code, '>', '<')) % 0x1_0000 == 0
    && OperandSum(ins, ops, PutChr) == Count(code, '.')
    && OpCount(ops, RadChr) == Count(code, ',')
  }

  /** After the loop: flush the offset, append `End`, and return 2 if a `[` is still open. */
  method Finish(e: Emitter, code: String, offset: int, open: seq<nat>) returns (r: Translation)
    requires e.Valid() && Inv(e.instructions, e.ops, open, offset, code, |code|)
    requires Io(e.instructions, e.ops, code, |code|)
    modifies e
    ensures r == Failure(2) <==> |open| > 0
    ensures r.Program? <==> |open| == 0
    ensures r.Program? ==> Finished(r.instructions, r.ops, code)
  {
    MoveOffset(e, offset, open, code, |code|);
    ghost var ins := e.instructions;
    ghost var ops := e.ops;
    e.Emit(End, Instruction(0, 0));
    if open != [] {
      return Failure(2);
    }
    assert e.instructions == ins + [Instruction(0, 0)] && e.ops == ops + [End];
    EndKept(ins, ops, code);
    r := Program(e.instructions, e.ops);
  }

  /** Appending `End` to a translation with no open bracket finishes it. */
  lemma EndKept(ins: seq<Instruction>, ops: seq<Op>, code: String)
    requires Inv(ins, ops, [], 0, code, |code|) && Io(ins, ops, code, |code|)
    ensures Finished(ins + [Instruction(0, 0)], ops + [End], code)
  {
    AppendIo(ins, ops, Instruction(0, 0), End, code, |code|);
    AppendKeepsStructure(ins, ops, Instruction(0, 0), End);
    StructureKept(ins, ops, ins + [Instruction(0, 0)], ops + [End], []);
    assert code[..|code|] == code;
  }
}
