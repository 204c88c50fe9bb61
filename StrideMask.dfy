/**
 * Lane masks of the strided zero scans (`simdScan0FwdStride`,
 * `simdScan0BackStride`). A vector compare followed by `movemask` gives one
 * bit per byte; the scan keeps the bits of the cells it may stop on: lane i
 * of a block whose first cell has phase `phase` is a stop when
 * `(i + phase) % step == 0`.
 *
 * A `uint32_t` (or `uint16_t`) mask is modelled as its sequence of bits,
 * least significant first: bit k of the C++ value is `m[k]`, and `|m|` is the
 * width. Shifts drop the bits pushed past the width, as unsigned shifts do.
 */
module StrideMask {
  import Arith

  // ---------------------------------------------------------------------
  // Words as bit sequences
  // ---------------------------------------------------------------------

  /** Mask widths: 32 bits for 256-bit vectors, 16 for 128-bit ones. */
  predicate ValidWidth(w: nat)
  {
    w == 32 || w == 16
  }

  /** Cell sizes of the tape: `uint8_t`, `uint16_t`, `uint32_t`. */
  predicate ValidBytes(bytes: nat)
  {
    bytes == 1 || bytes == 2 || bytes == 4
  }

  function Zero(w: nat): (r: seq<bool>)
    ensures |r| == w && forall k :: 0 <= k < w ==> !r[k]
  {
    seq(w, _ => false)
  }

  /** `a | b` */
  function Or(a: seq<bool>, b: seq<bool>): (r: seq<bool>)
    requires |a| == |b|
    ensures |r| == |a| && forall k :: 0 <= k < |a| ==> r[k] == (a[k] || b[k])
  {
    seq(|a|, k requires 0 <= k < |a| => a[k] || b[k])
  }

  /** `a & b` */
  function And(a: seq<bool>, b: seq<bool>): (r: seq<bool>)
    requires |a| == |b|
    ensures |r| == |a| && forall k :: 0 <= k < |a| ==> r[k] == (a[k] && b[k])
  {
    seq(|a|, k requires 0 <= k < |a| => a[k] && b[k])
  }

  /** `a << n` within the width of `a`. */
  function Shl(a: seq<bool>, n: nat): (r: seq<bool>)
    ensures |r| == |a| && forall k :: 0 <= k < |a| ==> r[k] == (n <= k && a[k - n])
  {
    seq(|a|, k requires 0 <= k < |a| => n <= k && a[k - n])
  }

  /** Logical `a >> n`. */
  function Shr(a: seq<bool>, n: nat): (r: seq<bool>)
    ensures |r| == |a| && forall k :: 0 <= k < |a| ==> r[k] == (k + n < |a| && a[k + n])
  {
    seq(|a|, k requires 0 <= k < |a| => k + n < |a| && a[k + n])
  }

  /** `(1 << n) - 1`: the lane pattern `1u`, `3u`, `15u` for n = 1, 2, 4. */
  function LowBits(w: nat, n: nat): (r: seq<bool>)
    ensures |r| == w && forall k :: 0 <= k < w ==> r[k] == (k < n)
  {
    seq(w, k => k < n)
  }

  /**
   * One set bit every `period` bits from bit 0: `0x55555555`, `0x11111111`
   * and `0x01010101` for periods 2, 4, 8 (and their 16-bit halves).
   */
  function Periodic(w: nat, period: nat): (r: seq<bool>)
    requires period > 0
    ensures |r| == w && forall k :: 0 <= k < w ==> r[k] == (k % period == 0)
  {
    seq(w, k requires 0 <= k => k % period == 0)
  }

  /** Number of set bits. */
  function Popcount(m: seq<bool>): (r: nat)
    ensures r <= |m|
  {
    if |m| == 0 then 0 else Popcount(m[..|m| - 1]) + (if m[|m| - 1] then 1 else 0)
  }

  lemma {:induction false} PopcountConcat(a: seq<bool>, b: seq<bool>)
    ensures Popcount(a + b) == Popcount(a) + Popcount(b)
    decreases |b|
  {
    if |b| == 0 {
      assert a + b == a;
    } else {
      assert (a + b)[..|a + b| - 1] == a + b[..|b| - 1];
      PopcountConcat(a, b[..|b| - 1]);
    }
  }

  // ---------------------------------------------------------------------
  // Lanes and the intended mask
  // ---------------------------------------------------------------------

  /** Lane holding bit k: each cell of `bytes` bytes owns `bytes` mask bits. */
  function LaneOf(bytes: nat, k: nat): nat
    requires ValidBytes(bytes)
  {
    if bytes == 1 then k else if bytes == 2 then k / 2 else k / 4
  }

  /** `lanes = W / Bytes` */
  function Lanes(w: nat, bytes: nat): nat
    requires ValidBytes(bytes)
  {
    if bytes == 1 then w else if bytes == 2 then w / 2 else w / 4
  }

  /** Bits `[i * bytes, (i + 1) * bytes)` are exactly the bits of lane i. */
  lemma LaneSpan(bytes: nat, i: nat, k: nat)
    requires ValidBytes(bytes)
    ensures i * bytes <= k < i * bytes + bytes <==> LaneOf(bytes, k) == i
  {
    if bytes == 1 {
      assert i * bytes == i;
    } else if bytes == 2 {
      assert i * bytes == 2 * i;
    } else {
      assert i * bytes == 4 * i;
    }
  }

  lemma LanesCover(w: nat, bytes: nat, k: nat)
    requires ValidWidth(w) && ValidBytes(bytes) && k < w
    ensures LaneOf(bytes, k) < Lanes(w, bytes)
    ensures Lanes(w, bytes) * bytes == w
  {
    if bytes == 2 {
      assert Lanes(w, bytes) * bytes == 2 * Lanes(w, bytes);
    } else if bytes == 4 {
      assert Lanes(w, bytes) * bytes == 4 * Lanes(w, bytes);
    }
  }

  /** Lane i is a stop of a block whose first cell has phase `phase`. */
  predicate Selected(step: nat, phase: nat, i: nat)
    requires step > 0
  {
    (i + phase) % step == 0
  }

  /**
   * The mask the scans need: every bit of every lane i with
   * `(i + phase) % step == 0`, and nothing else.
   */
  function StrideBits(w: nat, bytes: nat, step: nat, phase: nat): (r: seq<bool>)
    requires ValidBytes(bytes) && step > 0
    ensures |r| == w
    ensures forall k :: 0 <= k < w ==> r[k] == Selected(step, phase, LaneOf(bytes, k))
  {
    seq(w, k requires 0 <= k => Selected(step, phase, LaneOf(bytes, k)))
  }

  // ---------------------------------------------------------------------
  // Construction loops
  // ---------------------------------------------------------------------

  /**
   * The lane loop shared by the table initializer, `legacyStrideMask32`, the
   * general path of `strideMask32/16` and `stride_mask_32/16`: for each lane
   * i with `(i + phase) % step == 0`, or the lane pattern in at bit
   * `i * bytes`.
   */
  method LaneLoop(w: nat, bytes: nat, step: nat, phase: nat) returns (m: seq<bool>)
    requires ValidWidth(w) && ValidBytes(bytes) && step > 0
    ensures m == StrideBits(w, bytes, step, phase)
  {
    m := Zero(w);
    var lanes := Lanes(w, bytes);
    var pattern := LowBits(w, bytes);
    var i := 0;
    while i < lanes
      invariant 0 <= i <= lanes && |m| == w
      invariant forall k :: 0 <= k < w ==>
        m[k] == (LaneOf(bytes, k) < i && Selected(step, phase, LaneOf(bytes, k)))
    {
      if (i + phase) % step == 0 {
        var bit := i * bytes;
        ghost var before := m;
        m := Or(m, Shl(pattern, bit));
        forall k | 0 <= k < w
          ensures m[k] == (LaneOf(bytes, k) < i + 1 && Selected(step, phase, LaneOf(bytes, k)))
        {
          LaneSpan(bytes, i, k);
        }
      }
      i := i + 1;
    }
    forall k | 0 <= k < w
      ensures m[k] == StrideBits(w, bytes, step, phase)[k]
    {
      LanesCover(w, bytes, k);
    }
  }

  /**
   * `StrideMask32Table<Bytes, Step>::masks`: entry `phase` is the mask of
   * that phase, for every phase below `Step`.
   */
  method BuildTable(bytes: nat, step: nat) returns (masks: seq<seq<bool>>)
    requires ValidBytes(bytes) && step > 0
    ensures |masks| == step
    ensures forall p :: 0 <= p < step ==> masks[p] == StrideBits(32, bytes, step, p)
  {
    masks := seq(step, _ => Zero(32));
    var phase := 0;
    while phase < step
      invariant 0 <= phase <= step && |masks| == step
      invariant forall p :: 0 <= p < phase ==> masks[p] == StrideBits(32, bytes, step, p)
    {
      var m := LaneLoop(32, bytes, step, phase);
      masks := masks[phase := m];
      phase := phase + 1;
    }
  }

  // ---------------------------------------------------------------------
  // Table lookup
  // ---------------------------------------------------------------------

  function Pow2(k: nat): (r: nat)
    ensures r >= 1
  {
    if k == 0 then 1 else 2 * Pow2(k - 1)
  }

  /** `x & y` on unsigned values, bit by bit from the least significant. */
  function BitAnd(x: nat, y: nat): nat
    decreases x
  {
    if x == 0 || y == 0 then 0
    else 2 * BitAnd(x / 2, y / 2) + (if x % 2 == 1 && y % 2 == 1 then 1 else 0)
  }

  /** A mask never exceeds the value it masks with. */
  lemma {:induction false} BitAndBound(x: nat, y: nat)
    ensures BitAnd(x, y) <= y
    decreases x
  {
    if x != 0 && y != 0 {
      BitAndBound(x / 2, y / 2);
    }
  }

  lemma HalfMod(x: nat, p: nat)
    requires p > 0
    ensures x % (2 * p) == 2 * ((x / 2) % p) + x % 2
  {
    var q := (x / 2) / p;
    var r := (x / 2) % p;
    assert x == 2 * (x / 2) + x % 2;
    assert x / 2 == p * q + r;
    assert 2 * (p * q) == (2 * p) * q;
    Arith.ModUnique(x, 2 * p, q, 2 * r + x % 2);
  }

  /** For a power-of-two `Step`, `phase & (Step - 1)` is `phase % Step`. */
  lemma {:induction false} BitAndLowMask(x: nat, k: nat)
    ensures BitAnd(x, Pow2(k) - 1) == x % Pow2(k)
    decreases k
  {
    if k > 0 && x > 0 {
      var p := Pow2(k - 1);
      var h := x / 2;
      BitAndLowMask(h, k - 1);
      assert Pow2(k) == 2 * p;
      var y := Pow2(k) - 1;
      Arith.ModUnique(y, 2, p - 1, 1);
      BitAndOdd(x, y);
      HalfMod(x, p);
    } else if k == 0 {
      Arith.ModUnique(x, 1, x, 0);
    } else {
      Arith.ModUnique(0, Pow2(k), 0, 0);
    }
  }

  /** Masking with an odd value keeps the lowest bit. */
  lemma BitAndOdd(x: nat, y: nat)
    requires x > 0 && y % 2 == 1
    ensures BitAnd(x, y) == 2 * BitAnd(x / 2, y / 2) + x % 2
  {
  }

  /** `(a + b % s) % s == (a + b) % s` */
  lemma AddMod(a: nat, b: nat, s: nat)
    requires s > 0
    ensures (a + b % s) % s == (a + b) % s
  {
    var q, r := (a + b % s) / s, (a + b % s) % s;
    assert b == s * (b / s) + b % s;
    assert a + b % s == s * q + r;
    assert s * q + s * (b / s) == s * (q + b / s);
    Arith.ModUnique(a + b, s, q + b / s, r);
  }

  /** A mask depends on the phase only modulo the step. */
  lemma StrideBitsPeriodic(w: nat, bytes: nat, step: nat, phase: nat)
    requires ValidBytes(bytes) && step > 0
    ensures StrideBits(w, bytes, step, phase % step) == StrideBits(w, bytes, step, phase)
  {
    forall k | 0 <= k < w
      ensures Selected(step, phase % step, LaneOf(bytes, k)) == Selected(step, phase, LaneOf(bytes, k))
    {
      AddMod(LaneOf(bytes, k), phase, step);
    }
  }

  /**
   * `strideMask32<Bytes, Step>(phase)`: the table entry at `phase & (Step - 1)`.
   * The index is always in range, and for a power-of-two `Step` the entry is
   * the mask of `phase` itself, whatever its size.
   */
  function Lookup(masks: seq<seq<bool>>, step: nat, phase: nat): (r: seq<bool>)
    requires step > 0 && |masks| == step
    ensures BitAnd(phase, step - 1) < step
  {
    BitAndBound(phase, step - 1);
    masks[BitAnd(phase, step - 1)]
  }

  lemma LookupSelects(masks: seq<seq<bool>>, bytes: nat, k: nat, phase: nat)
    requires ValidBytes(bytes) && |masks| == Pow2(k)
    requires forall p :: 0 <= p < Pow2(k) ==> masks[p] == StrideBits(32, bytes, Pow2(k), p)
    ensures Lookup(masks, Pow2(k), phase) == StrideBits(32, bytes, Pow2(k), phase)
  {
    BitAndLowMask(phase, k);
    StrideBitsPeriodic(32, bytes, Pow2(k), phase);
  }

  // ---------------------------------------------------------------------
  // The Bytes == 1 shortcut
  // ---------------------------------------------------------------------

  predicate ShortcutStep(step: nat)
  {
    step == 2 || step == 4 || step == 8
  }

  /**
   * The shortcut as written for one-byte cells: `0x55555555u << phase`,
   * `0x11111111u << phase`, `0x01010101u << phase` (and the 16-bit
   * `uint16_t(0x5555u << phase)` forms). It sets the lanes i with
   * `i >= phase` and `(i - phase) % step == 0`.
   */
  function ShortcutAsWritten(w: nat, step: nat, phase: nat): seq<bool>
    requires ShortcutStep(step)
  {
    Shl(Periodic(w, step), phase)
  }

  /** The shortcut shifted to the lanes the loop selects. */
  function ShortcutCorrected(w: nat, step: nat, phase: nat): seq<bool>
    requires ShortcutStep(step)
  {
    Shl(Periodic(w, step), (step - phase % step) % step)
  }

  /**
   * `strideMask32<Bytes>` / `strideMask16<Bytes>` and `legacyStrideMask32`
   * as written: the shortcut for one-byte cells and steps 2, 4, 8, the lane
   * loop otherwise.
   */
  method StrideMaskAsWritten(w: nat, bytes: nat, step: nat, phase: nat) returns (m: seq<bool>)
    requires ValidWidth(w) && ValidBytes(bytes) && step > 0
    ensures bytes == 1 && ShortcutStep(step) ==> m == ShortcutAsWritten(w, step, phase)
    ensures !(bytes == 1 && ShortcutStep(step)) ==> m == StrideBits(w, bytes, step, phase)
  {
    if bytes == 1 {
      if step == 2 {
        return Shl(Periodic(w, 2), phase);
      }
      if step == 4 {
        return Shl(Periodic(w, 4), phase);
      }
      if step == 8 {
        return Shl(Periodic(w, 8), phase);
      }
    }
    m := LaneLoop(w, bytes, step, phase);
  }

  /** The same function with the shortcut shifted correctly: always the lane-loop mask. */
  method StrideMaskCorrected(w: nat, bytes: nat, step: nat, phase: nat) returns (m: seq<bool>)
    requires ValidWidth(w) && ValidBytes(bytes) && step > 0
    ensures m == StrideBits(w, bytes, step, phase)
  {
    if bytes == 1 && ShortcutStep(step) {
      m := ShortcutCorrected(w, step, phase);
      ShortcutCorrectedSelects(w, step, phase);
    } else {
      m := LaneLoop(w, bytes, step, phase);
    }
  }

  /** `(i + phase) % step == 0` for small steps, as a statement about residues. */
  lemma SelectedResidue(step: nat, phase: nat, i: nat)
    requires ShortcutStep(step)
    ensures Selected(step, phase, i) <==> i % step == (step - phase % step) % step
  {
    if step == 2 {
      Residue2(phase, i);
    } else if step == 4 {
      Residue4(phase, i);
    } else {
      Residue8(phase, i);
    }
  }

  lemma Residue2(phase: nat, i: nat)
    ensures (i + phase) % 2 == 0 <==> i % 2 == (2 - phase % 2) % 2
  {
  }

  lemma Residue4(phase: nat, i: nat)
    ensures (i + phase) % 4 == 0 <==> i % 4 == (4 - phase % 4) % 4
  {
  }

  lemma Residue8(phase: nat, i: nat)
    ensures (i + phase) % 8 == 0 <==> i % 8 == (8 - phase % 8) % 8
  {
  }

  /** Bit k of `Periodic << t`, for a shift below the period. */
  lemma ShiftedPeriodic(step: nat, t: nat, k: nat)
    requires ShortcutStep(step) && t < step
    ensures (t <= k && (k - t) % step == 0) <==> k % step == t
  {
    if step == 2 {
      Shifted2(t, k);
    } else if step == 4 {
      Shifted4(t, k);
    } else {
      Shifted8(t, k);
    }
  }

  lemma Shifted2(t: nat, k: nat)
    requires t < 2
    ensures (t <= k && (k - t) % 2 == 0) <==> k % 2 == t
  {
  }

  lemma Shifted4(t: nat, k: nat)
    requires t < 4
    ensures (t <= k && (k - t) % 4 == 0) <==> k % 4 == t
  {
  }

  lemma Shifted8(t: nat, k: nat)
    requires t < 8
    ensures (t <= k && (k - t) % 8 == 0) <==> k % 8 == t
  {
  }

  lemma ShortcutCorrectedSelects(w: nat, step: nat, phase: nat)
    requires ShortcutStep(step)
    ensures ShortcutCorrected(w, step, phase) == StrideBits(w, 1, step, phase)
  {
    var t := (step - phase % step) % step;
    forall k | 0 <= k < w
      ensures ShortcutCorrected(w, step, phase)[k] == StrideBits(w, 1, step, phase)[k]
    {
      SelectedResidue(step, phase, k);
      ShiftedPeriodic(step, t, k);
    }
  }

  /**
   * The shortcut as written agrees with the lane loop exactly when the
   * phase is 0 or half the step; for any other phase it selects the
   * mirrored lanes.
   */
  lemma ShortcutAgreesIff(w: nat, step: nat, phase: nat)
    requires ValidWidth(w) && ShortcutStep(step) && phase < step
    ensures ShortcutAsWritten(w, step, phase) == StrideBits(w, 1, step, phase)
      <==> phase == 0 || 2 * phase == step
  {
    assert phase % step == phase;
    var t := (step - phase) % step;
    if phase == 0 || 2 * phase == step {
      assert t == phase;
      assert ShortcutAsWritten(w, step, phase) == ShortcutCorrected(w, step, phase);
      ShortcutCorrectedSelects(w, step, phase);
    } else {
      assert t == step - phase && t != phase;
      SelectedResidue(step, phase, t);
      assert StrideBits(w, 1, step, phase)[t];
      ShiftedPeriodic(step, phase, t);
      assert !ShortcutAsWritten(w, step, phase)[t];
    }
  }

  /**
   * Step 4, phase 1: the shortcut gives `0x22222222` (lanes 1, 5, 9, ...)
   * where the loop gives `0x88888888` (lanes 3, 7, 11, ...).
   */
  lemma ShortcutCounterexample()
    ensures ShortcutAsWritten(32, 4, 1) == seq(32, k => k % 4 == 1)
    ensures StrideBits(32, 1, 4, 1) == seq(32, k => k % 4 == 3)
    ensures ShortcutAsWritten(32, 4, 1) != StrideBits(32, 1, 4, 1)
  {
    assert ShortcutAsWritten(32, 4, 1)[1] != StrideBits(32, 1, 4, 1)[1];
  }

  // ---------------------------------------------------------------------
  // Population count
  // ---------------------------------------------------------------------

  /** Number of lanes below n that are stops. */
  function CountSelected(step: nat, phase: nat, n: nat): nat
    requires step > 0
  {
    if n == 0 then 0 else CountSelected(step, phase, n - 1) + (if Selected(step, phase, n - 1) then 1 else 0)
  }

  lemma AddPeriod(y: nat, s: nat)
    requires s > 0
    ensures (y + s) % s == y % s
  {
    Arith.ModUnique(y + s, s, y / s + 1, y % s);
  }

  /** Exactly one of the first `step` lanes is a stop. */
  lemma {:induction false} FirstBlock(step: nat, phase: nat, n: nat)
    requires step > 0 && phase < step && n <= step
    ensures CountSelected(step, phase, n) == if (step - phase) % step < n then 1 else 0
  {
    if n > 0 {
      FirstBlock(step, phase, n - 1);
      var i := n - 1;
      Arith.ModUnique(i + phase, step, if i + phase < step then 0 else 1, if i + phase < step then i + phase else i + phase - step);
      Arith.ModUnique(step - phase, step, if phase == 0 then 1 else 0, if phase == 0 then 0 else step - phase);
    }
  }

  /** Every window of `step` consecutive lanes holds exactly one stop. */
  lemma {:induction false} Window(step: nat, phase: nat, c: nat)
    requires step > 0 && phase < step
    ensures CountSelected(step, phase, c + step) == CountSelected(step, phase, c) + 1
  {
    if c == 0 {
      FirstBlock(step, phase, step);
    } else {
      Window(step, phase, c - 1);
      AddPeriod(c - 1 + phase, step);
      assert c - 1 + step + phase == (c - 1 + phase) + step;
    }
  }

  lemma {:induction false} Blocks(step: nat, phase: nat, c: nat)
    requires step > 0 && phase < step
    ensures CountSelected(step, phase, c * step) == c
  {
    if c > 0 {
      Blocks(step, phase, c - 1);
      assert c * step == (c - 1) * step + step;
      Window(step, phase, (c - 1) * step);
    }
  }

  /** Adding lane n - 1 appends its `bytes` bits, all equal to its stop flag. */
  lemma StrideBitsExtend(bytes: nat, step: nat, phase: nat, n: nat)
    requires ValidBytes(bytes) && step > 0 && n > 0
    ensures (n - 1) * bytes + bytes == n * bytes
    ensures StrideBits(n * bytes, bytes, step, phase)
      == StrideBits((n - 1) * bytes, bytes, step, phase) + seq(bytes, _ => Selected(step, phase, n - 1))
  {
    var lo := StrideBits((n - 1) * bytes, bytes, step, phase);
    var all := StrideBits(n * bytes, bytes, step, phase);
    var block := seq(bytes, _ => Selected(step, phase, n - 1));
    assert n * bytes == (n - 1) * bytes + bytes;
    forall k | 0 <= k < n * bytes
      ensures all[k] == (lo + block)[k]
    {
      LaneSpan(bytes, n - 1, k);
    }
  }

  /** The mask over the first n lanes has `bytes` set bits per stop among them. */
  lemma {:induction false} PopcountLanes(bytes: nat, step: nat, phase: nat, n: nat)
    requires ValidBytes(bytes) && step > 0
    ensures Popcount(StrideBits(n * bytes, bytes, step, phase)) == bytes * CountSelected(step, phase, n)
  {
    if n > 0 {
      PopcountLanes(bytes, step, phase, n - 1);
      var lo := StrideBits((n - 1) * bytes, bytes, step, phase);
      var s := Selected(step, phase, n - 1);
      var block := seq(bytes, _ => s);
      StrideBitsExtend(bytes, step, phase, n);
      PopcountConcat(lo, block);
      UniformPopcount(block, s);
      assert bytes * CountSelected(step, phase, n)
        == bytes * CountSelected(step, phase, n - 1) + (if s then bytes else 0);
    }
  }

  lemma {:induction false} UniformPopcount(block: seq<bool>, s: bool)
    requires forall k :: 0 <= k < |block| ==> block[k] == s
    ensures Popcount(block) == if s then |block| else 0
    decreases |block|
  {
    if |block| > 0 {
      UniformPopcount(block[..|block| - 1], s);
    }
  }

  /**
   * `masks[phase]` has `Bytes * (lanes / Step)` set bits when `Step` divides
   * the lane count: one stop per window of `Step` lanes, `Bytes` bits each.
   */
  lemma StrideMaskPopcount(bytes: nat, step: nat, phase: nat)
    requires ValidBytes(bytes) && step > 0 && phase < step && Lanes(32, bytes) % step == 0
    ensures Popcount(StrideBits(32, bytes, step, phase)) == bytes * (Lanes(32, bytes) / step)
  {
    var lanes := Lanes(32, bytes);
    var c := lanes / step;
    assert lanes == c * step;
    LanesCover(32, bytes, 0);
    PopcountLanes(bytes, step, phase, lanes);
    Blocks(step, phase, c);
  }

  // ---------------------------------------------------------------------
  // Compressing movemask bits to one bit per lane
  // ---------------------------------------------------------------------

  /** Bit k is the lowest bit of its lane. */
  predicate LaneStart(bytes: nat, k: nat)
    requires ValidBytes(bytes)
  {
    if bytes == 1 then true else if bytes == 2 then k % 2 == 0 else k % 4 == 0
  }

  /**
   * `compressMask32<Bytes>` / `compressMask16<Bytes>`: or each lane's bits
   * into its lowest bit and clear the rest.
   */
  function Compress(bytes: nat, m: seq<bool>): seq<bool>
    requires ValidBytes(bytes)
  {
    if bytes == 1 then m
    else if bytes == 2 then And(Or(Shr(m, 1), m), Periodic(|m|, 2))
    else
      var m1 := Or(Shr(m, 1), m);
      var m2 := Or(Shr(m1, 2), m1);
      And(m2, Periodic(|m|, 4))
  }

  /**
   * After compression, bit k is set exactly when it starts a lane and some
   * bit of that lane was set.
   */
  lemma CompressLanes(w: nat, bytes: nat, m: seq<bool>, k: nat)
    requires ValidWidth(w) && ValidBytes(bytes) && |m| == w && k < w
    ensures |Compress(bytes, m)| == w
    ensures Compress(bytes, m)[k] <==>
      LaneStart(bytes, k) && exists t :: k <= t < k + bytes && t < w && m[t]
  {
    if bytes == 1 {
      LaneAny(w, m, k, 1);
    } else if bytes == 2 {
      CompressPairs(w, m, k);
      if k % 2 == 0 {
        LaneAny(w, m, k, 2);
      }
    } else {
      CompressQuads(w, m, k);
      if k % 4 == 0 {
        LaneAny(w, m, k, 4);
      }
    }
  }

  /** Some bit of the lane starting at k is set, spelled out for each lane width. */
  lemma LaneAny(w: nat, m: seq<bool>, k: nat, bytes: nat)
    requires ValidBytes(bytes) && |m| == w && k + bytes <= w
    ensures (exists t :: k <= t < k + bytes && t < w && m[t]) <==>
      if bytes == 1 then m[k]
      else if bytes == 2 then m[k] || m[k + 1]
      else m[k] || m[k + 1] || m[k + 2] || m[k + 3]
  {
    if exists t :: k <= t < k + bytes && t < w && m[t] {
      var t :| k <= t < k + bytes && t < w && m[t];
      assert t == k || t == k + 1 || t == k + 2 || t == k + 3;
    }
  }

  lemma CompressPairs(w: nat, m: seq<bool>, k: nat)
    requires ValidWidth(w) && |m| == w && k < w
    ensures Compress(2, m)[k] <==> k % 2 == 0 && (m[k] || (k + 1 < w && m[k + 1]))
    ensures k % 2 == 0 ==> k + 1 < w
  {
  }

  lemma CompressQuads(w: nat, m: seq<bool>, k: nat)
    requires ValidWidth(w) && |m| == w && k < w
    ensures k % 4 == 0 ==> k + 3 < w
    ensures Compress(4, m)[k] <==> k % 4 == 0 && (m[k] || m[k + 1] || m[k + 2] || m[k + 3])
  {
    if k % 4 == 0 {
      assert k + 3 < w;
      var m1 := Or(Shr(m, 1), m);
      assert m1[k] == (m[k + 1] || m[k]) && m1[k + 2] == (m[k + 3] || m[k + 2]);
    }
  }

  /**
   * The scan's hit test `compressMask(m) & strideMask(step, phase)`: bit k is
   * set exactly when it starts a lane that is a stop and has a zero cell.
   */
  lemma ScanHit(w: nat, bytes: nat, step: nat, phase: nat, m: seq<bool>, k: nat)
    requires ValidWidth(w) && ValidBytes(bytes) && step > 0 && |m| == w && k < w
    ensures |Compress(bytes, m)| == w
    ensures And(Compress(bytes, m), StrideBits(w, bytes, step, phase))[k] <==>
      LaneStart(bytes, k) && Selected(step, phase, LaneOf(bytes, k))
      && exists t :: k <= t < k + bytes && t < w && m[t]
  {
    CompressLanes(w, bytes, m, k);
  }

  /**
   * The same hit test for one-byte cells and steps 2, 4, 8, where the mask is the
   * shortcut as written: bit k hits exactly when cell k is zero and `k % step == phase`,
   * the mirror of the selected residue `(step - phase) % step`.
   */
  lemma ScanHitAsWritten(w: nat, step: nat, phase: nat, m: seq<bool>, k: nat)
    requires ValidWidth(w) && ShortcutStep(step) && phase < step && |m| == w && k < w
    ensures |Compress(1, m)| == w
    ensures And(Compress(1, m), ShortcutAsWritten(w, step, phase))[k] <==> m[k] && k % step == phase
  {
    ShiftedPeriodic(step, phase, k);
  }

  /**
   * So the as-written scan skips a zero cell at a stop: when the phase is neither 0 nor half
   * the step, lane `step - phase` is selected, yet a zero there gives no hit.
   */
  lemma ScanMissAsWritten(w: nat, step: nat, phase: nat, m: seq<bool>)
    requires ValidWidth(w) && ShortcutStep(step) && 0 < phase < step && 2 * phase != step
    requires |m| == w && m[step - phase]
    ensures Selected(step, phase, step - phase)
    ensures !And(Compress(1, m), ShortcutAsWritten(w, step, phase))[step - phase]
  {
    ScanHitAsWritten(w, step, phase, m, step - phase);
    assert (step - phase) % step == step - phase;
  }

  // ---------------------------------------------------------------------
  // posmod
  // ---------------------------------------------------------------------

  /** C++ `%` on signed operands: truncates toward zero. */
  function CRem(x: int, m: nat): (r: int)
    requires m > 0
  {
    if x >= 0 then x % m else -((-x) % m)
  }

  /** `posmod(x, m)`: the truncating remainder, moved up by m when negative. */
  function PosMod(x: int, m: nat): (r: nat)
    requires m > 0
    ensures r < m
  {
    var t := CRem(x, m);
    if t < 0 then t + m else t
  }

  /** `posmod` is the mathematical residue of x, for negative x as well. */
  lemma PosModResidue(x: int, m: nat)
    requires m > 0
    ensures PosMod(x, m) == x % m
    ensures (x - PosMod(x, m)) % m == 0
  {
    if x < 0 {
      var q, r := (-x) / m, (-x) % m;
      assert -x == m * q + r;
      if r == 0 {
        Arith.ModUnique(x, m, -q, 0);
        Arith.ModUnique(x - 0, m, -q, 0);
      } else {
        Arith.ModUnique(x, m, -q - 1, m - r);
        Arith.ModUnique(x - (m - r), m, -q - 1, 0);
      }
    } else {
      Arith.ModUnique(x - x % m, m, x / m, 0);
    }
  }
}
