// The 30 Hz logic / 60 Hz render cadence: which iterations run logic, and how
// long each frame-gate wait is padded.

module CadenceSpec {
  import opened ModArith
  import opened Words

  const TICK: nat := 1350000        // one 30 Hz slot in guest ticks
  const FIELD: nat := TICK / 2
  const PAIR_MIN_PAD: nat := 600000

  // What the hook reads at a Painter entry: no usable display object, a
  // display that wants no split, or one that does and the last tick delta.
  datatype Input = NoDisplay | Unsplit | Split(delta: nat)

  datatype Clock = Clock(split: bool, first: bool, acc: nat, logic: bool, prevLogic: bool, lDelta: nat, pairPad: nat)

  // The runtime reset on a split edge.
  const RESET := Clock(false, false, 0, true, true, 0, 0)

  // The shortened pad of an R-iteration after an overlong L-slot.
  function PairPad(lDelta: nat): nat {
    var pp := if lDelta < TICK then TICK - lDelta else 0;
    if pp < PAIR_MIN_PAD then PAIR_MIN_PAD else pp
  }

  function Accumulate(c: Clock, delta: nat, pairLock: bool): Clock {
    var sum := c.acc + delta;
    var logic := sum >= TICK;
    var acc := if logic then sum - TICK else sum;
    Clock(true, true, if acc >= TICK then TICK - 1 else acc, logic, c.logic,
          if logic then delta else c.lDelta,
          if !logic && pairLock && c.logic && c.lDelta > FIELD then PairPad(c.lDelta) else 0)
  }

  function Decide(c: Clock, input: Input, pairLock: bool): Clock {
    match input
    case NoDisplay => c.(prevLogic := c.logic, pairPad := 0)
    case Unsplit => if c.split then RESET else RESET.(prevLogic := c.logic)
    case Split(delta) =>
      if !c.split then RESET.(split := true, first := true)
      else if !c.first then c.(first := true, logic := true, prevLogic := c.logic, pairPad := 0)
      else Accumulate(c, delta, pairLock)
  }

  ghost predicate Inv(c: Clock) { c.acc < TICK && (c.pairPad != 0 ==> PAIR_MIN_PAD <= c.pairPad < FIELD && !c.logic) }

  // The shortened pad stays inside its window, never lets the pair fall short
  // of one slot, and completes it exactly up to 750 000 ticks.
  lemma PairPadCompletesSlot(lDelta: nat)
    requires lDelta > FIELD
    ensures PAIR_MIN_PAD <= PairPad(lDelta) < FIELD
    ensures lDelta + PairPad(lDelta) >= TICK
    ensures lDelta + PairPad(lDelta) == TICK <==> lDelta <= 750000
  {}

  lemma DecideKeepsInv(c: Clock, input: Input, pairLock: bool)
    requires Inv(c)
    ensures Inv(Decide(c, input, pairLock))
  {
    if c.lDelta > FIELD { PairPadCompletesSlot(c.lDelta); }
  }

  // --- Runs of an engaged clock -------------------------------------------

  function Run(c: Clock, deltas: seq<nat>, pairLock: bool): Clock {
    if deltas == [] then c
    else Accumulate(Run(c, deltas[..|deltas| - 1], pairLock), deltas[|deltas| - 1], pairLock)
  }

  function Sum(deltas: seq<nat>): nat {
    if deltas == [] then 0 else Sum(deltas[..|deltas| - 1]) + deltas[|deltas| - 1]
  }

  function One(b: bool): nat { if b then 1 else 0 }

  // Iterations of the run that ran logic, and those that followed another one.
  function LogicFrames(c: Clock, deltas: seq<nat>, pairLock: bool): nat {
    if deltas == [] then 0
    else LogicFrames(c, deltas[..|deltas| - 1], pairLock) + One(Run(c, deltas, pairLock).logic)
  }

  function BackToBack(c: Clock, deltas: seq<nat>, pairLock: bool): nat {
    if deltas == [] then 0
    else BackToBack(c, deltas[..|deltas| - 1], pairLock)
         + One(Run(c, deltas, pairLock).logic && Run(c, deltas[..|deltas| - 1], pairLock).logic)
  }

  // The clock as it stands at the engagement frame.
  const ENGAGED := RESET.(split := true, first := true)

  // No tick is lost: slots consumed plus the residue are the ticks received.
  lemma {:induction false} TicksAreConserved(c: Clock, deltas: seq<nat>, pairLock: bool)
    requires c.acc < TICK && forall i :: 0 <= i < |deltas| ==> deltas[i] <= TICK
    ensures Run(c, deltas, pairLock).acc < TICK
    ensures LogicFrames(c, deltas, pairLock) * TICK + Run(c, deltas, pairLock).acc == c.acc + Sum(deltas)
  {
    if deltas != [] { TicksAreConserved(c, deltas[..|deltas| - 1], pairLock); }
  }

  // Logic runs floor(sum / T) times after engagement, and the residue is the
  // remainder.
  lemma LogicRateIsExact(deltas: seq<nat>, pairLock: bool)
    requires forall i :: 0 <= i < |deltas| ==> deltas[i] <= TICK
    ensures LogicFrames(ENGAGED, deltas, pairLock) == Sum(deltas) / TICK
    ensures Run(ENGAGED, deltas, pairLock).acc == Sum(deltas) % TICK
  {
    TicksAreConserved(ENGAGED, deltas, pairLock);
    ModUnique(Sum(deltas), LogicFrames(ENGAGED, deltas, pairLock), Run(ENGAGED, deltas, pairLock).acc, TICK);
  }

  // At render speed no two render-only frames are adjacent.
  lemma {:induction false} NeverTwoRenderFrames(deltas: seq<nat>, pairLock: bool)
    requires deltas != [] && forall i :: 0 <= i < |deltas| ==> TICK / 2 <= deltas[i] <= TICK
    ensures Run(ENGAGED, deltas[..|deltas| - 1], pairLock).logic || Run(ENGAGED, deltas, pairLock).logic
    ensures !Run(ENGAGED, deltas, pairLock).logic ==> Run(ENGAGED, deltas, pairLock).acc >= TICK / 2
  {
    if |deltas| > 1 { NeverTwoRenderFrames(deltas[..|deltas| - 1], pairLock); }
  }

  // The logic frames beyond one per render-only frame are exactly the slips.
  lemma {:induction false} SlipsCountSurplus(deltas: seq<nat>, pairLock: bool)
    requires forall i :: 0 <= i < |deltas| ==> TICK / 2 <= deltas[i] <= TICK
    ensures BackToBack(ENGAGED, deltas, pairLock) + (|deltas| - LogicFrames(ENGAGED, deltas, pairLock))
         == LogicFrames(ENGAGED, deltas, pairLock) + One(!Run(ENGAGED, deltas, pairLock).logic)
  {
    if deltas != [] {
      SlipsCountSurplus(deltas[..|deltas| - 1], pairLock);
      NeverTwoRenderFrames(deltas, pairLock);
    }
  }

  // Below half speed every iteration is a logic frame.
  lemma {:induction false} SlowHostRunsLogicEveryFrame(c: Clock, deltas: seq<nat>, pairLock: bool)
    requires c.acc < TICK && forall i :: 0 <= i < |deltas| ==> deltas[i] >= TICK
    ensures LogicFrames(c, deltas, pairLock) == |deltas| && Run(c, deltas, pairLock).acc < TICK
  {
    if deltas != [] { SlowHostRunsLogicEveryFrame(c, deltas[..|deltas| - 1], pairLock); }
  }

  // --- The retrace phase lock ---------------------------------------------

  function CeilDiv(a: nat, b: nat): nat
    requires b > 0
  {
    (a + b - 1) / b
  }

  // The pad that ends a wait an eighth of a field after the retrace grid.
  function LockedPad(field: nat, since: nat): int
    requires field > 0
  {
    field / 8 + CeilDiv(since, field) * field - since
  }

  lemma LockedPadInWindow(field: nat, since: nat)
    requires field > 0
    ensures field / 8 <= LockedPad(field, since) < field / 8 + field
    ensures (since + LockedPad(field, since) - field / 8) % field == 0
  {
    var k := CeilDiv(since, field);
    var x := since + field - 1;
    assert x == (x / field) * field + x % field;
    assert since + LockedPad(field, since) - field / 8 == k * field;
    MultipleMod(k, field);
  }

  // Once a wait ended on the phase, the next pad is one field, wherever the
  // newest retrace is by then: j fields after the one the wait aimed from.
  lemma PhaseHolds(field: nat, since: nat, j: nat)
    requires field >= 8 && j * field <= since + LockedPad(field, since)
    ensures LockedPad(field, since + LockedPad(field, since) - j * field) == field
  {
    LockedPadInWindow(field, since);
    var o, k := field / 8, CeilDiv(since, field);
    var since' := since + LockedPad(field, since) - j * field;
    assert since' == (k - j) * field + o by { assert (k - j) * field == k * field - j * field; }
    var m := k - j;
    MulAtLeast(m, field);
    MulAtLeast(m + 1, field);
    assert (m + 1) * field == m * field + field;
    ModUnique(since' + field - 1, m + 1, o - 1, field);
  }

  // --- Where the wrapped arithmetic of the lock holds ---------------------------

  // The lap of the 64-bit clock a point is in.
  function Lap(x: int): int { x / TWO_64 }

  // The wrapped clock after k fields.
  function FieldsOn(from: nat, field: nat, k: nat): (x: nat)
    ensures x < TWO_64
  {
    (from + k * field) % TWO_64
  }

  // The search for a grid point at or after the limit ends.
  ghost predicate Ends(from: nat, field: nat, limit: nat) { exists k: nat :: FieldsOn(from, field, k) >= limit }

  // The largest power of two that divides a field.
  function TwoPart(field: nat): (g: nat)
    requires field > 0
    ensures 0 < g <= field
  {
    if field % 2 == 1 then 1 else 2 * TwoPart(field / 2)
  }

  lemma {:induction false} TwoPartDivides(field: nat) returns (i: nat, m: nat)
    requires field > 0
    ensures TwoPart(field) == Pow2(i) && m % 2 == 1 && field == TwoPart(field) * m
  {
    if field % 2 == 1 {
      i, m := 0, field;
    } else {
      i, m := TwoPartDivides(field / 2);
      TwiceProduct(TwoPart(field / 2), m);
      i := i + 1;
    }
  }

  lemma TwiceProduct(g: nat, m: nat)
    ensures 2 * (g * m) == (2 * g) * m
  {}

  lemma {:induction false} SmallPower(i: nat, k: nat)
    requires Pow2(i) <= Pow2(k)
    ensures i <= k
  {
    if i > k {
      Pow2Splits(i - k - 1, k);
      MulAtLeast(Pow2(i - k - 1), Pow2(k));
    }
  }

  // Every point the search can reach has the same remainder by TwoPart, and
  // the highest such point of a lap is reached.
  lemma HighestPoint(from: nat, field: nat) returns (k: nat)
    requires 0 < field < TWO_64 && from < TWO_64
    ensures var g := TwoPart(field);
      && FieldsOn(from, field, k) == TWO_64 - g + from % g
      && forall n: nat :: FieldsOn(from, field, n) <= TWO_64 - g + from % g
  {
    var i, m := TwoPartDivides(field);
    var g := Pow2(i);
    Pow2Of64();
    SmallPower(i, 64);
    Pow2Splits(i, 64 - i);
    var laps := Pow2(64 - i);
    forall n: nat ensures FieldsOn(from, field, n) <= TWO_64 - g + from % g {
      PointsBelow(from, field, g, m, laps, n);
    }
    k := Reach(from, field, g, m, laps);
  }

  // The highest point of a lap with the remainder of x is d steps on.
  lemma StepsToTop(x: nat, g: nat, laps: nat) returns (d: nat)
    requires g > 0 && TWO_64 == g * laps && x < TWO_64
    ensures x + d * g == TWO_64 - g + x % g
  {
    var q := x / g;
    assert x == q * g + x % g;
    var n := laps - 1 - q;
    Distribute(laps, q, g);
    MulAtLeast(n, g);
    assert n >= 0;
    d := n;
  }

  lemma Distribute(a: int, b: int, g: int)
    ensures (a - 1 - b) * g == g * a - g - b * g
  {}

  lemma PointsBelow(from: nat, field: nat, g: nat, m: nat, laps: nat, n: nat)
    requires g > 0 && field == g * m && TWO_64 == g * laps
    ensures FieldsOn(from, field, n) <= TWO_64 - g + from % g
  {
    SameRemainder(from, n, g, m);
    WrappedRemainder(from + n * field, g, laps);
    AtMostTop(FieldsOn(from, field, n), g, laps);
  }

  lemma WrappedRemainder(y: nat, g: nat, laps: nat)
    requires g > 0 && TWO_64 == g * laps
    ensures (y % TWO_64) % g == y % g
  {
    MultipleMod(laps, g);
    ModOfMod(y, g, TWO_64);
  }

  lemma AtMostTop(x: nat, g: nat, laps: nat)
    requires g > 0 && TWO_64 == g * laps && x < TWO_64
    ensures x <= TWO_64 - g + x % g
  {
    var d := StepsToTop(x, g, laps);
    MulAtLeast(d, g);
  }

  lemma SameRemainder(from: nat, n: nat, g: nat, m: nat)
    requires g > 0
    ensures (from + n * (g * m)) % g == from % g
  {
    var q := from / g;
    assert from == q * g + from % g;
    MulThree(n, g, m);
    assert (q + n * m) * g == q * g + (n * m) * g;
    ModUnique(from + n * (g * m), q + n * m, from % g, g);
  }

  lemma MulThree(n: nat, g: nat, m: nat)
    ensures n * (g * m) == (n * m) * g
  {}

  lemma Reach(from: nat, field: nat, g: nat, m: nat, laps: nat) returns (k: nat)
    requires g > 0 && field == g * m && TWO_64 == g * laps && m % 2 == 1 && from < TWO_64
    ensures FieldsOn(from, field, k) == TWO_64 - g + from % g
  {
    hide FieldsOn;
    hide Pow2;
    Pow2Of64();
    var v, q := OddInverse(m, 64);
    var d := StepsToTop(from, g, laps);
    k := v * d;
    UndoOdd(v, d, g, m, q);
    ReachedAfter(from, field, k, q * (d * g), TWO_64 - g + from % g);
  }

  lemma ReachedAfter(from: nat, field: nat, k: nat, laps: int, goal: nat)
    requires from + k * field == laps * TWO_64 + goal && goal < TWO_64
    ensures FieldsOn(from, field, k) == goal
  {
    ModUnique(from + k * field, laps, goal, TWO_64);
  }

  lemma UndoOdd(v: nat, d: nat, g: nat, m: nat, q: int)
    requires v * m == 1 + q * TWO_64
    ensures (v * d) * (g * m) == d * g + (q * (d * g)) * TWO_64
  {
    Regroup(v, d, g, m);
    var x := d * g;
    assert (1 + q * TWO_64) * x == x + (q * x) * TWO_64;
  }

  lemma Regroup(v: nat, d: nat, g: nat, m: nat)
    ensures (v * d) * (g * m) == (v * m) * (d * g)
  {}

  // The search ends exactly if the highest point it can reach is no lower
  // than the limit.
  lemma EndsIff(from: nat, field: nat, limit: nat)
    requires 0 < field < TWO_64 && from < TWO_64
    ensures Ends(from, field, limit) <==> limit <= TWO_64 - TwoPart(field) + from % TwoPart(field)
  {
    var k := HighestPoint(from, field);
  }

  lemma TwoPartOf600000()
    ensures TwoPart(600000) == 64
  {
    assert TwoPart(9375) == 1;
    assert TwoPart(37500) == 4;
    assert TwoPart(150000) == 16;
  }

  // A grid on which it does not: every step is a multiple of 64, and one tick
  // before the end of the clock is not.
  lemma SearchCanRunForever()
    ensures !Ends(TWO_64 - 2, 600000, TWO_64 - 1)
  {
    hide TwoPart;
    TwoPartOf600000();
    EndsIff(TWO_64 - 2, 600000, TWO_64 - 1);
  }

  // What the first point at or after the limit is worth as a pad: the locked
  // one exactly if the retrace and the landing are in one lap of the clock.
  lemma FirstPointIsLockedIff(field: nat, exit: nat, since: nat, k: nat)
    requires 600000 <= field <= 760000 && since <= 4 * field
    requires var from, limit := (exit - since + field / 8) % TWO_64, (exit + field / 8) % TWO_64;
      FieldsOn(from, field, k) >= limit && forall j :: 0 <= j < k ==> FieldsOn(from, field, j) < limit
    ensures
      (FieldsOn((exit - since + field / 8) % TWO_64, field, k) - exit) % TWO_32 == LockedPad(field, since)
      <==> Lap(exit - since + field / 8) == Lap(exit + LockedPad(field, since))
  {
    var start, limit := exit - since + field / 8, exit + field / 8;
    LockedPadInWindow(field, since);
    CeilBounds(since, field);
    hide FieldsOn;
    if Lap(start) == Lap(exit + LockedPad(field, since)) {
      InTheLap(field, exit, since, k);
    } else if Lap(start) < Lap(limit) {
      PastTheLap(field, exit, since, k);
    } else {
      ShortOfTheLap(field, exit, since, k);
    }
  }

  // The clock does not wrap on the way to the landing.
  lemma InTheLap(field: nat, exit: nat, since: nat, k: nat)
    requires 600000 <= field <= 760000 && since <= 4 * field
    requires var from, limit := (exit - since + field / 8) % TWO_64, (exit + field / 8) % TWO_64;
      FieldsOn(from, field, k) >= limit && forall j :: 0 <= j < k ==> FieldsOn(from, field, j) < limit
    requires Lap(exit - since + field / 8) == Lap(exit + LockedPad(field, since))
    ensures (FieldsOn((exit - since + field / 8) % TWO_64, field, k) - exit) % TWO_32 == LockedPad(field, since)
  {
    hide FieldsOn;
    var start, limit, c := exit - since + field / 8, exit + field / 8, CeilDiv(since, field);
    LockedPadInWindow(field, since);
    CeilBounds(since, field);
    var landing := start + c * field;
    assert landing == exit + LockedPad(field, since);
    SameLap(start, limit, field, c);
    FirstIsUnique(start % TWO_64, field, limit % TWO_64, k, c);
    hide CeilDiv;
    PadModulo(exit, landing, LockedPad(field, since));
  }

  // A clock at zero and a retrace 100 000 ticks before it: the search ends at
  // its start, in the lap before, and the pad is another one.
  lemma PadMissesAcrossLaps()
    ensures
      var field, exit, since, offset := 675675, 0, 100000, 675675 / 8;
      var from, limit := (exit - since + offset) % TWO_64, (exit + offset) % TWO_64;
      && Ends(from, field, limit) && FieldsOn(from, field, 0) >= limit
      && Lap(exit - since + offset) != Lap(exit + LockedPad(field, since))
      && (FieldsOn(from, field, 0) - exit) % TWO_32 != LockedPad(field, since)
  {
    LockedPadInWindow(675675, 100000);
    FirstPointIsLockedIff(675675, 0, 100000, 0);
  }

  // The start is already in an earlier lap, and so not below the limit.
  lemma PastTheLap(field: nat, exit: nat, since: nat, k: nat)
    requires 600000 <= field <= 760000 && since <= 4 * field
    requires var from, limit := (exit - since + field / 8) % TWO_64, (exit + field / 8) % TWO_64;
      FieldsOn(from, field, k) >= limit && forall j :: 0 <= j < k ==> FieldsOn(from, field, j) < limit
    requires Lap(exit - since + field / 8) < Lap(exit + field / 8)
    ensures (FieldsOn((exit - since + field / 8) % TWO_64, field, k) - exit) % TWO_32 != LockedPad(field, since)
  {
    var start, limit := exit - since + field / 8, exit + field / 8;
    var from := start % TWO_64;
    assert from >= limit % TWO_64;
    assert FieldsOn(from, field, 0) == from;
    CeilBounds(since, field);
    MulAtLeast(CeilDiv(since, field), field);
    PadModulo(exit, start, field / 8 - since);
  }

  // The search stopped at a point before the landing.
  lemma ShortOfTheLap(field: nat, exit: nat, since: nat, k: nat)
    requires 600000 <= field <= 760000 && since <= 4 * field
    requires FieldsOn((exit - since + field / 8) % TWO_64, field, k) >= (exit + field / 8) % TWO_64
    requires Lap(exit + field / 8) < Lap(exit + LockedPad(field, since))
    ensures (FieldsOn((exit - since + field / 8) % TWO_64, field, k) - exit) % TWO_32 != LockedPad(field, since)
  {
    hide CeilDiv;
    var limit := exit + field / 8;
    var f := FieldsOn((exit - since + field / 8) % TWO_64, field, k);
    hide FieldsOn;
    LockedPadInWindow(field, since);
    var x := f + Lap(limit) * TWO_64;
    assert limit <= x < (Lap(limit) + 1) * TWO_64 <= exit + LockedPad(field, since);
    ModUnique(x, Lap(limit), f, TWO_64);
    PadModulo(exit, x, x - exit);
  }

  lemma CeilBounds(since: nat, field: nat)
    requires field > 0
    ensures since <= CeilDiv(since, field) * field < since + field
    ensures CeilDiv(since, field) == 0 <==> since == 0
  {
    var x := since + field - 1;
    assert x == (x / field) * field + x % field;
    if since == 0 { ModUnique(x, 0, field - 1, field); }
  }

  // Up to the landing the wrapped clock runs with the unwrapped one.
  lemma SameLap(start: int, limit: int, field: nat, c: nat)
    requires field > 0 && start <= limit <= start + c * field < limit + field && Lap(start) == Lap(start + c * field)
    ensures forall j :: 0 <= j < c ==> FieldsOn(start % TWO_64, field, j) < limit % TWO_64
    ensures FieldsOn(start % TWO_64, field, c) == (start + c * field) % TWO_64 >= limit % TWO_64
  {
    var lap, rest := Lap(start), start % TWO_64;
    var landing := start + c * field;
    assert start == lap * TWO_64 + rest;
    assert landing % TWO_64 == landing - lap * TWO_64 && limit % TWO_64 == limit - lap * TWO_64;
    forall j | 0 <= j <= c
      ensures FieldsOn(rest, field, j) == rest + j * field
      ensures j < c ==> start + j * field < limit
    {
      assert c * field == j * field + (c - j) * field;
      MulAtLeast(c - j, field);
      ModUnique(rest + j * field, 0, rest + j * field, TWO_64);
    }
  }

  lemma FirstIsUnique(from: nat, field: nat, limit: nat, k: nat, c: nat)
    requires FieldsOn(from, field, k) >= limit && forall j :: 0 <= j < k ==> FieldsOn(from, field, j) < limit
    requires FieldsOn(from, field, c) >= limit && forall j :: 0 <= j < c ==> FieldsOn(from, field, j) < limit
    ensures k == c
  {}

  // The pad is the distance from the exit, cut to 32 bits.
  lemma PadModulo(exit: nat, point: int, pad: int)
    requires point == exit + pad && -TWO_32 < pad < TWO_32
    ensures (point % TWO_64 - exit) % TWO_32 == if pad >= 0 then pad else TWO_32 + pad
  {
    var laps := point / TWO_64;
    assert point % TWO_64 - exit == pad - (laps * TWO_32) * TWO_32;
    var q, r := (if pad >= 0 then 0 else -1) - laps * TWO_32, if pad >= 0 then pad else TWO_32 + pad;
    ModUnique(point % TWO_64 - exit, q, r, TWO_32);
  }
}

module Cadence {
  import opened ModArith
  import opened CadenceSpec
  import opened Words

  class FrameClock {
    var split: bool
    var first: bool
    var acc: nat
    var logic: bool
    var prevLogic: bool
    var lDelta: nat
    var pairPad: nat

    ghost function Value(): Clock
      reads this
    {
      Clock(split, first, acc, logic, prevLogic, lDelta, pairPad)
    }

    constructor ()
      ensures Value() == RESET
    {
      split, first, acc, logic, prevLogic, lDelta, pairPad := false, false, 0, true, true, 0, 0;
    }

    method ResetState()
      modifies this
      ensures Value() == RESET
    {
      split, first, acc, logic, prevLogic, lDelta, pairPad := false, false, 0, true, true, 0, 0;
    }

    // Once per frame-loop iteration. halfway says that the retrace lock makes
    // an R after an L sit exactly between them.
    method DecideFrame(input: Input, pairLock: bool, halfway: bool) returns (alpha: real)
      requires Inv(Value())
      modifies this
      ensures Value() == Decide(old(Value()), input, pairLock) && Inv(Value())
      ensures 0.0 <= alpha < 1.0
      ensures old(split) && old(first) && input.Split? ==>
        alpha == if halfway && !logic && prevLogic then 0.5 else acc as real / TICK as real
    {
      DecideKeepsInv(Value(), input, pairLock);
      alpha := 0.0;
      prevLogic := logic;
      if input.NoDisplay? {
        pairPad := 0;
        return;
      }
      if input.Unsplit? {
        if split { ResetState(); }
        split, logic, acc, first, pairPad, lDelta := false, true, 0, false, 0, 0;
        return;
      }
      if !split { ResetState(); }
      split := true;
      if !first {
        first, logic, pairPad := true, true, 0;
        return;
      }
      acc := acc + input.delta;
      logic := acc >= TICK;
      if logic { acc := acc - TICK; }
      if logic {
        lDelta, pairPad := input.delta, 0;
      } else {
        pairPad := 0;
        if pairLock && prevLogic && lDelta > FIELD {
          var pp := if lDelta < TICK then TICK - lDelta else 0;
          if pp < PAIR_MIN_PAD { pp := PAIR_MIN_PAD; }
          pairPad := pp;
        }
      }
      if acc >= TICK { acc := TICK - 1; }
      alpha := acc as real / TICK as real;
      if halfway && !logic && prevLogic { alpha := 0.5; }
    }
  }

  // vi_lock_pad, with its 64-bit and 32-bit wrap-around; 0 means there is no
  // retrace grid to lock to. Where the search for the grid point ends, the pad
  // is the locked one exactly if the retrace and the landing are in one lap of
  // the 64-bit clock.
  method ViLockPad(field: nat, nextTick: nat, now: nat, lastTick: nat) returns (pad: nat)
    requires field < TWO_32 && nextTick < TWO_64 && now < TWO_64 && lastTick < TWO_32
    requires
      var exit := if nextTick > now then nextTick else now;
      var since := (exit - lastTick) % TWO_32;
      600000 <= field <= 760000 && since <= 4 * field ==>
        Ends((exit - since + field / 8) % TWO_64, field, (exit + field / 8) % TWO_64)
    ensures
      var exit := if nextTick > now then nextTick else now;
      var since := (exit - lastTick) % TWO_32;
      if field < 600000 || field > 760000 || since > 4 * field then pad == 0
      else pad == LockedPad(field, since) <==> Lap(exit - since + field / 8) == Lap(exit + LockedPad(field, since))
  {
    if field < 600000 || field > 760000 { return 0; }
    var exit := if nextTick > now then nextTick else now;
    var since := (exit % TWO_32 - lastTick) % TWO_32;
    WrappedDistance(exit, lastTick);
    if since > 4 * field { return 0; }
    var offset := field / 8;
    var target, k := NextGridPoint((exit - since + offset) % TWO_64, (exit + offset) % TWO_64, field);
    FirstPointIsLockedIff(field, exit, since, k);
    pad := (target - exit) % TWO_64 % TWO_32;
    PadCut(target, exit);
  }

  lemma PadCut(target: nat, exit: nat)
    ensures (target - exit) % TWO_64 % TWO_32 == (target - exit) % TWO_32
  {
    ModOfMod(target - exit, TWO_32, TWO_64);
  }

  lemma WrappedDistance(exit: nat, lastTick: nat)
    ensures (exit % TWO_32 - lastTick) % TWO_32 == (exit - lastTick) % TWO_32
  {
    var y := (exit % TWO_32 - lastTick) % TWO_32;
    var q := (exit % TWO_32 - lastTick) / TWO_32;
    assert exit == (exit / TWO_32) * TWO_32 + exit % TWO_32;
    assert exit - lastTick == (exit / TWO_32 + q) * TWO_32 + y;
    ModUnique(exit - lastTick, exit / TWO_32 + q, y, TWO_32);
  }

  // Steps by whole fields, modulo 2^64, to the first point that is not below
  // the limit.
  method NextGridPoint(from: nat, limit: nat, field: nat) returns (target: nat, ghost k: nat)
    requires from < TWO_64 && limit < TWO_64 && Ends(from, field, limit)
    ensures target == FieldsOn(from, field, k) && target >= limit
    ensures forall j :: 0 <= j < k ==> FieldsOn(from, field, j) < limit
  {
    ghost var n: nat :| FieldsOn(from, field, n) >= limit;
    target, k := from, 0;
    while target < limit
      invariant target == FieldsOn(from, field, k) && k <= n
      invariant forall j :: 0 <= j < k ==> FieldsOn(from, field, j) < limit
      decreases n - k
    {
      NextField(from, field, k);
      target := (target + field) % TWO_64;
      k := k + 1;
    }
  }

  lemma NextField(from: nat, field: nat, k: nat)
    ensures (FieldsOn(from, field, k) + field) % TWO_64 == FieldsOn(from, field, k + 1)
  {
    var x := from + k * field;
    assert (k + 1) * field == k * field + field;
    assert x == (x / TWO_64) * TWO_64 + x % TWO_64;
    var y := x % TWO_64 + field;
    ModUnique(x + field, x / TWO_64 + y / TWO_64, y % TWO_64, TWO_64);
  }

  // The argument the frame-gate wait is given. `locked` is vi_lock_pad's
  // answer, 0 for none.
  function WaitPad(renderHz: nat, pairPad: nat, viLock: bool, locked: nat, lastDelta: nat): nat {
    if renderHz != 0 then
      var field := 40500000 / renderHz;
      var base := if field == 0 then 1 else field;
      var paired := if pairPad != 0 && base == FIELD then pairPad else base;
      if viLock && renderHz == 60 && locked != 0 then locked else paired
    else if lastDelta >= TICK / 8 then 1
    else TICK / 8 - lastDelta
  }

  // Every wait is at least one tick; at 60 Hz without a retrace grid an L+R
  // pair still fills its slot; unlimited mode never spins below an eighth of
  // a slot per iteration.
  lemma WaitPadBounds(c: Clock, renderHz: nat, viLock: bool, locked: nat, lastDelta: nat)
    requires Inv(c)
    ensures var pad := WaitPad(renderHz, c.pairPad, viLock, locked, lastDelta);
      && pad >= 1
      && (renderHz == 60 && !(viLock && locked != 0) ==> PAIR_MIN_PAD <= pad <= FIELD)
      && (renderHz == 0 ==> lastDelta + pad >= TICK / 8)
  {}
}
