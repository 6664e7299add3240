// The headroom governor: a verdict on the median speed of every sixty
// L-frame pairs, and the back-off machine that turns interpolation off, holds
// it off, and probes whether it can come back.

module GovernorSpec {
  const WINDOW := 60
  const TICK: nat := 1350000
  const GAP_MAX_NS: nat := 150_000_000
  const SLOW := 0.95
  const DUP_OK := 0.97
  const SLOW_WINDOWS := 2
  const HOLD_MIN_NS: nat := 15_000_000_000
  const HOLD_MAX_NS: nat := 240_000_000_000
  const CLEAN_WINDOWS := 30

  ghost predicate Sorted(s: seq<real>) { forall i, j :: 0 <= i < j < |s| ==> s[i] <= s[j] }

  function CountBelow(s: seq<real>, x: real): nat {
    if s == [] then 0 else CountBelow(s[..|s| - 1], x) + (if s[|s| - 1] < x then 1 else 0)
  }

  lemma {:induction false} CountSplits(a: seq<real>, b: seq<real>, x: real)
    ensures CountBelow(a + b, x) == CountBelow(a, x) + CountBelow(b, x)
  {
    if b == [] {
      assert a + b == a;
    } else {
      assert (a + b)[..|a + b| - 1] == a + b[..|b| - 1];
      CountSplits(a, b[..|b| - 1], x);
    }
  }

  lemma CountWithout(t: seq<real>, k: nat, x: real)
    requires k < |t|
    ensures CountBelow(t, x) == CountBelow(t[..k] + t[k + 1..], x) + (if t[k] < x then 1 else 0)
  {
    assert t == (t[..k] + [t[k]]) + t[k + 1..];
    CountSplits(t[..k] + [t[k]], t[k + 1..], x);
    CountSplits(t[..k], [t[k]], x);
    CountSplits(t[..k], t[k + 1..], x);
    assert [t[k]][..0] == [];
  }

  // The last element of s somewhere in t, and what is left of both.
  lemma SameElement(s: seq<real>, t: seq<real>) returns (k: nat)
    requires multiset(s) == multiset(t) && s != []
    ensures k < |t| && t[k] == s[|s| - 1]
    ensures multiset(s[..|s| - 1]) == multiset(t[..k] + t[k + 1..])
  {
    var v := s[|s| - 1];
    assert v in multiset(s);
    assert v in multiset(t);
    assert v in t;
    k :| 0 <= k < |t| && t[k] == v;
    assert s == s[..|s| - 1] + [v];
    assert t == (t[..k] + [v]) + t[k + 1..];
    assert multiset(s) == multiset(s[..|s| - 1]) + multiset{v};
    assert multiset(t) == multiset(t[..k] + t[k + 1..]) + multiset{v};
    assert multiset(s[..|s| - 1]) == multiset(s) - multiset{v};
    assert multiset(t[..k] + t[k + 1..]) == multiset(t) - multiset{v};
  }

  // A permutation has the same number of slow samples.
  lemma {:induction false} CountIsOfMultiset(s: seq<real>, t: seq<real>, x: real)
    requires multiset(s) == multiset(t)
    ensures CountBelow(s, x) == CountBelow(t, x)
  {
    assert |s| == |multiset(s)| == |multiset(t)| == |t|;
    if s != [] {
      var k := SameElement(s, t);
      CountIsOfMultiset(s[..|s| - 1], t[..k] + t[k + 1..], x);
      CountWithout(t, k, x);
    }
  }

  lemma {:induction false} SortedPrefixBelow(s: seq<real>, x: real, k: nat)
    requires Sorted(s) && k < |s| && s[k] < x
    ensures CountBelow(s, x) >= k + 1
  {
    if k + 1 == |s| {
      AllBelow(s, x);
    } else {
      assert s == s[..|s| - 1] + [s[|s| - 1]];
      SortedPrefixBelow(s[..|s| - 1], x, k);
    }
  }

  lemma {:induction false} AllBelow(s: seq<real>, x: real)
    requires forall i :: 0 <= i < |s| ==> s[i] < x
    ensures CountBelow(s, x) == |s|
  {
    if s != [] { AllBelow(s[..|s| - 1], x); }
  }

  function Median(sorted: seq<real>): real
    requires |sorted| == WINDOW
  {
    0.5 * (sorted[WINDOW / 2 - 1] + sorted[WINDOW / 2])
  }

  // Fewer than half of the pairs being slow never makes a slow verdict.
  lemma SpikesAreIgnored(window: seq<real>, sorted: seq<real>, limit: real)
    requires |window| == |sorted| == WINDOW && multiset(window) == multiset(sorted) && Sorted(sorted)
    requires CountBelow(window, limit) <= WINDOW / 2 - 1
    ensures Median(sorted) >= limit
  {
    CountIsOfMultiset(window, sorted, limit);
    if sorted[WINDOW / 2 - 1] < limit {
      SortedPrefixBelow(sorted, limit, WINDOW / 2 - 1);
      assert false;
    }
  }

  // More than half being slow always does, whatever the rest were.
  lemma SustainedSlownessIsSeen(window: seq<real>, sorted: seq<real>, limit: real)
    requires |window| == |sorted| == WINDOW && multiset(window) == multiset(sorted) && Sorted(sorted)
    requires CountBelow(window, limit) >= WINDOW / 2 + 1
    ensures Median(sorted) < limit
  {
    CountIsOfMultiset(window, sorted, limit);
    if sorted[WINDOW / 2] >= limit {
      SuffixNotBelow(sorted, limit, WINDOW / 2);
      assert false;
    }
  }

  lemma {:induction false} SuffixNotBelow(s: seq<real>, x: real, k: nat)
    requires Sorted(s) && k < |s| && s[k] >= x
    ensures CountBelow(s, x) <= k
  {
    if k + 1 == |s| {
      CountAtMostLength(s[..k], x);
    } else {
      SuffixNotBelow(s[..|s| - 1], x, k);
    }
  }

  lemma {:induction false} CountAtMostLength(s: seq<real>, x: real)
    ensures CountBelow(s, x) <= |s|
  {
    if s != [] { CountAtMostLength(s[..|s| - 1], x); }
  }

  // --- The back-off machine -----------------------------------------------

  datatype State = State(
    slowWindows: nat, cleanWindows: nat, degraded: bool, probing: bool, holdNs: nat, retryAtNs: nat)

  const INITIAL := State(0, 0, false, false, HOLD_MIN_NS, 0)

  // The verdict of one full window, at wall-clock time ns.
  function Verdict(g: State, speed: real, ns: nat): State {
    if g.degraded then
      if ns < g.retryAtNs then g
      else if speed < DUP_OK then g.(retryAtNs := ns + g.holdNs)
      else g.(degraded := false, probing := true)
    else if speed < SLOW then
      if !g.probing && g.slowWindows + 1 < SLOW_WINDOWS then g.(slowWindows := g.slowWindows + 1)
      else
        var doubled := if 2 * g.holdNs > HOLD_MAX_NS then HOLD_MAX_NS else 2 * g.holdNs;
        var hold := if g.probing then doubled else g.holdNs;
        State(0, 0, true, false, hold, ns + hold)
    else
      var clean := g.cleanWindows + 1;
      g.(slowWindows := 0, probing := false,
         cleanWindows := if clean >= CLEAN_WINDOWS then CLEAN_WINDOWS else clean,
         holdNs := if clean >= CLEAN_WINDOWS then HOLD_MIN_NS else g.holdNs)
  }

  ghost predicate Inv(g: State) {
    && !(g.degraded && g.probing)
    && HOLD_MIN_NS <= g.holdNs <= HOLD_MAX_NS
    && g.slowWindows < SLOW_WINDOWS
    && (g.degraded ==> g.slowWindows == 0)
    && g.cleanWindows <= CLEAN_WINDOWS
  }

  datatype Window = Window(speed: real, ns: nat)

  function Run(g: State, ws: seq<Window>): State {
    if ws == [] then g else Verdict(Run(g, ws[..|ws| - 1]), ws[|ws| - 1].speed, ws[|ws| - 1].ns)
  }

  lemma {:induction false} RunKeepsInv(ws: seq<Window>)
    ensures Inv(Run(INITIAL, ws))
  {
    if ws != [] { RunKeepsInv(ws[..|ws| - 1]); }
  }

  // slowWindows remembers that the last verdict was a slow one.
  lemma {:induction false} SlowCountRemembers(ws: seq<Window>)
    requires Run(INITIAL, ws).slowWindows > 0
    ensures ws != [] && ws[|ws| - 1].speed < SLOW && !Run(INITIAL, ws[..|ws| - 1]).degraded
  {
    if ws != [] {
      RunKeepsInv(ws[..|ws| - 1]);
    }
  }

  // Interpolation is turned off by a failed probe or by two slow windows in a
  // row, and by nothing else; and only a failed probe lengthens the hold.
  lemma DegradesOnlyOnEvidence(ws: seq<Window>)
    requires ws != [] && Run(INITIAL, ws).degraded && !Run(INITIAL, ws[..|ws| - 1]).degraded
    ensures var before, now := Run(INITIAL, ws[..|ws| - 1]), Run(INITIAL, ws);
      && ws[|ws| - 1].speed < SLOW
      && now.retryAtNs == ws[|ws| - 1].ns + now.holdNs
      && (before.probing ==> now.holdNs == (if 2 * before.holdNs > HOLD_MAX_NS then HOLD_MAX_NS else 2 * before.holdNs))
      && (!before.probing ==> now.holdNs == before.holdNs && |ws| >= 2 && ws[|ws| - 2].speed < SLOW)
  {
    var before := ws[..|ws| - 1];
    RunKeepsInv(before);
    if !Run(INITIAL, before).probing {
      SlowCountRemembers(before);
    }
  }

  // The hold grows only where a probe fails, and shrinks only at a clean
  // verdict that completes thirty in a row.
  lemma HoldMovesOnlyOnEvidence(ws: seq<Window>)
    requires ws != []
    ensures var before, now, last := Run(INITIAL, ws[..|ws| - 1]), Run(INITIAL, ws), ws[|ws| - 1];
      && (now.holdNs > before.holdNs ==>
            && before.probing && !before.degraded && last.speed < SLOW && now.degraded
            && now.holdNs == (if 2 * before.holdNs > HOLD_MAX_NS then HOLD_MAX_NS else 2 * before.holdNs))
      && (now.holdNs < before.holdNs ==>
            !before.degraded && last.speed >= SLOW && now.cleanWindows == CLEAN_WINDOWS && now.holdNs == HOLD_MIN_NS)
  {
    RunKeepsInv(ws[..|ws| - 1]);
  }

  // The time interpolation was last turned off, and the hold that began then.
  function DegradedAt(ws: seq<Window>): nat
    requires ws != []
  {
    var before := ws[..|ws| - 1];
    if !Run(INITIAL, before).degraded || before == [] then ws[|ws| - 1].ns else DegradedAt(before)
  }

  ghost predicate Chronological(ws: seq<Window>) { forall i, j :: 0 <= i < j < |ws| ==> ws[i].ns <= ws[j].ns }

  lemma {:induction false} HoldRunsFromDegrade(ws: seq<Window>)
    requires ws != [] && Chronological(ws) && Run(INITIAL, ws).degraded
    ensures Run(INITIAL, ws).retryAtNs >= DegradedAt(ws) + Run(INITIAL, ws).holdNs
    ensures DegradedAt(ws) <= ws[|ws| - 1].ns
  {
    var before := ws[..|ws| - 1];
    if before != [] && Run(INITIAL, before).degraded {
      HoldRunsFromDegrade(before);
      assert before[|before| - 1] == ws[|ws| - 2];
    }
  }

  // No retry before the hold has elapsed since interpolation went off.
  lemma NoEarlyRetry(ws: seq<Window>)
    requires ws != [] && Chronological(ws)
    requires ws[..|ws| - 1] != [] && Run(INITIAL, ws[..|ws| - 1]).degraded && Run(INITIAL, ws).probing
    ensures ws[|ws| - 1].ns >= DegradedAt(ws[..|ws| - 1]) + Run(INITIAL, ws[..|ws| - 1]).holdNs
    ensures ws[|ws| - 1].speed >= DUP_OK
  {
    var before := ws[..|ws| - 1];
    RunKeepsInv(before);
    HoldRunsFromDegrade(before);
  }

  // Thirty clean verdicts in a row bring the hold back to its minimum.
  lemma {:induction false} CleanRunResetsHold(g: State, ws: seq<Window>)
    requires Inv(g) && !g.degraded && |ws| >= CLEAN_WINDOWS
    requires forall i :: 0 <= i < |ws| ==> ws[i].speed >= SLOW
    ensures Run(g, ws).holdNs == HOLD_MIN_NS && !Run(g, ws).degraded && !Run(g, ws).probing
  {
    CleanWindowsCount(g, ws);
  }

  lemma {:induction false} CleanWindowsCount(g: State, ws: seq<Window>)
    requires Inv(g) && !g.degraded && forall i :: 0 <= i < |ws| ==> ws[i].speed >= SLOW
    ensures var r := Run(g, ws);
      && !r.degraded && (ws != [] ==> !r.probing)
      && (r.cleanWindows >= |ws| || r.cleanWindows == CLEAN_WINDOWS)
      && (ws != [] && r.cleanWindows == CLEAN_WINDOWS ==> r.holdNs == HOLD_MIN_NS)
  {
    if ws != [] { CleanWindowsCount(g, ws[..|ws| - 1]); }
  }
}

module Governor {
  import opened GovernorSpec

  // Element i moved back to place j among the ones before it.
  function Moved(base: seq<real>, i: nat, j: nat): seq<real>
    requires j <= i < |base|
  {
    seq(|base|, k requires 0 <= k < |base| =>
      if k < j || k > i then base[k] else if k == j then base[i] else base[k - 1])
  }

  lemma MovedIsPermutation(base: seq<real>, i: nat, j: nat)
    requires j <= i < |base|
    ensures multiset(Moved(base, i, j)) == multiset(base)
  {
    assert base == base[..j] + base[j..i] + [base[i]] + base[i + 1..];
    assert Moved(base, i, j) == base[..j] + [base[i]] + base[j..i] + base[i + 1..];
  }

  lemma MovedIsSorted(base: seq<real>, i: nat, j: nat)
    requires j <= i < |base| && Sorted(base[..i])
    requires j > 0 ==> base[j - 1] <= base[i]
    requires forall k :: j <= k < i ==> base[i] <= base[k]
    ensures Sorted(Moved(base, i, j)[..i + 1])
  {
    var r := Moved(base, i, j)[..i + 1];
    assert forall k :: 0 <= k < i ==> base[..i][k] == base[k];
    forall k, m | 0 <= k < m < |r| ensures r[k] <= r[m] {}
  }

  method InsertOne(a: array<real>, i: nat)
    requires i < a.Length && Sorted(a[..i])
    modifies a
    ensures Sorted(a[..i + 1]) && multiset(a[..]) == multiset(old(a[..]))
  {
    hide Sorted;
    ghost var base := a[..];
    assert base[..i] == a[..i];
    var v := a[i];
    var j := i;
    while j > 0 && a[j - 1] > v
      invariant 0 <= j <= i
      invariant forall k :: 0 <= k < j ==> a[k] == base[k]
      invariant forall k :: j < k <= i ==> a[k] == base[k - 1]
      invariant forall k :: i < k < a.Length ==> a[k] == base[k]
      invariant forall k :: j <= k < i ==> v <= base[k]
    {
      a[j] := a[j - 1];
      j := j - 1;
    }
    a[j] := v;
    assert a[..] == Moved(base, i, j);
    MovedIsPermutation(base, i, j);
    MovedIsSorted(base, i, j);
    assert a[..][..i + 1] == a[..i + 1];
  }

  method InsertionSort(a: array<real>)
    modifies a
    ensures Sorted(a[..]) && multiset(a[..]) == multiset(old(a[..]))
  {
    var i := 0;
    while i < a.Length
      invariant 0 <= i <= a.Length
      invariant Sorted(a[..i]) && multiset(a[..]) == multiset(old(a[..]))
    {
      InsertOne(a, i);
      i := i + 1;
    }
    assert a[..] == a[..i];
  }

  // Guest seconds per wall second.
  function Speed(dtb: nat, dns: nat): real
    requires dns > 0
  {
    dtb as real * (1000000000.0 / 40500000.0) / dns as real
  }

  class HeadroomGovernor {
    var prevTb: nat
    var prevNs: nat
    var prevValid: bool
    const win: array<real>
    var count: nat
    var slowWindows: nat
    var cleanWindows: nat
    var degraded: bool
    var probing: bool
    var holdNs: nat
    var retryAtNs: nat

    ghost predicate Valid()
      reads this
    {
      win.Length == WINDOW && count < WINDOW && Inv(Value())
    }

    ghost function Value(): State
      reads this
    {
      State(slowWindows, cleanWindows, degraded, probing, holdNs, retryAtNs)
    }

    constructor ()
      ensures Valid() && Value() == INITIAL && count == 0 && !prevValid && fresh(win)
    {
      win := new real[WINDOW](_ => 0.0);
      prevTb, prevNs, prevValid, count := 0, 0, false, 0;
      slowWindows, cleanWindows, degraded, probing, holdNs, retryAtNs := 0, 0, false, false, HOLD_MIN_NS, 0;
    }

    // One L-frame. Gaps and pauses are no samples; only a full window gives a
    // verdict, and then on its median. window is the window that was judged.
    method OnLFrame(tb: nat, ns: nat) returns (speed: real, ghost window: seq<real>)
      requires Valid()
      modifies this, win
      ensures Valid() && prevValid && prevTb == tb && prevNs == ns
      ensures
        var sampled := old(prevValid) && tb > old(prevTb) && ns > old(prevNs)
                       && tb - old(prevTb) <= 4 * TICK && ns - old(prevNs) <= GAP_MAX_NS;
        var seen :=
          if sampled then old(win[..count]) + [Speed(tb - old(prevTb), ns - old(prevNs))] else old(win[..count]);
        if |seen| < WINDOW then count == |seen| && win[..count] == seen && Value() == old(Value())
        else
          && count == 0 && window == seen && |window| == WINDOW
          && Value() == Verdict(old(Value()), speed, ns)
          && (CountBelow(window, SLOW) <= WINDOW / 2 - 1 ==> speed >= SLOW)
          && (CountBelow(window, SLOW) >= WINDOW / 2 + 1 ==> speed < SLOW)
          && (CountBelow(window, DUP_OK) <= WINDOW / 2 - 1 ==> speed >= DUP_OK)
    {
      speed, window := 0.0, [];
      if prevValid && tb > prevTb && ns > prevNs {
        var dtb, dns := tb - prevTb, ns - prevNs;
        if dtb <= 4 * TICK && dns <= GAP_MAX_NS && count < WINDOW {
          win[count] := Speed(dtb, dns);
          count := count + 1;
        }
      }
      prevTb, prevNs, prevValid := tb, ns, true;
      if count < WINDOW { return; }
      window := win[..];
      InsertionSort(win);
      speed := 0.5 * (win[WINDOW / 2 - 1] + win[WINDOW / 2]);
      MedianJudges(window, win[..], speed);
      count := 0;
      Judge(speed, ns);
    }

    // The verdict and what it does to the back-off.
    method Judge(speed: real, ns: nat)
      requires Inv(Value())
      modifies this`slowWindows, this`cleanWindows, this`degraded, this`probing, this`holdNs, this`retryAtNs
      ensures Value() == Verdict(old(Value()), speed, ns) && Inv(Value())
    {
      if degraded {
        if ns < retryAtNs { return; }
        if speed < DUP_OK {
          retryAtNs := ns + holdNs;
          return;
        }
        degraded, probing := false, true;
        return;
      }
      if speed < SLOW {
        if !probing {
          slowWindows := slowWindows + 1;
          if slowWindows < SLOW_WINDOWS { return; }
        }
        if probing {
          holdNs := holdNs * 2;
          if holdNs > HOLD_MAX_NS { holdNs := HOLD_MAX_NS; }
        }
        degraded, probing, slowWindows, cleanWindows := true, false, 0, 0;
        retryAtNs := ns + holdNs;
        return;
      }
      slowWindows := 0;
      if probing { probing := false; }
      cleanWindows := cleanWindows + 1;
      if cleanWindows >= CLEAN_WINDOWS {
        cleanWindows := CLEAN_WINDOWS;
        holdNs := HOLD_MIN_NS;
      }
    }
  }

  lemma MedianJudges(window: seq<real>, sorted: seq<real>, speed: real)
    requires |window| == |sorted| == WINDOW && multiset(window) == multiset(sorted) && Sorted(sorted)
    requires speed == Median(sorted)
    ensures CountBelow(window, SLOW) <= WINDOW / 2 - 1 ==> speed >= SLOW
    ensures CountBelow(window, SLOW) >= WINDOW / 2 + 1 ==> speed < SLOW
    ensures CountBelow(window, DUP_OK) <= WINDOW / 2 - 1 ==> speed >= DUP_OK
  {
    if CountBelow(window, SLOW) <= WINDOW / 2 - 1 { SpikesAreIgnored(window, sorted, SLOW); }
    if CountBelow(window, SLOW) >= WINDOW / 2 + 1 { SustainedSlownessIsSeen(window, sorted, SLOW); }
    if CountBelow(window, DUP_OK) <= WINDOW / 2 - 1 { SpikesAreIgnored(window, sorted, DUP_OK); }
  }
}
