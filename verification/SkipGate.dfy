// The cutscene skipper's gate: when a held skip combination may force an
// event to end. A grace window lets the game act first, a fade in flight
// holds the gate off up to a cap, and a forced skip starts a cooldown.

module SkipGateSpec {
  const GRACE := 90
  const FADE_MAX := 180
  const REARM := 45

  datatype Gate = Gate(hold: nat, fade: nat, cooldown: nat)

  // The combination let go, or held for one more call.
  datatype Call = Reset | Ask(fading: bool)

  ghost predicate Inv(g: Gate) { g.hold < GRACE && g.fade <= FADE_MAX && g.cooldown <= REARM }

  // One call: the gate after it, and whether it forces the skip.
  function Next(g: Gate, c: Call): (r: (Gate, bool))
    ensures Inv(g) ==> Inv(r.0)
  {
    match c
    case Reset => (Gate(0, 0, g.cooldown), false)
    case Ask(fading) =>
      if g.cooldown > 0 then (g.(cooldown := g.cooldown - 1), false)
      else if fading && g.fade < FADE_MAX then (g.(fade := g.fade + 1), false)
      else
        var fade := if fading then g.fade else 0;
        if g.hold + 1 < GRACE then (Gate(g.hold + 1, fade, 0), false) else (Gate(0, fade, REARM), true)
  }

  function After(g: Gate, calls: seq<Call>): (r: Gate)
    ensures Inv(g) ==> Inv(r)
    decreases calls
  {
    if calls == [] then g else After(Next(g, calls[0]).0, calls[1..])
  }

  // Call i of a run forces the skip.
  predicate Fires(g: Gate, calls: seq<Call>, i: nat)
    requires i < |calls|
    decreases calls
  {
    if i == 0 then Next(g, calls[0]).1 else Fires(Next(g, calls[0]).0, calls[1..], i - 1)
  }

  function Asks(calls: seq<Call>): nat {
    if calls == [] then 0 else (if calls[0].Ask? then 1 else 0) + Asks(calls[1..])
  }

  lemma {:induction false} FiresFrom(g: Gate, calls: seq<Call>, i: nat, j: nat)
    requires i <= j < |calls|
    ensures Fires(g, calls, j) <==> Fires(After(g, calls[..i]), calls[i..], j - i)
    decreases calls
  {
    if i == 0 {
      assert calls[..0] == [] && calls[0..] == calls;
    } else {
      assert calls[..i][1..] == calls[1..][..i - 1] && calls[1..][i - 1..] == calls[i..];
      FiresFrom(Next(g, calls[0]).0, calls[1..], i - 1, j - 1);
    }
  }

  // --- Never sooner ---

  // The fewest held calls before a gate can fire.
  function Soonest(g: Gate): int { g.cooldown + GRACE - g.hold }

  lemma {:induction false} NoFireBefore(g: Gate, calls: seq<Call>, j: nat)
    requires Inv(g) && j < |calls| && Fires(g, calls, j)
    ensures Asks(calls[..j + 1]) >= Soonest(g)
    decreases calls
  {
    assert calls[..j + 1][1..] == calls[1..][..j];
    if j > 0 { NoFireBefore(Next(g, calls[0]).0, calls[1..], j - 1); }
  }

  lemma FireResets(g: Gate, calls: seq<Call>, i: nat)
    requires Inv(g) && i < |calls| && Fires(g, calls, i)
    ensures Soonest(After(g, calls[..i + 1])) == REARM + GRACE
  {
    FiresFrom(g, calls, i, i);
    AfterSnoc(g, calls[..i], calls[i]);
    assert calls[..i] + [calls[i]] == calls[..i + 1];
  }

  lemma {:induction false} AfterSnoc(g: Gate, calls: seq<Call>, c: Call)
    ensures After(g, calls + [c]) == Next(After(g, calls), c).0
    decreases calls
  {
    if calls == [] {
      assert [] + [c] == [c];
    } else {
      assert (calls + [c])[1..] == calls[1..] + [c];
      AfterSnoc(Next(g, calls[0]).0, calls[1..], c);
    }
  }

  // In any run, however often the combination is let go in between, two
  // forced skips are at least 135 held calls apart.
  lemma FiresFarApart(g: Gate, calls: seq<Call>, i: nat, j: nat)
    requires Inv(g) && i < j < |calls| && Fires(g, calls, i) && Fires(g, calls, j)
    ensures Asks(calls[i + 1..j + 1]) >= 135
  {
    FireResets(g, calls, i);
    FiresFrom(g, calls, i + 1, j);
    NoFireBefore(After(g, calls[..i + 1]), calls[i + 1..], j - i - 1);
    assert calls[i + 1..][..j - i] == calls[i + 1..j + 1];
  }

  // --- Never later ---

  // The most held calls a gate can be kept from firing, over every fade.
  function Latest(g: Gate): int { g.cooldown + (GRACE - g.hold) * (FADE_MAX + 1) - g.fade }

  ghost predicate Held(calls: seq<Call>) { forall i :: 0 <= i < |calls| ==> calls[i].Ask? }

  lemma LatestBounds(g: Gate)
    requires Inv(g)
    ensures 1 <= Latest(g) <= REARM + GRACE * (FADE_MAX + 1) == 45 + 90 * 181
  {
    assert (GRACE - g.hold) * (FADE_MAX + 1) >= FADE_MAX + 1;
  }

  lemma AskCounts(g: Gate, fading: bool)
    requires Inv(g)
    ensures Next(g, Ask(fading)).1 || Latest(Next(g, Ask(fading)).0) <= Latest(g) - 1
    ensures Next(g, Ask(fading)).1 ==> g.cooldown == 0 && g.hold == GRACE - 1
  {}

  // A combination held long enough fires, whatever the fade does.
  lemma {:induction false} HeldFires(g: Gate, calls: seq<Call>) returns (i: nat)
    requires Inv(g) && Held(calls) && |calls| >= Latest(g)
    ensures i < |calls| && i < Latest(g) && Fires(g, calls, i)
    decreases |calls|
  {
    LatestBounds(g);
    AskCounts(g, calls[0].fading);
    if Next(g, calls[0]).1 {
      i := 0;
    } else {
      var k := HeldFires(Next(g, calls[0]).0, calls[1..]);
      i := k + 1;
    }
  }

  // And the bound is exact: some fade keeps the gate shut for every call
  // before the last.
  lemma {:induction false} WorstFade(g: Gate, n: nat) returns (calls: seq<Call>)
    requires Inv(g) && n < Latest(g)
    ensures |calls| == n && Held(calls) && forall i :: 0 <= i < n ==> !Fires(g, calls, i)
    decreases n
  {
    if n == 0 { return []; }
    var c := Ask(g.cooldown == 0 && g.fade < FADE_MAX);
    var next := Next(g, c).0;
    var rest := WorstFade(next, n - 1);
    calls := [c] + rest;
    assert calls[1..] == rest;
    forall i | 0 <= i < n ensures !Fires(g, calls, i) {
      if i > 0 { assert !Fires(next, rest, i - 1); }
    }
  }
}

module SkipGate {
  import opened SkipGateSpec

  class ForcedSkip {
    var hold: nat
    var fade: nat
    var cooldown: nat

    ghost function State(): Gate
      reads this
    {
      Gate(hold, fade, cooldown)
    }

    constructor ()
      ensures State() == Gate(0, 0, 0)
    {
      hold, fade, cooldown := 0, 0, 0;
    }

    // Letting go keeps the cooldown.
    method LetGo()
      modifies this
      ensures State() == Next(old(State()), Reset).0
    {
      hold, fade := 0, 0;
    }

    method ForceNow(fading: bool) returns (force: bool)
      modifies this
      ensures (State(), force) == Next(old(State()), Ask(fading))
    {
      if cooldown > 0 {
        cooldown := cooldown - 1;
        return false;
      }
      if fading {
        if fade < FADE_MAX {
          fade := fade + 1;
          return false;
        }
      } else {
        fade := 0;
      }
      hold := hold + 1;
      if hold < GRACE { return false; }
      hold := 0;
      cooldown := REARM;
      return true;
    }
  }
}
