// The heap-parity pin. The game alternates two heaps: Painter's free() flips
// the current heap and recycles it, fpcDw builds the packet list into it.
// Render-only iterations replay a list without building a new one, so the
// current heap is pinned at every Painter entry to the heap of the live list.

module HeapPin {
  // What one frame-loop iteration is: whether the split decision finds a
  // usable display, whether it wants the split, and which class of frame it
  // decides on; and whether an R-iteration repaints or re-presents.
  datatype Decision = Blind | Off | On(logic: bool)
  datatype Iteration = Iteration(decision: Decision, repaint: bool)

  // current is the game's mCurrentHeap, pinned the mod's s_list_heap.
  // heaps holds the list each heap carries; built and holder are history: the
  // newest list and the heap it was built into.
  datatype Loop = Loop(
    current: bool, pinned: bool, split: bool, logic: bool,
    heaps: map<bool, nat>, built: nat, holder: bool)

  // The split decision and the parity bookkeeping around it.
  function Decide(s: Loop, d: Decision): Loop {
    match d
    case Blind => s
    case Off => s.(pinned := s.current, split := false, logic := true)
    case On(logic) => if !s.split then s.(pinned := s.current, split := true, logic := true) else s.(logic := logic)
  }

  function Enter(s: Loop, d: Decision, pin: bool): Loop {
    var s1 := if s.split && pin then s.(current := s.pinned) else s;
    var s2 := Decide(s1, d);
    if s2.logic && pin && s2.split then s2.(pinned := !s2.pinned) else s2
  }

  // Painter's free(): flip and recycle.
  function Free(s: Loop): Loop { s.(current := !s.current, heaps := s.heaps - {!s.current}) }

  // fpcDw, gated off on R-frames.
  function Build(s: Loop): Loop {
    s.(heaps := s.heaps[s.current := s.built + 1], built := s.built + 1, holder := s.current)
  }

  function RunsPainter(s: Loop, it: Iteration): bool { !s.split || s.logic || it.repaint }

  // Painter entry, free(), the replay of the list, then fpcDw.
  function Step(s: Loop, it: Iteration, pin: bool): Loop {
    var e := Enter(s, it.decision, pin);
    var p := if RunsPainter(e, it) then Free(e) else e;
    if !e.split || e.logic then Build(p) else p
  }

  // The list Painter replays in this iteration, after its free().
  function Drawn(s: Loop, it: Iteration, pin: bool): map<bool, nat> {
    var e := Enter(s, it.decision, pin);
    (if RunsPainter(e, it) then Free(e) else e).heaps
  }

  ghost predicate Inv(s: Loop) {
    && s.holder in s.heaps && s.heaps[s.holder] == s.built
    && (if s.split then s.pinned == s.holder else s.current == s.holder && s.logic)
  }

  lemma StepKeepsInv(s: Loop, it: Iteration)
    requires Inv(s)
    ensures Inv(Step(s, it, true))
  {}

  // free() recycles the other heap: the list about to be drawn is the newest
  // one and it is still there.
  lemma DrawsNewestList(s: Loop, it: Iteration)
    requires Inv(s)
    ensures
      var e := Enter(s, it.decision, true);
      && (RunsPainter(e, it) ==> Free(e).current != s.holder)
      && s.holder in Drawn(s, it, true) && Drawn(s, it, true)[s.holder] == s.built
  {}

  function Run(s: Loop, its: seq<Iteration>, pin: bool): Loop
    decreases |its|
  {
    if its == [] then s else Run(Step(s, its[0], pin), its[1..], pin)
  }

  // Over every run of logic, repainted, duplicate and unsplit iterations with
  // engage and disengage edges anywhere.
  lemma {:induction false} LiveListIsNeverRecycled(s: Loop, its: seq<Iteration>, next: Iteration)
    requires Inv(s)
    ensures
      var r := Run(s, its, true);
      Inv(r) && r.holder in Drawn(r, next, true) && Drawn(r, next, true)[r.holder] == r.built
    decreases |its|
  {
    if its == [] {
      DrawsNewestList(s, next);
    } else {
      StepKeepsInv(s, its[0]);
      LiveListIsNeverRecycled(Step(s, its[0], true), its[1..], next);
    }
  }

  // Without the pin an engaged R-repaint is followed by a frame whose free()
  // recycles the very list it draws, exactly when that frame paints.
  lemma UnpinnedRepaintLosesList(s: Loop, next: Iteration)
    requires Inv(s) && s.split && s.current == s.holder && s.logic
    requires next.decision.On?
    ensures
      var r := Step(s, Iteration(On(false), true), false);
      s.holder in Drawn(r, next, false) <==> !RunsPainter(Enter(r, next.decision, false), next)
  {}

  // The hook and the game's two calls as they update their state.
  class PainterHook {
    var current: bool
    var pinned: bool
    var split: bool
    var logic: bool
    var heaps: map<bool, nat>
    var built: nat
    ghost var holder: bool

    ghost function Value(): Loop
      reads this
    {
      Loop(current, pinned, split, logic, heaps, built, holder)
    }

    method OnPainterEntry(d: Decision, pin: bool)
      modifies this
      ensures Value() == Enter(old(Value()), d, pin)
    {
      if split && pin { current := pinned; }
      match d {
        case Blind =>
        case Off => pinned, split, logic := current, false, true;
        case On(l) =>
          if !split {
            pinned, split, logic := current, true, true;
          } else {
            logic := l;
          }
      }
      if logic && pin && split { pinned := !pinned; }
    }

    // Painter's free().
    method RecycleOther()
      modifies this
      ensures Value() == Free(old(Value()))
    {
      current := !current;
      heaps := heaps - {current};
    }

    // fpcDw.
    method BuildList()
      modifies this
      ensures Value() == Build(old(Value()))
    {
      built := built + 1;
      heaps := heaps[current := built];
      holder := current;
    }

    method OneIteration(it: Iteration) returns (drawn: nat)
      requires Inv(Value())
      modifies this
      ensures Value() == Step(old(Value()), it, true) && Inv(Value())
      ensures drawn == old(built)
    {
      DrawsNewestList(Value(), it);
      StepKeepsInv(Value(), it);
      ghost var list := holder;
      OnPainterEntry(it.decision, true);
      if !split || logic || it.repaint { RecycleOther(); }
      // The packet list's own pointer: the heap that is not being filled.
      drawn := heaps[if !split || logic || it.repaint then !current else pinned];
      if !split || logic { BuildList(); }
    }
  }
}
