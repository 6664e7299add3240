// The pose history of one animated model and the protocol that injects an
// interpolated pose into the game's own matrix array and takes it out again.
//
// The array ("live") is written by three parties: the game's production, an
// R-frame's injection, and the restore that an L-frame folds into its
// snapshot. `PoseSpec` gives every operation as a function on values and
// proves the protocol; `PoseTracks` holds the operations as the program runs
// them, in place, proved equal to those functions.

module PoseSpec {
  import opened ModArith

  // A 3x4 matrix, row by row; elements 3, 7 and 11 are the translation.
  type Mtx = m: seq<real> | |m| == 12 witness seq(12, _ => 0.0)
  type Pose = seq<Mtx>

  const TELEPORT_AXIS := 400.0
  const TELEPORT_SUM := 500.0

  // One matrix array and its history buffers.
  datatype Track = Track(live: Pose, prev: Pose, curr: Pose, scratch: Pose, hasPrev: bool)

  datatype Rotated = Rotated(track: Track, dirty: bool, teleported: bool)

  predicate Sized(t: Track, n: nat) {
    |t.live| == n && |t.prev| == n && |t.curr| == n && |t.scratch| == n
  }

  predicate IsTeleport(from: Mtx, to: Mtx) {
    var ax, ay, az := Abs(to[3] - from[3]), Abs(to[7] - from[7]), Abs(to[11] - from[11]);
    ax > TELEPORT_AXIS || ay > TELEPORT_AXIS || az > TELEPORT_AXIS || ax + ay + az > TELEPORT_SUM
  }

  // hist_rotate: seed, snap across a teleport, or shift the pair by one pose.
  function Rotate(t: Track, pose: Pose): Rotated
    requires |pose| > 0 && |t.curr| > 0
  {
    if !t.hasPrev then Rotated(t.(prev := pose, curr := pose, hasPrev := true), false, false)
    else if IsTeleport(t.curr[0], pose[0]) then Rotated(t.(prev := pose, curr := pose), false, true)
    else Rotated(t.(prev := t.curr, curr := pose), pose != t.curr, false)
  }

  function LerpMtx(a: Mtx, b: Mtx, alpha: real): Mtx {
    seq(12, i requires 0 <= i < 12 => Blend(a[i], b[i], alpha))
  }

  function Lerp(a: Pose, b: Pose, alpha: real): Pose
    requires |a| == |b|
  {
    seq(|a|, j requires 0 <= j < |a| => LerpMtx(a[j], b[j], alpha))
  }

  // The sparse store: only blocks whose bytes differ from ref are written.
  function WriteDiff(live: Pose, src: Pose, ref: Pose): Pose
    requires |live| == |src| == |ref|
  {
    seq(|live|, j requires 0 <= j < |live| => if src[j] != ref[j] then src[j] else live[j])
  }

  // When ref is what the array holds, the sparse store is the full store.
  lemma SparseIsFull(live: Pose, src: Pose, ref: Pose)
    requires |live| == |src| == |ref| && live == ref
    ensures WriteDiff(live, src, ref) == src
  {}

  // The scratch-match restore shared by snapshot and cut: put curr back
  // exactly when the array still holds what was injected.
  function RestoreTrack(t: Track): Track
    requires |t.live| == |t.curr| == |t.scratch|
  {
    if t.live == t.scratch then t.(live := WriteDiff(t.live, t.curr, t.scratch)) else t
  }

  // An array never holds anything but the last produced pose or our own lerp,
  // and while it holds the lerp, curr is the last produced pose.
  ghost predicate Good(t: Track, injected: bool, produced: Pose) {
    if injected && t.live == t.scratch
    then t.curr == produced && (!t.hasPrev ==> t.live == t.curr)
    else t.live == produced
  }

  // The one coincidence that defeats the scratch compare: production writes
  // exactly the outstanding lerp, and that is not the pose curr holds.
  ghost predicate Collides(t: Track, injected: bool, p: Pose) {
    injected && p == t.scratch && p != t.curr
  }

  // --- Buffered models: one array, drawn from mpDrawMtxBuf -----------------

  datatype Buffered = Buffered(
    t: Track, dirty: bool, teleported: bool, injected: bool, masked: bool,
    produced: Pose, drawn: Pose)

  // A frame-loop event as one model sees it. `Disengage` is the reset on a
  // split edge; `Dup` an R-frame that re-presents without repainting.
  datatype Event =
    | LFrame
    | Produce(pose: Pose)
    | RFrame(alpha: real, cut: bool)
    | Dup
    | Disengage

  function Snapshot(m: Buffered): Buffered
    requires |m.t.live| > 0 && Sized(m.t, |m.t.live|)
  {
    var t := if m.injected then RestoreTrack(m.t) else m.t;
    var r := Rotate(t, t.live);
    m.(t := r.track, dirty := r.dirty, teleported := r.teleported, injected := false, masked := false)
  }

  function Refresh(m: Buffered): Buffered
    requires |m.t.live| > 0 && Sized(m.t, |m.t.live|)
  {
    if m.teleported then m
    else if m.injected && m.t.live == m.t.scratch then m.(masked := true)
    else
      var m1 := m.(injected := false, masked := false);
      if m.t.live == m.t.curr then m1
      else
        var r := Rotate(m.t, m.t.live);
        m1.(t := r.track, dirty := r.dirty, teleported := r.teleported)
  }

  function Inject(m: Buffered, alpha: real): Buffered
    requires |m.t.live| > 0 && Sized(m.t, |m.t.live|)
  {
    if alpha <= 0.0 || alpha >= 1.0 || m.teleported || !m.t.hasPrev || !m.dirty then m
    else
      var lerp := Lerp(m.t.prev, m.t.curr, alpha);
      var ref := if m.masked then m.t.scratch else m.t.curr;
      m.(t := m.t.(live := WriteDiff(m.t.live, lerp, ref), scratch := lerp), masked := true, injected := true)
  }

  function RestoreInjected(m: Buffered): Buffered
    requires |m.t.live| > 0 && Sized(m.t, |m.t.live|)
  {
    if !m.injected then m
    else m.(t := if m.t.hasPrev then RestoreTrack(m.t) else m.t, injected := false, masked := false)
  }

  function Apply(m: Buffered, e: Event): Buffered
    requires |m.t.live| > 0 && Sized(m.t, |m.t.live|)
    requires e.Produce? ==> |e.pose| == |m.t.live|
  {
    match e
    case LFrame => var s := Snapshot(m); s.(drawn := s.t.live)
    case Produce(p) => m.(t := m.t.(live := p), produced := p)
    case RFrame(alpha, cut) => if cut then RestoreInjected(Refresh(m)) else Inject(Refresh(m), alpha)
    case Dup => m
    case Disengage => RestoreInjected(m)
  }

  ghost predicate Inv(m: Buffered) {
    && |m.t.live| > 0 && Sized(m.t, |m.t.live|)
    && m.masked == m.injected
    && (m.injected ==> m.t.hasPrev)
    && Good(m.t, m.injected, m.produced)
  }

  // What refresh establishes for the injection that follows it.
  ghost predicate Settled(m: Buffered) {
    m.teleported || if m.masked then m.t.live == m.t.scratch else m.t.live == m.t.curr
  }

  lemma SnapshotKeepsInv(m: Buffered)
    requires Inv(m)
    ensures Inv(Snapshot(m)) && Snapshot(m).t.live == m.produced && Snapshot(m).t.curr == m.produced
    ensures Snapshot(m).t.hasPrev && !Snapshot(m).injected
  {
    SparseIsFull(m.t.scratch, m.t.curr, m.t.scratch);
  }

  lemma RefreshSettles(m: Buffered)
    requires Inv(m)
    ensures Inv(Refresh(m)) && Settled(Refresh(m))
    ensures !Refresh(m).teleported ==> Refresh(m).t.curr == m.produced
    ensures Refresh(m).t.live == m.t.live
  {}

  // The sparse injection leaves the array holding the whole lerp.
  lemma InjectIsFullLerp(m: Buffered, alpha: real)
    requires Inv(m) && Settled(m) && (!m.teleported ==> m.t.curr == m.produced)
    ensures Inv(Inject(m, alpha))
    ensures
      var writes := 0.0 < alpha < 1.0 && !m.teleported && m.t.hasPrev && m.dirty;
      Inject(m, alpha).t.live == if writes then Lerp(m.t.prev, m.t.curr, alpha) else m.t.live
    ensures Inject(m, alpha).t.prev == m.t.prev && Inject(m, alpha).t.curr == m.t.curr
  {
    var ref := if m.masked then m.t.scratch else m.t.curr;
    if !m.teleported {
      SparseIsFull(m.t.live, Lerp(m.t.prev, m.t.curr, alpha), ref);
    }
  }

  lemma RestoreInjectedRestores(m: Buffered)
    requires Inv(m)
    ensures Inv(RestoreInjected(m)) && RestoreInjected(m).t.live == m.produced
    ensures !RestoreInjected(m).injected
  {
    SparseIsFull(m.t.scratch, m.t.curr, m.t.scratch);
  }

  lemma ApplyKeepsInv(m: Buffered, e: Event)
    requires Inv(m)
    requires e.Produce? ==> |e.pose| == |m.t.live| && !Collides(m.t, m.injected, e.pose)
    ensures Inv(Apply(m, e)) && |Apply(m, e).t.live| == |m.t.live|
    ensures e.LFrame? ==> Apply(m, e).drawn == m.produced
    ensures e.RFrame? && e.cut ==> Apply(m, e).t.live == m.produced
    ensures e.Disengage? ==> Apply(m, e).t.live == m.produced
    ensures e.Produce? || Apply(m, e).produced == m.produced
  {
    match e
    case LFrame => SnapshotKeepsInv(m);
    case Produce(_) =>
    case RFrame(alpha, cut) =>
      RefreshSettles(m);
      if cut { RestoreInjectedRestores(Refresh(m)); } else { InjectIsFullLerp(Refresh(m), alpha); }
    case Dup =>
    case Disengage => RestoreInjectedRestores(m);
  }

  // The hypothesis is exact: from any good state, the L-frame after a
  // production draws what was produced if and only if it does not collide.
  lemma DrawsProducedIff(m: Buffered, p: Pose)
    requires Inv(m) && |p| == |m.t.live|
    ensures Snapshot(Apply(m, Produce(p))).t.live == p <==> !Collides(m.t, m.injected, p)
  {
    SparseIsFull(p, m.t.curr, p);
  }

  // Running a list of events.
  ghost predicate Wellformed(m: Buffered, events: seq<Event>)
    requires Inv(m)
    decreases |events|
  {
    events == [] ||
    (&& (events[0].Produce? ==> |events[0].pose| == |m.t.live| && !Collides(m.t, m.injected, events[0].pose))
     && (ApplyKeepsInv(m, events[0]); Wellformed(Apply(m, events[0]), events[1..])))
  }

  function LastProduced(p: Pose, events: seq<Event>): Pose
    decreases |events|
  {
    if events == [] then p
    else LastProduced(if events[0].Produce? then events[0].pose else p, events[1..])
  }

  ghost function Run(m: Buffered, events: seq<Event>): Buffered
    requires Inv(m) && Wellformed(m, events)
    decreases |events|
  {
    if events == [] then m else ApplyKeepsInv(m, events[0]); Run(Apply(m, events[0]), events[1..])
  }

  lemma {:induction false} RunKeepsInv(m: Buffered, events: seq<Event>)
    requires Inv(m) && Wellformed(m, events)
    ensures Inv(Run(m, events)) && Run(m, events).produced == LastProduced(m.produced, events)
    decreases |events|
  {
    if events != [] {
      ApplyKeepsInv(m, events[0]);
      RunKeepsInv(Apply(m, events[0]), events[1..]);
    }
  }

  // After any run, an L-frame draws what production last wrote and not a
  // lerp, and a camera cut or a disengage leaves no lerp behind.
  lemma LFrameIsAuthoritative(m: Buffered, events: seq<Event>, alpha: real)
    requires Inv(m) && Wellformed(m, events)
    ensures var s := Run(m, events);
      && Inv(s)
      && Apply(s, LFrame).drawn == LastProduced(m.produced, events)
      && Apply(s, RFrame(alpha, true)).t.live == LastProduced(m.produced, events)
      && Apply(s, Disengage).t.live == LastProduced(m.produced, events)
  {
    RunKeepsInv(m, events);
    var s := Run(m, events);
    ApplyKeepsInv(s, LFrame);
    ApplyKeepsInv(s, RFrame(alpha, true));
    ApplyKeepsInv(s, Disengage);
  }

  // What the R-frame after an L-frame and its production shows. A new pose p
  // is approached from the pose the L-frame drew. When production repeated
  // that pose, the pair the snapshot left is used instead.
  lemma RFrameShows(m: Buffered, p: Pose, alpha: real)
    requires Inv(m) && |p| == |m.t.live| && 0.0 < alpha < 1.0
    ensures
      var l := Apply(m, LFrame);
      var r := Apply(Apply(l, Produce(p)), RFrame(alpha, false));
      && l.drawn == m.produced
      && (l.teleported ==> r.t.live == p)
      && (!l.teleported && p != l.drawn && IsTeleport(l.drawn[0], p[0]) ==> r.t.live == p)
      && (!l.teleported && p != l.drawn && !IsTeleport(l.drawn[0], p[0]) ==>
            r.t.prev == l.drawn && r.t.curr == p && r.t.live == Lerp(l.drawn, p, alpha))
      && (!l.teleported && p == l.drawn ==>
            r.t.prev == l.t.prev && r.t.curr == p && r.t.live == if l.dirty then Lerp(l.t.prev, p, alpha) else p)
  {
    SnapshotKeepsInv(m);
    var l := Apply(m, LFrame);
    var q := Apply(l, Produce(p));
    assert Inv(q);
    RefreshSettles(q);
    InjectIsFullLerp(Refresh(q), alpha);
  }

  // When production writes exactly the pose an R-frame shows, the next L-frame
  // takes it for its own and draws the pose produced before it.
  lemma CollisionDrawsOlderPose(m: Buffered, p: Pose, alpha: real)
    requires Inv(m) && |p| == |m.t.live| && 0.0 < alpha < 1.0 && !Apply(m, LFrame).teleported
    requires p != m.produced && !IsTeleport(m.produced[0], p[0]) && Lerp(m.produced, p, alpha) != p
    ensures
      var r := Apply(Apply(Apply(m, LFrame), Produce(p)), RFrame(alpha, false));
      var mid := Lerp(m.produced, p, alpha);
      && r.t.live == mid && Collides(r.t, r.injected, mid)
      && Apply(Apply(r, Produce(mid)), LFrame).drawn == p
  {
    RFrameShows(m, p, alpha);
    SnapshotKeepsInv(m);
    var l := Apply(m, LFrame);
    var q := Apply(l, Produce(p));
    RefreshSettles(q);
    InjectIsFullLerp(Refresh(q), alpha);
    var mid := Lerp(m.produced, p, alpha);
    SparseIsFull(mid, p, mid);
  }

  function Uniform(x: real): Mtx { seq(12, _ => x) }

  lemma HalfWay()
    ensures LerpMtx(Uniform(0.0), Uniform(1.0), 0.5) == Uniform(0.5)
  {
    var m := LerpMtx(Uniform(0.0), Uniform(1.0), 0.5);
    forall i | 0 <= i < 12 ensures m[i] == Uniform(0.5)[i] {
      assert Blend(0.0, 1.0, 0.5) == 0.5;
    }
  }

  // Such a run: a model at rest moves by one, and then back by half of it.
  lemma CollidingRun()
    ensures
      var rest, moved, half := [Uniform(0.0)], [Uniform(1.0)], [Uniform(0.5)];
      var m := Buffered(Track(rest, rest, rest, rest, false), false, false, false, false, rest, rest);
      var r := Apply(Apply(Apply(m, LFrame), Produce(moved)), RFrame(0.5, false));
      && Inv(m) && half != moved
      && Apply(Apply(r, Produce(half)), LFrame).drawn == moved
  {
    var rest, moved, half := [Uniform(0.0)], [Uniform(1.0)], [Uniform(0.5)];
    var m := Buffered(Track(rest, rest, rest, rest, false), false, false, false, false, rest, rest);
    assert rest[0][0] == 0.0 && moved[0][0] == 1.0 && half[0][0] == 0.5;
    HalfWay();
    assert Lerp(rest, moved, 0.5) == half;
    CollisionDrawsOlderPose(m, moved, 0.5);
  }

  // Later R-frames with nothing produced keep that pair, at any alpha.
  lemma PairStaysFixed(m: Buffered, alpha: real)
    requires Inv(m) && Settled(m)
    ensures
      var r := Apply(m, RFrame(alpha, false));
      && Inv(r) && Settled(r)
      && r.t.prev == m.t.prev && r.t.curr == m.t.curr && r.dirty == m.dirty && r.teleported == m.teleported
      && (0.0 < alpha < 1.0 && !m.teleported && m.t.hasPrev && m.dirty ==>
            r.t.live == Lerp(m.t.prev, m.t.curr, alpha))
  {
    RefreshSettles(m);
    InjectIsFullLerp(Refresh(m), alpha);
  }

  function RFrames(m: Buffered, alphas: seq<real>): Buffered
    requires |m.t.live| > 0 && Sized(m.t, |m.t.live|)
    decreases |alphas|
  {
    if alphas == [] then m
    else
      var r := Apply(m, RFrame(alphas[0], false));
      if |r.t.live| > 0 && Sized(r.t, |r.t.live|) then RFrames(r, alphas[1..]) else r
  }

  lemma {:induction false} PairStaysFixedOverRun(m: Buffered, alphas: seq<real>)
    requires Inv(m) && Settled(m) && !m.teleported && m.t.hasPrev && m.dirty
    requires forall k :: 0 <= k < |alphas| ==> 0.0 < alphas[k] < 1.0
    ensures
      var r := RFrames(m, alphas);
      && r.t.prev == m.t.prev && r.t.curr == m.t.curr
      && (alphas != [] ==> r.t.live == Lerp(m.t.prev, m.t.curr, alphas[|alphas| - 1]))
    decreases |alphas|
  {
    if alphas != [] {
      PairStaysFixed(m, alphas[0]);
      PairStaysFixedOverRun(Apply(m, RFrame(alphas[0], false)), alphas[1..]);
    }
  }

  // The slip: two L-frames in a row, then no new pose. The R-frame replays
  // the step that was already shown.
  lemma SlipReplaysOlderPair(m: Buffered, a: Pose, b: Pose, alpha: real)
    requires Inv(m) && !m.injected && |a| == |b| == |m.t.live|
    requires a != b && !IsTeleport(a[0], b[0]) && 0.0 < alpha < 1.0
    ensures
      var l1 := Apply(Apply(m, Produce(a)), LFrame);
      var l2 := Apply(Apply(l1, Produce(b)), LFrame);
      var r := Apply(Apply(l2, Produce(b)), RFrame(alpha, false));
      l1.drawn == a && l2.drawn == b && r.t.live == Lerp(a, b, alpha)
  {
    var m1 := Apply(m, Produce(a));
    ApplyKeepsInv(m, Produce(a));
    SnapshotKeepsInv(m1);
    var l1 := Apply(m1, LFrame);
    var m2 := Apply(l1, Produce(b));
    ApplyKeepsInv(l1, Produce(b));
    SnapshotKeepsInv(m2);
    RFrameShows(m2, b, alpha);
  }

  // --- ConcatView models: two arrays (node, envelope) under shared flags ----

  // An empty envelope array stands for a model without envelope matrices.
  datatype Concat = Concat(
    node: Track, env: Track, dirty: bool, teleported: bool, injected: bool,
    nodeMasked: bool, envMasked: bool, producedNode: Pose, producedEnv: Pose)

  predicate ConcatSized(m: Concat) {
    && |m.node.live| > 0 && Sized(m.node, |m.node.live|) && Sized(m.env, |m.env.live|)
  }

  function RotateIfAny(t: Track, pose: Pose): Rotated
    requires |pose| > 0 ==> |t.curr| > 0
  {
    if |pose| == 0 then Rotated(t, false, false) else Rotate(t, pose)
  }

  function ObserveTrack(t: Track, restore: bool): Rotated
    requires Sized(t, |t.live|)
  {
    var t' := if restore then RestoreTrack(t) else t;
    RotateIfAny(t', t'.live)
  }

  function SnapshotConcat(m: Concat): Concat
    requires ConcatSized(m)
  {
    var n := ObserveTrack(m.node, m.injected);
    var e := ObserveTrack(m.env, m.injected);
    m.(node := n.track, env := e.track, dirty := n.dirty || e.dirty, teleported := n.teleported || e.teleported,
       injected := false, nodeMasked := false, envMasked := false)
  }

  // The R-frame rule: our own lerp is no observation, curr is no news, and
  // anything else is a fresh pose.
  datatype Look = Look(ours: bool, isNew: bool, seen: Rotated)

  function LookAgain(t: Track, injected: bool): (l: Look)
    requires Sized(t, |t.live|)
    ensures !l.isNew ==> !l.seen.dirty && !l.seen.teleported
  {
    var ours := |t.live| > 0 && injected && t.live == t.scratch;
    var isNew := |t.live| > 0 && !ours && t.live != t.curr;
    Look(ours, isNew, if isNew then Rotate(t, t.live) else Rotated(t, false, false))
  }

  function RefreshConcat(m: Concat): Concat
    requires ConcatSized(m)
  {
    if m.teleported then m
    else
      var n := LookAgain(m.node, m.injected);
      var e := LookAgain(m.env, m.injected);
      m.(node := n.seen.track, env := e.seen.track,
         dirty := (if n.isNew then n.seen.dirty else m.dirty) || e.seen.dirty,
         teleported := n.seen.teleported || e.seen.teleported,
         nodeMasked := n.ours, envMasked := e.ours)
  }

  lemma RefreshWhenTeleported(m: Concat)
    requires ConcatSized(m) && m.teleported
    ensures RefreshConcat(m) == m
  {}

  lemma RefreshIs(m: Concat, n: Look, e: Look)
    requires ConcatSized(m) && !m.teleported && n == LookAgain(m.node, m.injected) && e == LookAgain(m.env, m.injected)
    ensures RefreshConcat(m) ==
      Concat(n.seen.track, e.seen.track, (if n.isNew then n.seen.dirty else m.dirty) || e.seen.dirty,
             n.seen.teleported || e.seen.teleported, m.injected, n.ours, e.ours, m.producedNode, m.producedEnv)
  {}

  function InjectTrack(t: Track, masked: bool, alpha: real): Track
    requires Sized(t, |t.live|)
  {
    var lerp := Lerp(t.prev, t.curr, alpha);
    t.(live := WriteDiff(t.live, lerp, if masked then t.scratch else t.curr), scratch := lerp)
  }

  // An envelope without a first observation is left out of the injection.
  function InjectConcat(m: Concat, alpha: real): Concat
    requires ConcatSized(m)
  {
    if alpha <= 0.0 || alpha >= 1.0 || m.teleported || !m.node.hasPrev || !m.dirty then m
    else
      var withEnv := |m.env.live| > 0 && m.env.hasPrev;
      m.(node := InjectTrack(m.node, m.nodeMasked, alpha), nodeMasked := true, injected := true,
         env := if withEnv then InjectTrack(m.env, m.envMasked, alpha) else m.env,
         envMasked := m.envMasked || withEnv)
  }

  function RestoreInjectedConcat(m: Concat): Concat
    requires ConcatSized(m)
  {
    if !m.injected then m
    else m.(node := RestoreTrack(m.node), env := if m.env.hasPrev then RestoreTrack(m.env) else m.env,
            injected := false, nodeMasked := false, envMasked := false)
  }

  datatype ConcatEvent =
    | ConcatLFrame
    | ConcatProduce(node: Pose, env: Pose)
    | ConcatRFrame(alpha: real, cut: bool)
    | ConcatDisengage

  function ApplyConcat(m: Concat, e: ConcatEvent): Concat
    requires ConcatSized(m)
    requires e.ConcatProduce? ==> |e.node| == |m.node.live| && |e.env| == |m.env.live|
  {
    match e
    case ConcatLFrame => SnapshotConcat(m)
    case ConcatProduce(n, v) =>
      m.(node := m.node.(live := n), env := m.env.(live := v), producedNode := n, producedEnv := v)
    case ConcatRFrame(alpha, cut) =>
      if cut then RestoreInjectedConcat(RefreshConcat(m)) else InjectConcat(RefreshConcat(m), alpha)
    case ConcatDisengage => RestoreInjectedConcat(m)
  }

  ghost predicate ConcatInv(m: Concat) {
    && ConcatSized(m)
    && Good(m.node, m.injected, m.producedNode) && Good(m.env, m.injected, m.producedEnv)
    && (m.injected ==> m.node.hasPrev)
    && (m.nodeMasked || m.envMasked ==> m.injected)
  }

  ghost predicate SettledTrack(t: Track, masked: bool) {
    if masked then t.live == t.scratch else t.live == t.curr
  }

  ghost predicate ConcatSettled(m: Concat) {
    m.teleported || (SettledTrack(m.node, m.nodeMasked) && SettledTrack(m.env, m.envMasked))
  }

  lemma RestoreTrackRestores(t: Track, produced: Pose)
    requires Sized(t, |t.live|) && Good(t, true, produced)
    ensures RestoreTrack(t).live == produced
    ensures !t.hasPrev ==> t.live == produced
  {
    SparseIsFull(t.scratch, t.curr, t.scratch);
  }

  lemma LookSettles(t: Track, injected: bool, produced: Pose)
    requires Sized(t, |t.live|) && Good(t, injected, produced)
    ensures var l := LookAgain(t, injected);
      && l.seen.track.live == t.live && Sized(l.seen.track, |t.live|) && Good(l.seen.track, injected, produced)
      && (t.hasPrev ==> l.seen.track.hasPrev)
      && (l.seen.teleported || (SettledTrack(l.seen.track, l.ours) && l.seen.track.curr == produced))
  {}

  lemma RefreshConcatSettles(m: Concat)
    requires ConcatInv(m)
    ensures ConcatInv(RefreshConcat(m)) && ConcatSettled(RefreshConcat(m))
    ensures var r := RefreshConcat(m);
      !r.teleported ==> r.node.curr == m.producedNode && r.env.curr == m.producedEnv
    ensures RefreshConcat(m).node.live == m.node.live && RefreshConcat(m).env.live == m.env.live
  {
    LookSettles(m.node, m.injected, m.producedNode);
    LookSettles(m.env, m.injected, m.producedEnv);
    hide LookAgain;
    hide Good;
    hide Sized;
  }

  lemma InjectTrackIsFullLerp(t: Track, masked: bool, alpha: real)
    requires Sized(t, |t.live|) && SettledTrack(t, masked)
    ensures InjectTrack(t, masked, alpha).live == Lerp(t.prev, t.curr, alpha)
    ensures Good(InjectTrack(t, masked, alpha), true, t.curr) || !t.hasPrev
  {
    SparseIsFull(t.live, Lerp(t.prev, t.curr, alpha), if masked then t.scratch else t.curr);
  }

  lemma InjectConcatIsFullLerp(m: Concat, alpha: real)
    requires ConcatInv(m) && ConcatSettled(m)
    requires !m.teleported ==> m.node.curr == m.producedNode && m.env.curr == m.producedEnv
    ensures ConcatInv(InjectConcat(m, alpha))
    ensures 0.0 < alpha < 1.0 && !m.teleported && m.node.hasPrev && m.dirty ==>
      && InjectConcat(m, alpha).node.live == Lerp(m.node.prev, m.node.curr, alpha)
      && (m.env.hasPrev ==> InjectConcat(m, alpha).env.live == Lerp(m.env.prev, m.env.curr, alpha))
  {
    if !m.teleported {
      InjectTrackIsFullLerp(m.node, m.nodeMasked, alpha);
      InjectTrackIsFullLerp(m.env, m.envMasked, alpha);
    }
  }

  lemma ObserveTrackRestores(t: Track, injected: bool, produced: Pose)
    requires Sized(t, |t.live|) && Good(t, injected, produced)
    ensures var r := ObserveTrack(t, injected).track;
      r.live == produced == r.curr && Sized(r, |t.live|) && (|t.live| > 0 ==> r.hasPrev)
  {
    if injected { RestoreTrackRestores(t, produced); }
  }

  lemma SnapshotConcatRestores(m: Concat)
    requires ConcatInv(m)
    ensures ConcatInv(SnapshotConcat(m)) && !SnapshotConcat(m).injected
    ensures SnapshotConcat(m).node.live == m.producedNode && SnapshotConcat(m).env.live == m.producedEnv
    ensures SnapshotConcat(m).node.curr == m.producedNode && SnapshotConcat(m).env.curr == m.producedEnv
    ensures SnapshotConcat(m).node.hasPrev && (|m.env.live| > 0 ==> SnapshotConcat(m).env.hasPrev)
  {
    ObserveTrackRestores(m.node, m.injected, m.producedNode);
    ObserveTrackRestores(m.env, m.injected, m.producedEnv);
  }

  lemma RestoreInjectedConcatRestores(m: Concat)
    requires ConcatInv(m)
    ensures var r := RestoreInjectedConcat(m);
      ConcatInv(r) && !r.injected && r.node.live == m.producedNode && r.env.live == m.producedEnv
  {
    if m.injected {
      RestoreTrackRestores(m.node, m.producedNode);
      RestoreTrackRestores(m.env, m.producedEnv);
    }
  }

  // One event of a ConcatView model: L-frames, cuts and disengage edges leave
  // both arrays at what production last wrote.
  lemma ConcatEventIsSafe(m: Concat, e: ConcatEvent)
    requires ConcatInv(m)
    requires e.ConcatProduce? ==>
      && |e.node| == |m.node.live| && |e.env| == |m.env.live|
      && !Collides(m.node, m.injected, e.node) && !Collides(m.env, m.injected, e.env)
    ensures ConcatInv(ApplyConcat(m, e))
    ensures var r := ApplyConcat(m, e);
      e.ConcatLFrame? || (e.ConcatRFrame? && e.cut) || e.ConcatDisengage? ==>
        r.node.live == m.producedNode && r.env.live == m.producedEnv && !r.injected
  {
    match e
    case ConcatLFrame => SnapshotConcatRestores(m);
    case ConcatProduce(_, _) =>
    case ConcatRFrame(alpha, cut) =>
      RefreshConcatSettles(m);
      if cut {
        RestoreInjectedConcatRestores(RefreshConcat(m));
      } else {
        InjectConcatIsFullLerp(RefreshConcat(m), alpha);
      }
    case ConcatDisengage => RestoreInjectedConcatRestores(m);
  }

  ghost predicate ConcatWellformed(m: Concat, events: seq<ConcatEvent>)
    requires ConcatInv(m)
    decreases |events|
  {
    events == [] ||
    (&& (events[0].ConcatProduce? ==>
           && |events[0].node| == |m.node.live| && |events[0].env| == |m.env.live|
           && !Collides(m.node, m.injected, events[0].node) && !Collides(m.env, m.injected, events[0].env))
     && (ConcatEventIsSafe(m, events[0]); ConcatWellformed(ApplyConcat(m, events[0]), events[1..])))
  }

  ghost function ConcatRun(m: Concat, events: seq<ConcatEvent>): Concat
    requires ConcatInv(m) && ConcatWellformed(m, events)
    decreases |events|
  {
    if events == [] then m
    else ConcatEventIsSafe(m, events[0]); ConcatRun(ApplyConcat(m, events[0]), events[1..])
  }

  function LastProducedPair(n: Pose, v: Pose, events: seq<ConcatEvent>): (Pose, Pose)
    decreases |events|
  {
    if events == [] then (n, v)
    else if events[0].ConcatProduce? then LastProducedPair(events[0].node, events[0].env, events[1..])
    else LastProducedPair(n, v, events[1..])
  }

  function LivePair(m: Concat): (Pose, Pose) { (m.node.live, m.env.live) }

  // After any run, an L-frame, a camera cut and a disengage edge each leave
  // both arrays at what production last wrote.
  lemma {:induction false} ConcatLFrameIsAuthoritative(m: Concat, events: seq<ConcatEvent>, alpha: real)
    requires ConcatInv(m) && ConcatWellformed(m, events)
    ensures ConcatInv(ConcatRun(m, events))
    ensures
      var s, last := ConcatRun(m, events), LastProducedPair(m.producedNode, m.producedEnv, events);
      && LivePair(ApplyConcat(s, ConcatLFrame)) == last
      && LivePair(ApplyConcat(s, ConcatRFrame(alpha, true))) == last
      && LivePair(ApplyConcat(s, ConcatDisengage)) == last
    decreases |events|
  {
    if events == [] {
      ConcatEventIsSafe(m, ConcatLFrame);
      ConcatEventIsSafe(m, ConcatRFrame(alpha, true));
      ConcatEventIsSafe(m, ConcatDisengage);
    } else {
      ConcatEventIsSafe(m, events[0]);
      ConcatLFrameIsAuthoritative(ApplyConcat(m, events[0]), events[1..], alpha);
    }
  }

  lemma ObserveTrackIff(t: Track, injected: bool, p: Pose)
    requires Sized(t, |t.live|) && |p| == |t.live|
    ensures ObserveTrack(t.(live := p), injected).track.live == p <==> !Collides(t, injected, p)
  {
    SparseIsFull(p, t.curr, p);
  }

  // The hypothesis on production is exact here too.
  lemma ConcatDrawsProducedIff(m: Concat, n: Pose, v: Pose)
    requires ConcatInv(m) && |n| == |m.node.live| && |v| == |m.env.live|
    ensures LivePair(ShowNext(m, n, v)) == (n, v)
       <==> !Collides(m.node, m.injected, n) && !Collides(m.env, m.injected, v)
  {
    ObserveTrackIff(m.node, m.injected, n);
    ObserveTrackIff(m.env, m.injected, v);
  }

  // One L-frame after the poses n and v were produced.
  function ShowNext(m: Concat, n: Pose, v: Pose): (r: Concat)
    requires ConcatSized(m) && |n| == |m.node.live| && |v| == |m.env.live|
    ensures ConcatSized(r) && |r.node.live| == |n| && |r.env.live| == |v|
  {
    ApplyConcat(ApplyConcat(m, ConcatProduce(n, v)), ConcatLFrame)
  }

  // --- Which pair a ConcatView R-frame shows --------------------------------

  // Where an array's interpolation starts when p follows the pose that was
  // drawn: at that pose, or, if production repeated it, at the older one.
  function From(t: Track, p: Pose): Pose { if p != t.live then t.live else t.prev }

  predicate Jumps(t: Track, p: Pose)
    requires |p| == |t.live|
  {
    p != t.live && IsTeleport(t.live[0], p[0])
  }

  // The look at an array that held its newest endpoint and was then produced.
  lemma LookAfterProduce(t: Track, p: Pose)
    requires Sized(t, |t.live|) && t.curr == t.live && |p| == |t.live| && (|p| > 0 ==> t.hasPrev)
    ensures var l := LookAgain(t.(live := p), false);
      && !l.ours && l.seen.track.live == p && l.seen.track.hasPrev == t.hasPrev && Sized(l.seen.track, |p|)
      && l.seen.teleported == Jumps(t, p) && l.seen.dirty == (p != t.live && !Jumps(t, p)) && l.isNew == (p != t.live)
      && (!Jumps(t, p) ==> l.seen.track.prev == From(t, p) && l.seen.track.curr == p)
  {}

  // Each array runs from the pose the L-frame drew to the one produced since;
  // an array that production left alone replays its own older pair as soon as
  // the other one moved. A jump of either array shows both as produced.
  ghost predicate ConcatShown(l: Concat, n: Pose, v: Pose, alpha: real, r: Concat)
    requires ConcatSized(l) && |n| == |l.node.live| && |v| == |l.env.live|
  {
    if l.teleported || Jumps(l.node, n) || Jumps(l.env, v) then r.node.live == n && r.env.live == v
    else
      && r.node.prev == From(l.node, n) && r.node.curr == n && r.env.prev == From(l.env, v) && r.env.curr == v
      && ConcatSettled(r) && !r.teleported
      && if n != l.node.live || v != l.env.live || l.dirty then
           && r.dirty && r.node.live == Lerp(From(l.node, n), n, alpha)
           && r.env.live == Lerp(From(l.env, v), v, alpha)
         else r.node.live == n && r.env.live == v
  }

  // The R-frame after an L-frame and its production.
  lemma ConcatRFrameShows(m: Concat, n: Pose, v: Pose, alpha: real)
    requires ConcatInv(m) && |n| == |m.node.live| && |v| == |m.env.live| && 0.0 < alpha < 1.0
    ensures
      var l := ApplyConcat(m, ConcatLFrame);
      var r := ApplyConcat(ApplyConcat(l, ConcatProduce(n, v)), ConcatRFrame(alpha, false));
      && l.node.live == m.producedNode && l.env.live == m.producedEnv && ConcatInv(r)
      && ConcatShown(l, n, v, alpha, r)
  {
    SnapshotConcatRestores(m);
    SameSizes(m);
    ConcatShowsAfter(ApplyConcat(m, ConcatLFrame), n, v, alpha);
  }

  lemma SameSizes(m: Concat)
    requires ConcatInv(m)
    ensures |SnapshotConcat(m).node.live| == |m.node.live| && |SnapshotConcat(m).env.live| == |m.env.live|
    ensures |m.producedNode| == |m.node.live| && |m.producedEnv| == |m.env.live|
  {
    SnapshotConcatRestores(m);
  }

  // The same from the state an L-frame leaves.
  lemma ConcatShowsAfter(l: Concat, n: Pose, v: Pose, alpha: real)
    requires ConcatInv(l) && !l.injected && |n| == |l.node.live| && |v| == |l.env.live| && 0.0 < alpha < 1.0
    requires l.node.curr == l.node.live && l.env.curr == l.env.live
    requires l.node.hasPrev && (|l.env.live| > 0 ==> l.env.hasPrev)
    ensures
      var r := ApplyConcat(ApplyConcat(l, ConcatProduce(n, v)), ConcatRFrame(alpha, false));
      && ConcatInv(r)
      && ConcatShown(l, n, v, alpha, r)
  {
    var q := ApplyConcat(l, ConcatProduce(n, v));
    assert ConcatInv(q);
    RefreshConcatSettles(q);
    LookAfterProduce(l.node, n);
    LookAfterProduce(l.env, v);
    InjectConcatIsFullLerp(RefreshConcat(q), alpha);
    InjectConcatKeeps(RefreshConcat(q), alpha);
    hide LookAgain;
    hide ConcatInv;
    hide SnapshotConcat;
    hide InjectConcat;
    hide Jumps;
  }

  // An injection leaves pair and flags, and the arrays settled.
  lemma InjectConcatKeeps(m: Concat, alpha: real)
    requires ConcatInv(m) && ConcatSettled(m)
    ensures var r := InjectConcat(m, alpha);
      && r.node.prev == m.node.prev && r.node.curr == m.node.curr
      && r.env.prev == m.env.prev && r.env.curr == m.env.curr
      && r.node.hasPrev == m.node.hasPrev && r.env.hasPrev == m.env.hasPrev
      && r.dirty == m.dirty && r.teleported == m.teleported
      && (m.teleported || alpha <= 0.0 || alpha >= 1.0 || !m.node.hasPrev || !m.dirty ==> r == m)
      && ConcatSettled(r)
  {
    if !m.teleported {
      InjectTrackSettles(m.node, m.nodeMasked, alpha);
      InjectTrackSettles(m.env, m.envMasked, alpha);
    }
    hide InjectTrack;
  }

  lemma InjectTrackSettles(t: Track, masked: bool, alpha: real)
    requires Sized(t, |t.live|) && SettledTrack(t, masked)
    ensures var r := InjectTrack(t, masked, alpha);
      SettledTrack(r, true) && r.prev == t.prev && r.curr == t.curr && r.hasPrev == t.hasPrev
  {
    InjectTrackIsFullLerp(t, masked, alpha);
  }

  // Later R-frames with nothing produced keep both pairs, at any alpha.
  lemma ConcatPairStaysFixed(m: Concat, alpha: real)
    requires ConcatInv(m) && ConcatSettled(m)
    ensures
      var r := ApplyConcat(m, ConcatRFrame(alpha, false));
      && ConcatInv(r) && ConcatSettled(r)
      && r.node.prev == m.node.prev && r.node.curr == m.node.curr
      && r.env.prev == m.env.prev && r.env.curr == m.env.curr
      && r.node.hasPrev == m.node.hasPrev && r.env.hasPrev == m.env.hasPrev
      && r.dirty == m.dirty && r.teleported == m.teleported
      && (0.0 < alpha < 1.0 && !m.teleported && m.node.hasPrev && m.dirty ==>
            && r.node.live == Lerp(m.node.prev, m.node.curr, alpha)
            && (m.env.hasPrev ==> r.env.live == Lerp(m.env.prev, m.env.curr, alpha)))
  {
    RefreshConcatSettles(m);
    LookAtSettled(m.node, m.injected, m.nodeMasked);
    LookAtSettled(m.env, m.injected, m.envMasked);
    InjectConcatIsFullLerp(RefreshConcat(m), alpha);
    InjectConcatKeeps(RefreshConcat(m), alpha);
    hide LookAgain;
    hide InjectConcat;
  }

  lemma LookAtSettled(t: Track, injected: bool, masked: bool)
    requires Sized(t, |t.live|) && (masked ==> injected)
    ensures SettledTrack(t, masked) ==>
      !LookAgain(t, injected).isNew && LookAgain(t, injected).seen == Rotated(t, false, false)
  {}

  ghost function ConcatRFrames(m: Concat, alphas: seq<real>): Concat
    requires ConcatInv(m) && ConcatSettled(m)
    decreases |alphas|
  {
    if alphas == [] then m
    else ConcatPairStaysFixed(m, alphas[0]); ConcatRFrames(ApplyConcat(m, ConcatRFrame(alphas[0], false)), alphas[1..])
  }

  lemma {:induction false} ConcatPairStaysFixedOverRun(m: Concat, alphas: seq<real>)
    requires ConcatInv(m) && ConcatSettled(m) && !m.teleported && m.node.hasPrev && m.dirty
    requires |m.env.live| > 0 ==> m.env.hasPrev
    requires forall k :: 0 <= k < |alphas| ==> 0.0 < alphas[k] < 1.0
    ensures
      var r := ConcatRFrames(m, alphas);
      && r.node.prev == m.node.prev && r.node.curr == m.node.curr
      && r.env.prev == m.env.prev && r.env.curr == m.env.curr
      && (alphas != [] ==>
            && r.node.live == Lerp(m.node.prev, m.node.curr, alphas[|alphas| - 1])
            && r.env.live == Lerp(m.env.prev, m.env.curr, alphas[|alphas| - 1]))
    decreases |alphas|
  {
    if alphas != [] {
      ConcatPairStaysFixed(m, alphas[0]);
      var r := ApplyConcat(m, ConcatRFrame(alphas[0], false));
      ConcatPairStaysFixedOverRun(r, alphas[1..]);
    }
  }

  // Two L-frames in a row; then only what production wrote after the second
  // one counts. With nothing new both arrays replay their older step; with one
  // array moving on, the other one replays its own.
  lemma ConcatSlipReplaysOlderPair(m: Concat, a: Pose, x: Pose, b: Pose, y: Pose, c: Pose, alpha: real)
    requires ConcatInv(m) && !m.injected && |a| == |b| == |c| == |m.node.live| && |x| == |y| == |m.env.live| > 0
    requires a != b && x != y && !IsTeleport(a[0], b[0]) && !IsTeleport(x[0], y[0]) && 0.0 < alpha < 1.0
    requires c != b ==> !IsTeleport(b[0], c[0])
    ensures
      var l1 := ShowNext(m, a, x);
      var l2 := ShowNext(l1, b, y);
      var r := ApplyConcat(ApplyConcat(l2, ConcatProduce(c, y)), ConcatRFrame(alpha, false));
      && LivePair(l1) == (a, x) && LivePair(l2) == (b, y)
      && r.node.live == (if c == b then Lerp(a, b, alpha) else Lerp(b, c, alpha))
      && r.env.live == Lerp(x, y, alpha)
  {
    var m1 := ApplyConcat(m, ConcatProduce(a, x));
    SnapshotConcatRestores(m1);
    var l1 := ApplyConcat(m1, ConcatLFrame);
    var m2 := ApplyConcat(l1, ConcatProduce(b, y));
    SnapshotConcatRestores(m2);
    SnapshotRotates(l1, b, y);
    ConcatRFrameShows(m2, c, y, alpha);
  }

  // A snapshot of fresh poses shifts both pairs.
  lemma SnapshotRotates(l: Concat, b: Pose, y: Pose)
    requires ConcatSized(l) && !l.injected && l.node.hasPrev && l.env.hasPrev && |l.env.live| > 0
    requires |b| == |l.node.live| && |y| == |l.env.live| && b != l.node.curr && y != l.env.curr
    requires !IsTeleport(l.node.curr[0], b[0]) && !IsTeleport(l.env.curr[0], y[0])
    ensures var s := SnapshotConcat(ApplyConcat(l, ConcatProduce(b, y)));
      s.node.prev == l.node.curr && s.env.prev == l.env.curr && s.dirty && !s.teleported
  {}
}

module PoseTracks {
  import opened ModArith
  import opened PoseSpec

  // The game's matrix array and the three history buffers of its size.
  class PoseTrack {
    const live: array<Mtx>
    const prev: array<Mtx>
    const curr: array<Mtx>
    const scratch: array<Mtx>
    var hasPrev: bool

    ghost predicate Valid() {
      && live != prev && live != curr && live != scratch
      && prev != curr && prev != scratch && curr != scratch
      && live.Length == prev.Length == curr.Length == scratch.Length
    }

    ghost function Value(): (t: Track)
      requires Valid()
      reads this, live, prev, curr, scratch
      ensures Sized(t, live.Length)
    {
      Track(live[..], prev[..], curr[..], scratch[..], hasPrev)
    }

    constructor (array_: array<Mtx>)
      ensures Valid() && live == array_ && !hasPrev
      ensures fresh(prev) && fresh(curr) && fresh(scratch)
    {
      live := array_;
      prev := new Mtx[array_.Length](_ => seq(12, _ => 0.0));
      curr := new Mtx[array_.Length](_ => seq(12, _ => 0.0));
      scratch := new Mtx[array_.Length](_ => seq(12, _ => 0.0));
      hasPrev := false;
    }

    method Rotate(pose: Pose) returns (dirty: bool, teleported: bool)
      requires Valid() && |pose| == live.Length > 0
      modifies this, prev, curr
      ensures Rotated(Value(), dirty, teleported) == PoseSpec.Rotate(old(Value()), pose)
    {
      if !hasPrev {
        Fill(curr, pose);
        Fill(prev, pose);
        hasPrev := true;
        return false, false;
      }
      if IsTeleport(curr[0], pose[0]) {
        Fill(curr, pose);
        Fill(prev, pose);
        return false, true;
      }
      Fill(prev, curr[..]);
      Fill(curr, pose);
      dirty := Moved(pose, prev[..]);
      teleported := false;
    }

    // Writes the blocks in which src differs from ref; returns how many.
    method WriteDiff(src: Pose, ref: Pose) returns (written: nat)
      requires Valid() && |src| == |ref| == live.Length
      modifies live
      ensures live[..] == PoseSpec.WriteDiff(old(live[..]), src, ref)
      ensures written == 0 <==> src == ref
    {
      written := 0;
      var j := 0;
      while j < live.Length
        invariant 0 <= j <= live.Length
        invariant forall k :: 0 <= k < j ==> live[k] == if src[k] != ref[k] then src[k] else old(live[k])
        invariant forall k :: j <= k < live.Length ==> live[k] == old(live[k])
        invariant written == 0 <==> src[..j] == ref[..j]
      {
        if src[j] != ref[j] {
          live[j] := src[j];
          written := written + 1;
        }
        j := j + 1;
        assert src[..j] == src[..j - 1] + [src[j - 1]] && ref[..j] == ref[..j - 1] + [ref[j - 1]];
      }
      assert src[..j] == src && ref[..j] == ref;
    }

    method Restore()
      requires Valid()
      modifies live
      ensures Value() == RestoreTrack(old(Value()))
    {
      if live[..] == scratch[..] {
        var _ := WriteDiff(curr[..], scratch[..]);
      }
    }

    // snap_or_restore (when something was injected) and the rotation after it.
    method Observe(restore: bool) returns (dirty: bool, teleported: bool)
      requires Valid()
      modifies this, live, prev, curr
      ensures Rotated(Value(), dirty, teleported) == ObserveTrack(old(Value()), restore)
    {
      if restore { Restore(); }
      dirty, teleported := false, false;
      if live.Length > 0 { dirty, teleported := Rotate(live[..]); }
    }

    method ObserveIfNew(injected: bool) returns (ours: bool, isNew: bool, dirty: bool, teleported: bool)
      requires Valid()
      modifies this, prev, curr
      ensures Look(ours, isNew, Rotated(Value(), dirty, teleported)) == LookAgain(old(Value()), injected)
    {
      ours := live.Length > 0 && injected && live[..] == scratch[..];
      isNew := live.Length > 0 && !ours && live[..] != curr[..];
      dirty, teleported := false, false;
      if isNew { dirty, teleported := Rotate(live[..]); }
    }

    method Inject(masked: bool, alpha: real)
      requires Valid()
      modifies live, scratch
      ensures Value() == InjectTrack(old(Value()), masked, alpha)
    {
      var lerp := LerpPose(prev[..], curr[..], alpha);
      var _ := WriteDiff(lerp, if masked then scratch[..] else curr[..]);
      Fill(scratch, lerp);
    }
  }

  method Fill(dst: array<Mtx>, src: Pose)
    requires |src| == dst.Length
    modifies dst
    ensures dst[..] == src
  {
    forall i | 0 <= i < dst.Length { dst[i] := src[i]; }
  }

  // Does any element of any matrix differ?
  method Moved(a: Pose, b: Pose) returns (dirty: bool)
    requires |a| == |b|
    ensures dirty == (a != b)
  {
    dirty := false;
    var j := 0;
    while j < |a| && !dirty
      invariant 0 <= j <= |a|
      invariant !dirty ==> forall k :: 0 <= k < j ==> a[k] == b[k]
      invariant dirty ==> a != b
    {
      var c := 0;
      while c < 12 && !dirty
        invariant 0 <= c <= 12
        invariant !dirty ==> forall k :: 0 <= k < c ==> a[j][k] == b[j][k]
        invariant dirty ==> a != b
      {
        if Abs(a[j][c] - b[j][c]) > 0.0 { dirty := true; }
        c := c + 1;
      }
      j := j + 1;
    }
  }

  method LerpPose(a: Pose, b: Pose, alpha: real) returns (dst: Pose)
    requires |a| == |b|
    ensures dst == Lerp(a, b, alpha)
  {
    dst := [];
    var j := 0;
    while j < |a|
      invariant 0 <= j <= |a| == |b|
      invariant |dst| == j
      invariant forall k :: 0 <= k < j ==> dst[k] == LerpMtx(a[k], b[k], alpha)
    {
      var m: seq<real> := [];
      var c := 0;
      while c < 12
        invariant 0 <= c <= 12 && |m| == c
        invariant forall k :: 0 <= k < c ==> m[k] == Blend(a[j][k], b[j][k], alpha)
      {
        m := m + [Blend(a[j][c], b[j][c], alpha)];
        c := c + 1;
      }
      assert m == LerpMtx(a[j], b[j], alpha);
      dst := dst + [m];
      j := j + 1;
    }
  }

  class BufferedModel {
    const track: PoseTrack
    var dirty: bool
    var teleported: bool
    var injected: bool
    var masked: bool
    ghost var produced: Pose
    ghost var drawn: Pose

    ghost predicate Valid() {
      track.Valid() && track.live.Length > 0
    }

    ghost function Value(): (m: Buffered)
      requires Valid()
      reads this, track, track.live, track.prev, track.curr, track.scratch
      ensures |m.t.live| == track.live.Length && Sized(m.t, |m.t.live|)
    {
      Buffered(track.Value(), dirty, teleported, injected, masked, produced, drawn)
    }

    constructor (matrices: array<Mtx>)
      requires matrices.Length > 0
      ensures Valid() && track.live == matrices && Inv(Value())
      ensures fresh(track) && fresh(track.prev) && fresh(track.curr) && fresh(track.scratch)
    {
      track := new PoseTrack(matrices);
      dirty, teleported, injected, masked := false, false, false, false;
      produced, drawn := matrices[..], matrices[..];
    }

    // Painter entry of an L-frame; what is live afterwards is what it draws.
    method LFrame()
      requires Valid()
      modifies this, track, track.live, track.prev, track.curr
      ensures Value() == Apply(old(Value()), PoseSpec.LFrame)
    {
      if injected { track.Restore(); }
      dirty, teleported := track.Rotate(track.live[..]);
      injected, masked := false, false;
      drawn := track.live[..];
    }

    method Refresh()
      requires Valid()
      modifies this, track, track.prev, track.curr
      ensures Value() == PoseSpec.Refresh(old(Value()))
    {
      if teleported { return; }
      if injected {
        if track.live[..] == track.scratch[..] {
          masked := true;
          return;
        }
        injected := false;
      }
      masked := false;
      if track.live[..] != track.curr[..] {
        dirty, teleported := track.Rotate(track.live[..]);
      }
    }

    method Inject(alpha: real)
      requires Valid()
      modifies this, track.live, track.scratch
      ensures Value() == PoseSpec.Inject(old(Value()), alpha)
    {
      if alpha <= 0.0 || alpha >= 1.0 || teleported { return; }
      if !(track.hasPrev && dirty) { return; }
      track.Inject(masked, alpha);
      masked, injected := true, true;
    }

    method RestoreInjected()
      requires Valid()
      modifies this, track.live
      ensures Value() == PoseSpec.RestoreInjected(old(Value()))
    {
      if !injected { return; }
      injected, masked := false, false;
      if track.hasPrev { track.Restore(); }
    }

    method RFrame(alpha: real, cut: bool)
      requires Valid()
      modifies this, track, track.live, track.prev, track.curr, track.scratch
      ensures Value() == Apply(old(Value()), PoseSpec.RFrame(alpha, cut))
    {
      Refresh();
      if cut { RestoreInjected(); } else { Inject(alpha); }
    }
  }

  class ConcatModel {
    const node: PoseTrack
    const env: PoseTrack
    var dirty: bool
    var teleported: bool
    var injected: bool
    var nodeMasked: bool
    var envMasked: bool
    ghost var producedNode: Pose
    ghost var producedEnv: Pose

    ghost predicate Valid() {
      && node.Valid() && env.Valid() && node != env && node.live.Length > 0
      && {node.live, node.prev, node.curr, node.scratch} !! {env.live, env.prev, env.curr, env.scratch}
    }

    ghost function Value(): (m: Concat)
      requires Valid()
      reads this, node, node.live, node.prev, node.curr, node.scratch
      reads env, env.live, env.prev, env.curr, env.scratch
      ensures ConcatSized(m)
    {
      Concat(node.Value(), env.Value(), dirty, teleported, injected, nodeMasked, envMasked, producedNode, producedEnv)
    }

    constructor (nodeMatrices: array<Mtx>, envMatrices: array<Mtx>)
      requires nodeMatrices.Length > 0 && nodeMatrices != envMatrices
      ensures Valid() && node.live == nodeMatrices && env.live == envMatrices && ConcatInv(Value())
    {
      node := new PoseTrack(nodeMatrices);
      env := new PoseTrack(envMatrices);
      dirty, teleported, injected, nodeMasked, envMasked := false, false, false, false, false;
      producedNode, producedEnv := nodeMatrices[..], envMatrices[..];
    }

    method LFrame()
      requires Valid()
      modifies this, node, node.live, node.prev, node.curr, env, env.live, env.prev, env.curr
      ensures Value() == SnapshotConcat(old(Value()))
    {
      ghost var before := Value();
      var dn, tn := node.Observe(injected);
      ghost var n1 := node.Value();
      assert Rotated(n1, dn, tn) == ObserveTrack(before.node, before.injected);
      assert env.Value() == before.env;
      var de, te := env.Observe(injected);
      assert node.Value() == n1;
      assert Rotated(env.Value(), de, te) == ObserveTrack(before.env, before.injected);
      dirty, teleported := dn || de, tn || te;
      injected, nodeMasked, envMasked := false, false, false;
    }

    method Refresh()
      requires Valid()
      modifies this, node, node.prev, node.curr, env, env.prev, env.curr
      ensures Value() == RefreshConcat(old(Value()))
    {
      hide LookAgain;
      hide RefreshConcat;
      if teleported {
        RefreshWhenTeleported(Value());
        return;
      }
      ghost var before := Value();
      var ours, isNew, dn, tn := node.ObserveIfNew(injected);
      ghost var n := Look(ours, isNew, Rotated(node.Value(), dn, tn));
      assert n == LookAgain(before.node, before.injected) && env.Value() == before.env;
      var oursEnv, isNewEnv, de, te := env.ObserveIfNew(injected);
      ghost var e := Look(oursEnv, isNewEnv, Rotated(env.Value(), de, te));
      assert e == LookAgain(before.env, before.injected) && node.Value() == n.seen.track;
      RefreshIs(before, n, e);
      SetFlags(isNew, dn, tn, de, te);
      nodeMasked, envMasked := ours, oursEnv;
    }

    method SetFlags(isNew: bool, dn: bool, tn: bool, de: bool, te: bool)
      requires !teleported && (!isNew ==> !dn && !tn)
      modifies this`dirty, this`teleported
      ensures dirty == ((if isNew then dn else old(dirty)) || de) && teleported == (tn || te)
    {
      if isNew { dirty, teleported := dn, tn; }
      if de { dirty := true; }
      if te { teleported := true; }
    }

    method Inject(alpha: real)
      requires Valid()
      modifies this, node.live, node.scratch, env.live, env.scratch
      ensures Value() == InjectConcat(old(Value()), alpha)
    {
      if alpha <= 0.0 || alpha >= 1.0 || teleported { return; }
      if !(node.hasPrev && dirty) { return; }
      node.Inject(nodeMasked, alpha);
      nodeMasked := true;
      if env.live.Length > 0 && env.hasPrev {
        env.Inject(envMasked, alpha);
        envMasked := true;
      }
      injected := true;
    }

    method RestoreInjected()
      requires Valid()
      modifies this, node.live, env.live
      ensures Value() == RestoreInjectedConcat(old(Value()))
    {
      if !injected { return; }
      injected, nodeMasked, envMasked := false, false, false;
      node.Restore();
      if env.hasPrev { env.Restore(); }
    }
  }
}
