// Capturing the game's graphics command stream out of a circular fifo: the
// bytes between two observations of the write pointer are appended to a carry
// buffer and split into frames at the boundaries a scanner reports.

module FifoSpec {
  import opened ModArith
  import opened Sequences
  import opened Bytes
  import opened Words

  // One frame is at most FIFO_STREAM_MAX bytes; the carry holds two.
  const STREAM_MAX := 768 * 1024
  const CARRY_MAX := 2 * STREAM_MAX
  const MIN_FRAME := 256

  datatype Ring = Ring(base: nat, end: nat) {
    ghost predicate Valid(ram: seq<Byte>) { base < end <= |ram| }
    function Size(): int { end - base }
    // The address n bytes after p, going round.
    function Ahead(p: int, n: nat): int
      requires base < end
    {
      base + (p - base + n) % Size()
    }
  }

  // fifo_capture: up to the wrap point, then the rest from the base.
  function Capture(ram: seq<Byte>, g: Ring, start: nat, len: nat): (s: seq<Byte>)
    requires g.Valid(ram) && g.base <= start < g.end && len <= g.Size()
    ensures |s| == len
  {
    var first := if g.end - start > len then len else g.end - start;
    ram[start..start + first] + ram[g.base..g.base + len - first]
  }

  lemma RingIndex(g: Ring, p: int, n: nat)
    requires g.base <= p < g.end && n <= g.Size()
    ensures g.Ahead(p, n) == if p + n < g.end then p + n else p + n - g.Size()
  {
    if p + n < g.end { ModUnique(p - g.base + n, 0, p - g.base + n, g.Size()); }
    else { ModUnique(p - g.base + n, 1, p - g.base + n - g.Size(), g.Size()); }
  }

  lemma CaptureAt(ram: seq<Byte>, g: Ring, start: nat, len: nat, k: nat)
    requires g.Valid(ram) && g.base <= start < g.end && k < len <= g.Size()
    ensures g.base <= g.Ahead(start, k) < g.end
    ensures Capture(ram, g, start, len)[k] == ram[g.Ahead(start, k)]
  {
    RingIndex(g, start, k);
  }

  // The wrap-aware distance between two observations of the write pointer.
  function Delta(g: Ring, from: nat, to: nat): int {
    if to >= from then to - from else g.Size() - (from - to)
  }

  // Fewer bytes than the ring holds, and at least one: the distance is exact.
  // A whole lap reads as no bytes at all.
  lemma DeltaCounts(g: Ring, from: nat, n: nat)
    requires g.base <= from < g.end && n <= g.Size()
    ensures Delta(g, from, g.Ahead(from, n)) == if n == g.Size() then 0 else n
  {
    RingIndex(g, from, n);
  }

  function Flatten(frames: seq<seq<Byte>>): seq<Byte> {
    if frames == [] then [] else Flatten(frames[..|frames| - 1]) + frames[|frames| - 1]
  }

  lemma FlattenAppend(frames: seq<seq<Byte>>, f: seq<Byte>)
    ensures Flatten(frames + [f]) == Flatten(frames) + f
  {
    assert (frames + [f])[..|frames|] == frames;
  }

  predicate GpHeadOk(op: Byte) {
    || op == 0x00 || op == 0x08 || op == 0x10 || op == 0x20 || op == 0x28 || op == 0x30 || op == 0x38
    || op == 0x40 || op == 0x44 || op == 0x48 || op == 0x61 || 0x80 <= op <= 0xBF
  }

  // The narrower list a frame must start with to be replayed.
  predicate ReplayHeadOk(op: Byte) {
    || op == 0x00 || op == 0x61 || op == 0x10 || op == 0x20 || op == 0x40 || op == 0x45 || op == 0x48 || op == 0x60
    || 0x80 <= op <= 0xB8 || op == 0xC0 || op == 0xC8
  }

  // Side-effect commands that a replayed frame must not contain.
  predicate Trigger(op: Byte, reg: Byte) {
    op == 0x61 && (reg == 0x45 || reg == 0x47 || reg == 0x48 || reg == 0x52)
  }

  // --- One observation, as a function on values -------------------------------

  // What the engine's command walker reports for a region: it decides the
  // boundaries, so they are taken as they come.
  datatype Scan = Scan(bounds: seq<nat>, unknowns: nat)

  // The poses: every frame captured so far, the companions still owed, and
  // the ones the newest pair has had.
  datatype Poses = Poses(captured: seq<seq<Byte>>, owed: nat, inPair: nat) {
    function Curr(): seq<Byte> { if |captured| == 0 then [] else captured[|captured| - 1] }
    function Prev(): seq<Byte> { if |captured| <= 1 then [] else captured[|captured| - 2] }
  }

  // The carry, the frames split off since the last discontinuity, and the
  // poses made of them.
  datatype State = State(carry: seq<Byte>, frames: seq<seq<Byte>>, resync: bool, poses: Poses) {
    // The game's bytes since the last discontinuity.
    function Stream(): seq<Byte> { Flatten(frames) + carry }
  }

  predicate IsFrame(f: seq<Byte>) { MIN_FRAME <= |f| <= STREAM_MAX && GpHeadOk(f[0]) }

  // A frame becomes the newest pose unless it is no frame or a repeat.
  function Take(p: Poses, f: seq<Byte>): Poses {
    if IsFrame(f) && f != p.Curr() then Poses(p.captured + [f], if p.owed < 8 then p.owed + 1 else p.owed, 0) else p
  }

  function TakeAll(p: Poses, frames: seq<seq<Byte>>): Poses {
    if frames == [] then p else Take(TakeAll(p, frames[..|frames| - 1]), frames[|frames| - 1])
  }

  // Position of the first plausible command head from i on, or the bound.
  function FirstHead(s: seq<Byte>, i: nat, bound: nat): (k: nat)
    requires i <= bound <= |s|
    ensures i <= k <= bound && (k < bound ==> GpHeadOk(s[k])) && forall j :: i <= j < k ==> !GpHeadOk(s[j])
    decreases bound - i
  {
    if i == bound || GpHeadOk(s[i]) then i else FirstHead(s, i + 1, bound)
  }

  // stream_align_head
  function AlignSkip(s: seq<Byte>): (skip: nat)
    ensures skip <= |s|
  {
    var bound := if |s| < 64 then |s| else 64;
    if FirstHead(s, 0, bound) < bound then FirstHead(s, 0, bound) else 0
  }

  function Last(cuts: seq<nat>): nat { if cuts == [] then 0 else cuts[|cuts| - 1] }

  // Where the buffered bytes are cut: the boundaries, each with its command's
  // length added, that move forward and lie within them.
  function Cuts(scanBase: nat, bounds: seq<nat>, length: nat): (cuts: seq<nat>)
    ensures Last(cuts) <= length
  {
    if bounds == [] then []
    else
      var before := Cuts(scanBase, bounds[..|bounds| - 1], length);
      var fend := (scanBase + bounds[|bounds| - 1] + 5) % TWO_32;
      if Last(before) < fend <= length then before + [fend] else before
  }

  ghost predicate Rising(cuts: seq<nat>) {
    && (forall i :: 0 <= i < |cuts| ==> 0 < cuts[i] <= Last(cuts))
    && forall i, j :: 0 <= i < j < |cuts| ==> cuts[i] < cuts[j]
  }

  lemma {:induction false} CutsRise(scanBase: nat, bounds: seq<nat>, length: nat)
    ensures Rising(Cuts(scanBase, bounds, length))
  {
    if bounds != [] { CutsRise(scanBase, bounds[..|bounds| - 1], length); }
  }

  // Boundaries in order and within the buffer are all taken.
  lemma {:induction false} OrderedBoundariesAllCut(scanBase: nat, bounds: seq<nat>, length: nat)
    requires length < TWO_32 && forall i :: 0 <= i < |bounds| ==> scanBase + bounds[i] + 5 <= length
    requires forall i, j :: 0 <= i < j < |bounds| ==> bounds[i] < bounds[j]
    ensures |Cuts(scanBase, bounds, length)| == |bounds|
    ensures forall i :: 0 <= i < |bounds| ==> Cuts(scanBase, bounds, length)[i] == scanBase + bounds[i] + 5
  {
    if bounds != [] {
      var n := |bounds| - 1;
      assert forall i :: 0 <= i < n ==> bounds[..n][i] == bounds[i];
      OrderedBoundariesAllCut(scanBase, bounds[..n], length);
      var fend := scanBase + bounds[n] + 5;
      ModUnique(fend, 0, fend, TWO_32);
      if n > 0 {
        assert bounds[n - 1] < bounds[n] && Last(Cuts(scanBase, bounds[..n], length)) == scanBase + bounds[n - 1] + 5;
      }
    }
  }

  // The bytes between the cuts.
  function Pieces(held: seq<Byte>, cuts: seq<nat>): (r: seq<seq<Byte>>)
    requires Last(cuts) <= |held|
    ensures |r| <= |cuts|
  {
    if cuts == [] then []
    else
      var before := cuts[..|cuts| - 1];
      if Last(before) <= Last(cuts) then Pieces(held, before) + [held[Last(before)..Last(cuts)]] else []
  }

  lemma {:induction false} PiecesJoin(held: seq<Byte>, cuts: seq<nat>)
    requires Rising(cuts) && Last(cuts) <= |held|
    ensures Flatten(Pieces(held, cuts)) + held[Last(cuts)..] == held
    ensures |Pieces(held, cuts)| == |cuts|
  {
    if cuts == [] {
      assert [] + held == held;
    } else {
      var before := cuts[..|cuts| - 1];
      var piece := held[Last(before)..Last(cuts)];
      assert Rising(before) && Last(before) <= Last(cuts) && |held[Last(before)..]| == |held| - Last(before);
      PiecesJoin(held, before);
      hide Rising;
      FlattenAppend(Pieces(held, before), piece);
      SplitAt(held, Last(before), Last(cuts));
      hide Flatten;
      hide Last;
      Assoc(Flatten(Pieces(held, before)), piece, held[Last(cuts)..]);
    }
  }

  lemma {:induction false} FlattenJoin(a: seq<seq<Byte>>, b: seq<seq<Byte>>)
    ensures Flatten(a + b) == Flatten(a) + Flatten(b)
  {
    if b == [] {
      assert a + b == a;
    } else {
      var n := |b| - 1;
      assert a + b == (a + b[..n]) + [b[n]] && b == b[..n] + [b[n]];
      FlattenJoin(a, b[..n]);
      FlattenAppend(a + b[..n], b[n]);
      Assoc(Flatten(a), Flatten(b[..n]), b[n]);
    }
  }

  // A discontinuity: the partial frame is dropped and the next region has to
  // relock.
  function Dropped(s: State): State { s.(carry := [], frames := [], resync := true) }

  // A carry that the region would overflow is emptied first.
  function Overflows(s: State, region: seq<Byte>): bool { |s.carry| + |region| > CARRY_MAX }

  function Kept(s: State, region: seq<Byte>): State {
    if Overflows(s, region) then s.(carry := [], frames := []) else s
  }

  function Feed(s: State, region: seq<Byte>, scan: Scan): State {
    var k := Kept(s, region);
    if s.resync && scan.unknowns != 0 then Dropped(s)
    else
      var held := k.carry + region;
      var cuts := Cuts(|k.carry| + AlignSkip(region), scan.bounds, |held|);
      State(held[Last(cuts)..], k.frames + Pieces(held, cuts), false, TakeAll(s.poses, Pieces(held, cuts)))
  }

  // The frames and the carry are exactly the bytes that went in.
  lemma FeedKeepsStream(s: State, region: seq<Byte>, scan: Scan)
    ensures Feed(s, region, scan).Stream() ==
      if s.resync && scan.unknowns != 0 then [] else if Overflows(s, region) then region else s.Stream() + region
    ensures |Feed(s, region, scan).carry| <= |Kept(s, region).carry| + |region|
  {
    hide AlignSkip;
    hide TakeAll;
    hide Cuts;
    hide Pieces;
    if !(s.resync && scan.unknowns != 0) {
      var k := Kept(s, region);
      var held := k.carry + region;
      var cuts := Cuts(|k.carry| + AlignSkip(region), scan.bounds, |held|);
      CutsRise(|k.carry| + AlignSkip(region), scan.bounds, |held|);
      PiecesJoin(held, cuts);
      FlattenJoin(k.frames, Pieces(held, cuts));
      Assoc(Flatten(k.frames), Flatten(Pieces(held, cuts)), held[Last(cuts)..]);
      Assoc(Flatten(k.frames), k.carry, region);
    }
  }

  // --- The bound on the carry --------------------------------------------------

  // The copy of a region of this length writes past the carry.
  predicate Overruns(carryLen: nat, delta: nat) {
    var kept := if carryLen + delta > CARRY_MAX then 0 else carryLen;
    kept + delta > CARRY_MAX
  }

  const MEM1 := 0x0180_0000

  // The geometries that fifo_geom lets through.
  predicate Accepted(g: Ring) { g.base < g.end <= MEM1 }

  ghost predicate CanOverrun(g: Ring) {
    exists carryLen: nat, from: nat, to: nat {:trigger Overruns(carryLen, Delta(g, from, to))} ::
      && carryLen <= CARRY_MAX && g.base <= from < g.end && g.base <= to < g.end
      && 0 <= Delta(g, from, to) && Overruns(carryLen, Delta(g, from, to))
  }

  // Some observation of an accepted fifo writes past the carry exactly when
  // the fifo is more than one byte larger than the carry.
  lemma CanOverrunIff(g: Ring)
    requires Accepted(g)
    ensures CanOverrun(g) <==> g.Size() > CARRY_MAX + 1
  {
    if g.Size() > CARRY_MAX + 1 {
      assert Delta(g, g.base, g.end - 1) == g.Size() - 1;
      assert Overruns(0, Delta(g, g.base, g.end - 1));
    }
  }

  // Two megabytes are accepted and too large.
  lemma LargeFifoOverruns()
    ensures Accepted(Ring(0, 0x20_0000)) && CanOverrun(Ring(0, 0x20_0000))
  {
    CanOverrunIff(Ring(0, 0x20_0000));
  }

  // --- Companions --------------------------------------------------------------

  // A game write with what the scanner reports for it, and the attempts to
  // inject companions after it: their bytes, and how each attempt went.
  datatype Round = Round(write: seq<Byte>, scan: Scan, out: seq<seq<Byte>>, patched: seq<bool>, accepted: seq<bool>) {
    // `multi`, the companions allowed in one call.
    ghost predicate Valid() { |out| == |patched| == |accepted| }
  }

  // Companions injected from attempt j on, of n. One pair gets three, at the
  // quarter points; the first failure ends the burst.
  function Burst(p: Poses, r: Round, n: nat, j: nat): (done: nat)
    requires r.Valid() && j <= n <= |r.out|
    ensures j <= done <= n && (p.inPair <= 3 && p.inPair + j <= 3 ==> p.inPair + done <= 3)
    decreases n - j
  {
    if j == n || p.inPair + j + 1 >= 4 || p.Prev() == [] || !r.patched[j] || !r.accepted[j] then j
    else Burst(p, r, n, j + 1)
  }

  function Companions(p: Poses, r: Round): (done: nat)
    requires r.Valid()
    ensures done <= |r.out| && done <= p.owed && (p.inPair <= 3 ==> p.inPair + done <= 3)
  {
    if p.owed == 0 || p.Curr() == [] || !ReplayHeadOk(p.Curr()[0]) then 0
    else Burst(p, r, if p.owed < |r.out| then p.owed else |r.out|, 0)
  }

  function Drain(p: Poses, r: Round): Poses
    requires r.Valid()
  {
    p.(owed := p.owed - Companions(p, r), inPair := p.inPair + Companions(p, r))
  }

  // --- Runs --------------------------------------------------------------------

  // What an observation sees of a write: a whole lap of the fifo reads as no
  // bytes, so only the rest beyond whole laps is there.
  function Region(size: nat, w: seq<Byte>): (r: seq<Byte>)
    requires size > 0
    ensures |r| < size && (|w| < size ==> r == w)
  {
    w[|w| - |w| % size..]
  }

  // One observation: no bytes at all is a discontinuity.
  function Fed(s: State, size: nat, r: Round): State
    requires size > 0
  {
    if Region(size, r.write) == [] then Dropped(s) else Feed(s, Region(size, r.write), r.scan)
  }

  function Play(s: State, size: nat, r: Round): State
    requires size > 0 && r.Valid()
  {
    Fed(s, size, r).(poses := Drain(Fed(s, size, r).poses, r))
  }

  // The copy of this round's region leaves the carry.
  predicate Stops(size: nat, r: Round)
    requires size > 0
  {
    |Region(size, r.write)| > CARRY_MAX
  }

  ghost predicate AllValid(rounds: seq<Round>) { forall i :: 0 <= i < |rounds| ==> rounds[i].Valid() }

  ghost function PlayAll(s: State, size: nat, rounds: seq<Round>): State
    requires size > 0 && AllValid(rounds)
  {
    if rounds == [] then s else Play(PlayAll(s, size, rounds[..|rounds| - 1]), size, rounds[|rounds| - 1])
  }

  ghost function Regions(size: nat, rounds: seq<Round>): (w: seq<seq<Byte>>)
    requires size > 0
    ensures |w| == |rounds|
  {
    seq(|rounds|, i requires 0 <= i < |rounds| => Region(size, rounds[i].write))
  }

  ghost function Writes(rounds: seq<Round>): (w: seq<seq<Byte>>)
    ensures |w| == |rounds|
  {
    seq(|rounds|, i requires 0 <= i < |rounds| => rounds[i].write)
  }

  // Nothing of the round is kept: no region, or one that did not relock.
  predicate Gone(s: State, size: nat, r: Round)
    requires size > 0
  {
    Region(size, r.write) == [] || (s.resync && r.scan.unknowns != 0)
  }

  // What one round does to the stream.
  lemma PlayKeepsStream(s: State, size: nat, r: Round)
    requires size > 0 && r.Valid()
    ensures Play(s, size, r).Stream() ==
      if Gone(s, size, r) then [] else if Overflows(s, Region(size, r.write)) then Region(size, r.write)
      else s.Stream() + Region(size, r.write)
    ensures Play(s, size, r).resync <==> Gone(s, size, r)
  {
    hide Feed;
    hide Region;
    FeedKeepsStream(s, Region(size, r.write), r.scan);
    FeedResyncs(s, Region(size, r.write), r.scan);
  }

  lemma FeedResyncs(s: State, region: seq<Byte>, scan: Scan)
    ensures Feed(s, region, scan).resync <==> s.resync && scan.unknowns != 0
  {}

  // The rounds of the run that start the stream anew.
  ghost predicate Restarts(s: State, size: nat, rounds: seq<Round>, i: nat)
    requires size > 0 && AllValid(rounds) && i < |rounds|
  {
    var before := PlayAll(s, size, rounds[..i]);
    Gone(before, size, rounds[i]) || Overflows(before, Region(size, rounds[i].write))
  }

  // k is the last of them, or |rounds| for none.
  ghost predicate LastRestart(s: State, size: nat, rounds: seq<Round>, k: nat)
    requires size > 0 && AllValid(rounds)
  {
    && k <= |rounds| && (k < |rounds| ==> Restarts(s, size, rounds, k))
    && forall i :: 0 <= i < |rounds| && (i > k || k == |rounds|) ==> !Restarts(s, size, rounds, i)
  }

  // The first round after a restart at k whose bytes are kept.
  ghost function KeptFrom(s: State, size: nat, rounds: seq<Round>, k: nat): (f: nat)
    requires size > 0 && AllValid(rounds) && k < |rounds|
    ensures k <= f <= k + 1
  {
    if Gone(PlayAll(s, size, rounds[..k]), size, rounds[k]) then k + 1 else k
  }

  // The game's bytes that are still accounted for then.
  ghost function Since(s: State, size: nat, rounds: seq<Round>, k: nat): seq<Byte>
    requires size > 0 && AllValid(rounds) && k <= |rounds|
  {
    if k == |rounds| then s.Stream() + Flatten(Regions(size, rounds))
    else Flatten(Regions(size, rounds[KeptFrom(s, size, rounds, k)..]))
  }

  lemma RestartsInPrefix(s: State, size: nat, rounds: seq<Round>, i: nat)
    requires size > 0 && AllValid(rounds) && i + 1 < |rounds|
    ensures Restarts(s, size, rounds, i) == Restarts(s, size, rounds[..|rounds| - 1], i)
    ensures KeptFrom(s, size, rounds, i) == KeptFrom(s, size, rounds[..|rounds| - 1], i)
  {
    assert rounds[..|rounds| - 1][..i] == rounds[..i];
  }

  lemma SinceNext(s: State, size: nat, rounds: seq<Round>, k: nat)
    requires size > 0 && AllValid(rounds) && rounds != [] && k < |rounds|
    ensures var n := |rounds| - 1;
      Since(s, size, rounds, if k == n then |rounds| else k)
      == Since(s, size, rounds[..n], k) + Region(size, rounds[n].write)
  {
    hide Region;
    hide Gone;
    hide PlayAll;
    hide Flatten;
    var n := |rounds| - 1;
    var init, w := rounds[..n], Region(size, rounds[n].write);
    if k == n {
      RegionsNext(size, rounds, 0);
      assert rounds[0..] == rounds && init[0..] == init;
      hide Regions;
      Assoc(s.Stream(), Flatten(Regions(size, init)), w);
    } else {
      RestartsInPrefix(s, size, rounds, k);
      RegionsNext(size, rounds, KeptFrom(s, size, rounds, k));
      hide Regions;
    }
  }

  lemma RegionsNext(size: nat, rounds: seq<Round>, f: nat)
    requires size > 0 && f < |rounds|
    ensures var n := |rounds| - 1;
      Flatten(Regions(size, rounds[f..]))
      == Flatten(Regions(size, rounds[..n][f..])) + Region(size, rounds[n].write)
  {
    hide Region;
    hide Flatten;
    var n := |rounds| - 1;
    assert Regions(size, rounds[f..]) == Regions(size, rounds[..n][f..]) + [Region(size, rounds[n].write)];
    FlattenAppend(Regions(size, rounds[..n][f..]), Region(size, rounds[n].write));
  }

  lemma SinceLast(s: State, size: nat, rounds: seq<Round>)
    requires size > 0 && AllValid(rounds) && rounds != []
    ensures var n := |rounds| - 1;
      Since(s, size, rounds, n) ==
        if Gone(PlayAll(s, size, rounds[..n]), size, rounds[n]) then [] else Region(size, rounds[n].write)
  {
    hide Region;
    hide Gone;
    hide PlayAll;
    RegionsOfLast(size, rounds);
    hide Regions;
    hide Flatten;
  }

  lemma RegionsOfLast(size: nat, rounds: seq<Round>)
    requires size > 0 && rounds != []
    ensures Flatten(Regions(size, rounds[|rounds| - 1..])) == Region(size, rounds[|rounds| - 1].write)
    ensures Flatten(Regions(size, rounds[|rounds|..])) == []
  {
    hide Region;
    hide Flatten;
    var n := |rounds| - 1;
    var w := Region(size, rounds[n].write);
    assert |rounds[n..]| == 1 && rounds[n..][0] == rounds[n];
    assert Regions(size, rounds[n..]) == [w];
    assert Regions(size, rounds[|rounds|..]) == [];
    FlattenOne(w);
  }

  lemma FlattenOne(w: seq<Byte>)
    ensures Flatten([w]) == w && Flatten([]) == []
  {
    FlattenAppend([], w);
    assert [] + [w] == [w];
  }

  // After a run the frames and the carry hold exactly what was seen of the
  // game's writes since the last round that restarted the stream, and all of
  // it if there was none: no companion's bytes are among them.
  lemma {:induction false} RunKeepsStream(s: State, size: nat, rounds: seq<Round>) returns (k: nat)
    requires size > 0 && AllValid(rounds)
    ensures LastRestart(s, size, rounds, k)
    ensures PlayAll(s, size, rounds).Stream() == Since(s, size, rounds, k)
    decreases |rounds|
  {
    if rounds == [] {
      k := 0;
      assert s.Stream() + [] == s.Stream();
    } else {
      var n := |rounds| - 1;
      var before := PlayAll(s, size, rounds[..n]);
      k := RunKeepsStream(s, size, rounds[..n]);
      PlayKeepsStream(before, size, rounds[n]);
      RestartsLast(s, size, rounds);
      PlayAllLast(s, size, rounds);
      hide *;
      LastRestartNext(s, size, rounds, k);
      if Restarts(s, size, rounds, n) {
        SinceLast(s, size, rounds);
        k := n;
      } else {
        SinceNext(s, size, rounds, k);
        k := if k == n then |rounds| else k;
      }
    }
  }

  lemma RestartsLast(s: State, size: nat, rounds: seq<Round>)
    requires size > 0 && AllValid(rounds) && rounds != []
    ensures var n := |rounds| - 1;
      var before := PlayAll(s, size, rounds[..n]);
      Restarts(s, size, rounds, n) <==>
        Gone(before, size, rounds[n]) || Overflows(before, Region(size, rounds[n].write))
  {}

  lemma PlayAllLast(s: State, size: nat, rounds: seq<Round>)
    requires size > 0 && AllValid(rounds) && rounds != []
    ensures var n := |rounds| - 1;
      PlayAll(s, size, rounds) == Play(PlayAll(s, size, rounds[..n]), size, rounds[n])
  {}

  lemma LastRestartNext(s: State, size: nat, rounds: seq<Round>, k: nat)
    requires size > 0 && AllValid(rounds) && rounds != [] && LastRestart(s, size, rounds[..|rounds| - 1], k)
    ensures var n := |rounds| - 1;
      k <= n && LastRestart(s, size, rounds, if Restarts(s, size, rounds, n) then n else if k == n then |rounds| else k)
  {
    hide Restarts;
    var n := |rounds| - 1;
    forall i | 0 <= i < n ensures Restarts(s, size, rounds, i) == Restarts(s, size, rounds[..n], i) {
      RestartsInPrefix(s, size, rounds, i);
    }
  }

  lemma FeedIs(s: State, region: seq<Byte>, scan: Scan)
    ensures Feed(s, region, scan) ==
      if s.resync && scan.unknowns != 0 then Dropped(s)
      else
        var k := Kept(s, region);
        var held := k.carry + region;
        var cuts := Cuts(|k.carry| + AlignSkip(region), scan.bounds, |held|);
        State(held[Last(cuts)..], k.frames + Pieces(held, cuts), false, TakeAll(s.poses, Pieces(held, cuts)))
  {
    hide Cuts;
    hide Pieces;
    hide TakeAll;
    hide AlignSkip;
    hide Last;
  }

  // Every round writes something, and less than a lap.
  ghost predicate NoLaps(size: nat, rounds: seq<Round>) {
    forall i :: 0 <= i < |rounds| ==> 0 < |rounds[i].write| < size
  }

  lemma SmallFeed(s: State, size: nat, r: Round)
    requires 0 < |r.write| < size && r.Valid() && !s.resync && |s.carry| + |r.write| <= CARRY_MAX
    ensures !Gone(s, size, r) && !Overflows(s, Region(size, r.write))
    ensures |Play(s, size, r).carry| <= |s.carry| + |r.write| && !Play(s, size, r).resync
  {
    hide Feed;
    PlayKeepsStream(s, size, r);
    FeedKeepsStream(s, r.write, r.scan);
  }

  ghost predicate NoneRestarts(s: State, size: nat, rounds: seq<Round>)
    requires size > 0 && AllValid(rounds)
  {
    forall i :: 0 <= i < |rounds| ==> !Restarts(s, size, rounds, i)
  }

  lemma NoneRestartsNext(s: State, size: nat, rounds: seq<Round>)
    requires size > 0 && AllValid(rounds) && rounds != []
    requires NoneRestarts(s, size, rounds[..|rounds| - 1]) && !Restarts(s, size, rounds, |rounds| - 1)
    ensures NoneRestarts(s, size, rounds)
  {
    hide Restarts;
    forall i | 0 <= i < |rounds| ensures !Restarts(s, size, rounds, i) {
      if i < |rounds| - 1 { RestartsInPrefix(s, size, rounds, i); }
    }
  }

  lemma WritesNext(rounds: seq<Round>)
    requires rounds != []
    ensures var n := |rounds| - 1;
      |Flatten(Writes(rounds))| == |Flatten(Writes(rounds[..n]))| + |rounds[n].write|
  {
    var n := |rounds| - 1;
    assert Writes(rounds) == Writes(rounds[..n]) + [rounds[n].write];
    FlattenAppend(Writes(rounds[..n]), rounds[n].write);
  }

  // Writes shorter than a lap that fit into the carry together never restart
  // a stream in lock.
  lemma {:induction false} SmallRunLosesNothing(s: State, size: nat, rounds: seq<Round>)
    requires size > 0 && AllValid(rounds) && NoLaps(size, rounds) && !s.resync
    requires |s.carry| + |Flatten(Writes(rounds))| <= CARRY_MAX
    ensures NoneRestarts(s, size, rounds) && !PlayAll(s, size, rounds).resync
    ensures |PlayAll(s, size, rounds).carry| <= |s.carry| + |Flatten(Writes(rounds))|
  {
    hide NoneRestarts;
    hide Play;
    hide Flatten;
    hide Region;
    if rounds == [] {
      NoRounds(s, size);
    } else {
      var n := |rounds| - 1;
      WritesNext(rounds);
      SmallRunLosesNothing(s, size, rounds[..n]);
      SmallFeed(PlayAll(s, size, rounds[..n]), size, rounds[n]);
      RestartsLast(s, size, rounds);
      NoneRestartsNext(s, size, rounds);
    }
  }

  lemma SmallRunKeepsStream(s: State, size: nat, rounds: seq<Round>)
    requires size > 0 && AllValid(rounds) && NoLaps(size, rounds) && !s.resync
    requires |s.carry| + |Flatten(Writes(rounds))| <= CARRY_MAX
    ensures PlayAll(s, size, rounds).Stream() == s.Stream() + Flatten(Writes(rounds))
  {
    SmallRunLosesNothing(s, size, rounds);
    var k := RunKeepsStream(s, size, rounds);
    assert k == |rounds|;
    RegionsAreWrites(size, rounds);
    hide PlayAll;
    hide Restarts;
    hide Flatten;
    hide Regions;
  }

  lemma RegionsAreWrites(size: nat, rounds: seq<Round>)
    requires size > 0 && NoLaps(size, rounds)
    ensures Regions(size, rounds) == Writes(rounds)
  {}

  lemma NoRounds(s: State, size: nat)
    requires size > 0
    ensures NoneRestarts(s, size, []) && Flatten(Writes([])) == []
  {}

  // Nobody is paid twice: what was owed and injected never exceeds the frames
  // captured, and one pair gets at most three.
  ghost predicate Paid(p: Poses, injected: nat) { injected + p.owed <= |p.captured| && p.inPair <= 3 && p.owed <= 8 }

  ghost function TotalInjected(s: State, size: nat, rounds: seq<Round>): nat
    requires size > 0 && AllValid(rounds)
  {
    if rounds == [] then 0
    else
      var n := |rounds| - 1;
      TotalInjected(s, size, rounds[..n])
      + Companions(Fed(PlayAll(s, size, rounds[..n]), size, rounds[n]).poses, rounds[n])
  }

  lemma {:induction false} TakeAllStaysPaid(p: Poses, frames: seq<seq<Byte>>, injected: nat)
    requires Paid(p, injected)
    ensures Paid(TakeAll(p, frames), injected)
  {
    if frames != [] { TakeAllStaysPaid(p, frames[..|frames| - 1], injected); }
  }

  lemma {:induction false} RunStaysPaid(s: State, size: nat, rounds: seq<Round>, injected: nat)
    requires size > 0 && AllValid(rounds) && Paid(s.poses, injected)
    ensures Paid(PlayAll(s, size, rounds).poses, injected + TotalInjected(s, size, rounds))
  {
    hide Feed;
    if rounds != [] {
      var n := |rounds| - 1;
      RunStaysPaid(s, size, rounds[..n], injected);
      var before := PlayAll(s, size, rounds[..n]);
      var paid := injected + TotalInjected(s, size, rounds[..n]);
      FedStaysPaid(before, Region(size, rounds[n].write), rounds[n].scan, paid);
    }
  }

  lemma FedStaysPaid(s: State, region: seq<Byte>, scan: Scan, injected: nat)
    requires Paid(s.poses, injected)
    ensures Paid(Feed(s, region, scan).poses, injected)
  {
    var k := Kept(s, region);
    var held := k.carry + region;
    TakeAllStaysPaid(s.poses, Pieces(held, Cuts(|k.carry| + AlignSkip(region), scan.bounds, |held|)), injected);
  }
}

module FifoCapture {
  import opened ModArith
  import opened Sequences
  import opened Bytes
  import opened FifoSpec
  import opened Words

  // The fifo as the game sees it. `since` is what was written after the
  // pointer stood at `from`.
  class GatherPipe {
    const ram: array<Byte>
    const ring: Ring
    var wptr: nat
    ghost var from: nat
    ghost var since: seq<Byte>

    ghost predicate Valid()
      reads this, ram
    {
      && ring.Valid(ram[..])
      && ring.base <= from < ring.end
      && wptr == ring.Ahead(from, |since|)
      && Holds(ram[..], ring, from, since)
    }

    constructor (memory: array<Byte>, geometry: Ring)
      requires geometry.Valid(memory[..])
      ensures Valid() && ram == memory && ring == geometry && since == []
    {
      ram, ring, wptr, from, since := memory, geometry, geometry.base, geometry.base, [];
      new;
      RingIndex(ring, from, 0);
    }

    method Write(b: Byte)
      requires Valid()
      modifies this, ram
      ensures Valid() && since == old(since) + [b] && from == old(from)
    {
      ghost var before, p := ram[..], wptr;
      hide Holds;
      hide Ring.Ahead;
      WriteKeeps(before, ring, from, since, b);
      ram[wptr] := b;
      wptr := if wptr + 1 == ring.end then ring.base else wptr + 1;
      since := since + [b];
      assert ram[..] == before[p := b];
    }

    method WriteAll(s: seq<Byte>)
      requires Valid()
      modifies this, ram
      ensures Valid() && since == old(since) + s && from == old(from)
    {
      var i := 0;
      while i < |s|
        invariant 0 <= i <= |s| && Valid() && since == old(since) + s[..i] && from == old(from)
      {
        Write(s[i]);
        i := i + 1;
      }
      assert s[..i] == s;
    }

    // An observation of the write pointer starts a new region.
    method Mark()
      requires Valid()
      modifies this
      ensures Valid() && from == wptr == old(wptr) && since == []
    {
      AheadInRing(ring, from, |since|);
      from, since := wptr, [];
      RingIndex(ring, from, 0);
    }
  }

  // The newest lap of what was written is what the fifo holds.
  ghost predicate Holds(ram: seq<Byte>, g: Ring, from: nat, since: seq<Byte>)
    requires g.Valid(ram) && g.base <= from < g.end
  {
    forall j :: 0 <= j < |since| && |since| - g.Size() <= j ==>
      g.base <= g.Ahead(from, j) < g.end && ram[g.Ahead(from, j)] == since[j]
  }

  lemma WriteKeeps(ram: seq<Byte>, g: Ring, from: nat, since: seq<Byte>, b: Byte)
    requires g.Valid(ram) && g.base <= from < g.end && Holds(ram, g, from, since)
    ensures var p := g.Ahead(from, |since|);
      && g.base <= p < g.end
      && g.Ahead(from, |since| + 1) == (if p + 1 == g.end then g.base else p + 1)
      && Holds(ram[p := b], g, from, since + [b])
  {
    var n := |since|;
    NextAddress(g, from, n);
    AheadInRing(g, from, n);
    hide Ring.Ahead;
    var after := ram[g.Ahead(from, n) := b];
    forall j | 0 <= j <= n && n + 1 - g.Size() <= j
      ensures g.base <= g.Ahead(from, j) < g.end && after[g.Ahead(from, j)] == (since + [b])[j]
    {
      AheadInRing(g, from, j);
      if j < n { AheadApart(g, from, j, n); }
    }
  }

  lemma AheadApart(g: Ring, from: nat, j: nat, n: nat)
    requires g.base <= from < g.end && j < n < j + g.Size()
    ensures g.Ahead(from, j) != g.Ahead(from, n)
  {
    LessThanOneLap(from - g.base + j, from - g.base + n, g.Size());
  }

  // Whole laps lead nowhere.
  lemma AheadLaps(g: Ring, from: nat, k: nat, laps: nat)
    requires g.base <= from < g.end
    ensures g.Ahead(from, k + laps * g.Size()) == g.Ahead(from, k)
  {
    var m, x := g.Size(), from - g.base + k;
    var q := x / m;
    assert x == q * m + x % m;
    assert (q + laps) * m == q * m + laps * m;
    ModUnique(x + laps * m, q + laps, x % m, m);
  }

  // What an observation makes of the write pointer, whatever was written: the
  // bytes beyond whole laps.
  lemma RegionIsWritten(gp: GatherPipe)
    requires gp.Valid()
    ensures gp.ring.base <= gp.wptr < gp.ring.end
    ensures Delta(gp.ring, gp.from, gp.wptr) == |gp.since| % gp.ring.Size() < gp.ring.Size()
    ensures Capture(gp.ram[..], gp.ring, gp.from, |gp.since| % gp.ring.Size()) == Region(gp.ring.Size(), gp.since)
  {
    var g, n := gp.ring, |gp.since|;
    var size := g.Size();
    var m, laps := n % size, n / size;
    assert n == laps * size + m;
    AheadInRing(g, gp.from, n);
    AheadLaps(g, gp.from, m, laps);
    DeltaCounts(g, gp.from, m);
    hide Ring.Ahead;
    hide Delta;
    TailIsSeen(gp.ram[..], g, gp.from, gp.since, laps, m);
  }

  lemma TailIsSeen(ram: seq<Byte>, g: Ring, from: nat, since: seq<Byte>, laps: nat, m: nat)
    requires g.Valid(ram) && g.base <= from < g.end && Holds(ram, g, from, since)
    requires |since| == laps * g.Size() + m && m < g.Size()
    ensures Capture(ram, g, from, m) == since[|since| - m..]
  {
    hide Capture;
    hide Ring.Ahead;
    var seen := Capture(ram, g, from, m);
    forall k | 0 <= k < m ensures seen[k] == since[|since| - m..][k] {
      CaptureAt(ram, g, from, m, k);
      AheadLaps(g, from, k, laps);
      assert since[|since| - m..][k] == since[k + laps * g.Size()];
    }
  }

  lemma AheadInRing(g: Ring, p: int, n: nat)
    requires g.base < g.end
    ensures g.base <= g.Ahead(p, n) < g.end
  {}

  lemma NextAddress(g: Ring, p: int, n: nat)
    requires g.base <= p < g.end
    ensures g.Ahead(p, n + 1) == if g.Ahead(p, n) + 1 == g.end then g.base else g.Ahead(p, n) + 1
  {
    var m, x := g.Size(), p - g.base + n;
    var q, r := x / m, x % m;
    assert x == q * m + r;
    if r + 1 == m {
      assert (q + 1) * m == q * m + m;
      ModUnique(x + 1, q + 1, 0, m);
    } else {
      ModUnique(x + 1, q, r + 1, m);
    }
  }

  // Skip to the first plausible command head among the first 64 bytes.
  method StreamAlignHead(s: seq<Byte>) returns (skip: nat)
    ensures skip == AlignSkip(s)
  {
    var bound := if |s| < 64 then |s| else 64;
    var i := 0;
    while i < bound
      invariant 0 <= i <= bound
      invariant FirstHead(s, 0, bound) == FirstHead(s, i, bound)
    {
      if GpHeadOk(s[i]) { return i; }
      i := i + 1;
    }
    return 0;
  }

  // Neutralise every trigger command of a staged frame in place.
  method StripTriggers(s: array<Byte>, n: nat)
    requires n <= s.Length
    modifies s
    ensures forall i :: 0 <= i && i + 5 <= n ==> !Trigger(s[i], s[i + 1])
    ensures forall i :: 0 <= i < s.Length ==> s[i] == old(s[i]) || (s[i] == 0 && i < n)
  {
    var i := 0;
    while i + 5 <= n
      invariant 0 <= i
      invariant forall k :: 0 <= k < i && k + 5 <= n ==> !Trigger(s[k], s[k + 1])
      invariant forall k :: 0 <= k < s.Length ==> s[k] == old(s[k]) || (s[k] == 0 && k < n)
    {
      if Trigger(s[i], s[i + 1]) {
        s[i], s[i + 1], s[i + 2], s[i + 3], s[i + 4] := 0, 0, 0, 0, 0;
      }
      i := i + 1;
    }
  }

  // memcpy / memmove of a value into a buffer.
  method CopyTo(dst: array<Byte>, at: nat, src: seq<Byte>)
    requires at + |src| <= dst.Length
    modifies dst
    ensures dst[..at + |src|] == old(dst[..at]) + src
    ensures dst[at..at + |src|] == src
  {
    forall i | 0 <= i < |src| { dst[at + i] := src[i]; }
  }

  class FifoReplay {
    const carry: array<Byte>
    var carryLen: nat
    var obsValid: bool
    var obsWptr: nat
    var obsRing: Ring
    var scanResync: bool
    var prev: seq<Byte>
    var curr: seq<Byte>
    var owed: nat
    var injectsInPair: nat
    // Every frame split off since the last discontinuity, and every one that
    // became a pose.
    ghost var frames: seq<seq<Byte>>
    ghost var captured: seq<seq<Byte>>

    ghost predicate Valid()
      reads this, carry
    {
      carry.Length == CARRY_MAX && carryLen <= CARRY_MAX && PairOk()
    }

    // (prev, curr) are the last two captured frames.
    ghost predicate PairOk()
      reads `prev, `curr, `captured
    {
      prev == Poses(captured, 0, 0).Prev() && curr == Poses(captured, 0, 0).Curr()
    }

    ghost function Pair(): Poses
      reads `captured, `owed, `injectsInPair
    {
      Poses(captured, owed, injectsInPair)
    }

    ghost function Value(): State
      reads this, carry
      requires carryLen <= carry.Length
    {
      State(carry[..carryLen], frames, scanResync, Pair())
    }

    constructor ()
      ensures Valid() && !obsValid && Value() == State([], [], false, Poses([], 0, 0)) && fresh(carry)
    {
      carry := new Byte[CARRY_MAX](_ => 0);
      carryLen, obsValid, obsWptr, obsRing, scanResync := 0, false, 0, Ring(0, 0), false;
      prev, curr, owed, injectsInPair := [], [], 0, 0;
      frames, captured := [], [];
    }

    // Forget everything since the last observation.
    method Drop()
      requires Valid()
      modifies this`carryLen, this`frames
      ensures Valid() && Value() == old(Value()).(carry := [], frames := [])
    {
      carryLen, frames := 0, [];
    }

    // A captured region goes to the end of the carry; a carry that would
    // overflow is emptied first, and then any region no longer than the carry
    // fits.
    method Append(region: seq<Byte>)
      requires Valid() && |region| <= CARRY_MAX
      modifies this`carryLen, this`frames, carry
      ensures Valid()
      ensures var k := Kept(old(Value()), region); Value() == k.(carry := k.carry + region)
    {
      if carryLen + |region| > CARRY_MAX { Drop(); }
      ghost var held := carry[..carryLen];
      CopyTo(carry, carryLen, region);
      carryLen := carryLen + |region|;
      assert carry[..carryLen] == held + region;
    }

    method TakeFrame(f: seq<Byte>)
      requires PairOk() && |f| > 0
      modifies this`prev, this`curr, this`owed, this`injectsInPair, this`captured
      ensures PairOk() && Pair() == Take(old(Pair()), f)
    {
      if MIN_FRAME <= |f| <= STREAM_MAX && GpHeadOk(f[0]) && f != curr {
        prev, curr := curr, f;
        injectsInPair := 0;
        if owed < 8 { owed := owed + 1; }
        captured := captured + [f];
      }
    }

    // The split loop. Boundaries that do not move forward or that lie beyond
    // the buffered bytes are passed over, so the final move never underflows.
    method Split(scanBase: nat, bounds: seq<nat>)
      requires Valid()
      modifies this`prev, this`curr, this`owed, this`injectsInPair, this`captured, this`carryLen, this`frames, carry
      ensures Valid()
      ensures
        var held := old(carry[..carryLen]);
        var cuts := Cuts(scanBase, bounds, |held|);
        Value() == State(held[Last(cuts)..], old(frames) + Pieces(held, cuts), scanResync,
                         TakeAll(old(Pair()), Pieces(held, cuts)))
    {
      var held := carry[..carryLen];
      ghost var cuts := Cuts(scanBase, bounds, |held|);
      var fstart := SplitLoop(held, scanBase, bounds);
      CopyTo(carry, 0, held[fstart..]);
      carryLen := carryLen - fstart;
    }

    method SplitLoop(held: seq<Byte>, scanBase: nat, bounds: seq<nat>) returns (fstart: nat)
      requires PairOk()
      modifies this`prev, this`curr, this`owed, this`injectsInPair, this`captured, this`frames
      ensures PairOk() && fstart == Last(Cuts(scanBase, bounds, |held|))
      ensures var pieces := Pieces(held, Cuts(scanBase, bounds, |held|));
              frames == old(frames) + pieces && Pair() == TakeAll(old(Pair()), pieces)
    {
      hide PairOk;
      hide Flatten;
      hide Take;
      ghost var poses, frames0 := Pair(), frames;
      ghost var cuts: seq<nat> := [];
      fstart := 0;
      assert frames0 + Pieces(held, []) == frames0 && TakeAll(poses, Pieces(held, [])) == poses;
      assert Cuts(scanBase, bounds[..0], |held|) == [];
      hide Pieces;
      hide TakeAll;
      hide Cuts;
      var bi := 0;
      while bi < |bounds|
        invariant 0 <= bi <= |bounds| && fstart == Last(cuts) <= |held| && cuts == Cuts(scanBase, bounds[..bi], |held|)
        invariant PairOk() && Pair() == TakeAll(poses, Pieces(held, cuts)) && frames == frames0 + Pieces(held, cuts)
      {
        var fend := (scanBase + bounds[bi] + 5) % TWO_32;
        CutsNext(scanBase, bounds, bi, |held|);
        if fstart < fend <= |held| {
          SplitOff(held, fstart, fend, cuts, poses, frames0);
          cuts := cuts + [fend];
          fstart := fend;
        }
        bi := bi + 1;
      }
      assert bounds[..bi] == bounds;
    }

    method SplitOff(held: seq<Byte>, fstart: nat, fend: nat, ghost cuts: seq<nat>, ghost poses: Poses,
                    ghost frames0: seq<seq<Byte>>)
      requires PairOk() && fstart == Last(cuts) < fend <= |held|
      requires Pair() == TakeAll(poses, Pieces(held, cuts)) && frames == frames0 + Pieces(held, cuts)
      modifies this`prev, this`curr, this`owed, this`injectsInPair, this`captured, this`frames
      ensures PairOk() && Last(cuts + [fend]) == fend
      ensures Pair() == TakeAll(poses, Pieces(held, cuts + [fend])) && frames == frames0 + Pieces(held, cuts + [fend])
    {
      hide PairOk;
      hide Take;
      NextPiece(held, cuts, fend);
      TakeNext(poses, Pieces(held, cuts), held[fstart..fend]);
      hide TakeAll;
      hide Pieces;
      Assoc(frames0, Pieces(held, cuts), [held[fstart..fend]]);
      TakeFrame(held[fstart..fend]);
      frames := frames + [held[fstart..fend]];
    }

    // One region into the carry and its frames out of it. After a resync the
    // region is kept only if the scanner walked it without a desync.
    method Consume(region: seq<Byte>, scan: Scan)
      requires Valid() && |region| <= CARRY_MAX
      modifies this`prev, this`curr, this`owed, this`injectsInPair, this`captured
      modifies this`carryLen, this`frames, this`scanResync, carry
      ensures Valid() && Value() == Feed(old(Value()), region, scan)
    {
      hide Flatten;
      hide PairOk;
      hide Take;
      hide TakeAll;
      hide Pieces;
      hide Cuts;
      hide AlignSkip;
      hide Feed;
      FeedIs(Value(), region, scan);
      var regionOff := if carryLen + |region| > CARRY_MAX then 0 else carryLen;
      assert regionOff == |Kept(Value(), region).carry|;
      hide Kept;
      var skip := StreamAlignHead(region);
      Append(region);
      if scanResync && scan.unknowns != 0 {
        Drop();
      } else {
        scanResync := false;
        Split(regionOff + skip, scan.bounds);
      }
    }

    // The capture half of fifo_replay_frame after the first observation. A
    // region longer than the carry is where the program's copy leaves its
    // buffer: the model stops there and reports it.
    method Observe(gp: GatherPipe, scan: Scan) returns (overrun: bool)
      requires Valid() && gp.Valid() && gp.ram != carry && obsValid && obsWptr == gp.from
      modifies this, carry
      ensures Valid() && obsValid && obsWptr == gp.wptr && obsRing == gp.ring
      ensures
        var delta := Delta(gp.ring, gp.from, gp.wptr);
        && 0 <= delta < gp.ring.Size()
        && overrun == (gp.ring == old(obsRing) && Overruns(old(carryLen), delta))
        && if overrun then Value() == old(Value())
           else if delta == 0 || gp.ring != old(obsRing) then Value() == Dropped(old(Value()))
           else Value() == Feed(old(Value()), Capture(gp.ram[..], gp.ring, gp.from, delta), scan)
      ensures gp.ring == old(obsRing) ==>
        var region := Region(gp.ring.Size(), gp.since);
        && overrun == (|region| > CARRY_MAX)
        && (!overrun ==>
              Value() == if region == [] then Dropped(old(Value())) else Feed(old(Value()), region, scan))
    {
      RegionIsWritten(gp);
      var delta, start := Delta(gp.ring, obsWptr, gp.wptr), obsWptr;
      var resync := delta == 0 || delta > gp.ring.Size() || gp.ring != obsRing;
      overrun := !resync && delta > CARRY_MAX;
      obsWptr, obsRing, obsValid := gp.wptr, gp.ring, true;
      if overrun { return; }
      if resync { Resync(); } else { Consume(Capture(gp.ram[..], gp.ring, start, delta), scan); }
    }

    method Resync()
      requires Valid()
      modifies this`carryLen, this`frames, this`scanResync
      ensures Valid() && Value() == Dropped(old(Value()))
    {
      Drop();
      scanResync := true;
    }

    // One companion into the fifo; the observation point moves past it.
    method InjectOne(gp: GatherPipe, out: seq<Byte>)
      requires gp.Valid() && gp.ram != carry && gp.since == [] && owed > 0
      modifies this`owed, this`injectsInPair, this`obsWptr, gp, gp.ram
      ensures gp.Valid() && gp.since == [] && obsWptr == gp.from
      ensures owed == old(owed) - 1 && injectsInPair == old(injectsInPair) + 1
    {
      gp.WriteAll(out);
      gp.Mark();
      obsWptr := gp.wptr;
      injectsInPair, owed := injectsInPair + 1, owed - 1;
    }

    // The injection half: companions for what is owed, at the quarter points
    // of the current pair.
    method InjectCompanions(gp: GatherPipe, r: Round) returns (done: nat)
      requires Valid() && gp.Valid() && gp.ram != carry && obsValid && obsWptr == gp.from && gp.since == [] && r.Valid()
      modifies this`owed, this`injectsInPair, this`obsWptr, gp, gp.ram
      ensures Valid() && gp.Valid() && gp.since == [] && obsWptr == gp.from
      ensures done == Companions(old(Pair()), r) && Pair() == Drain(old(Pair()), r)
      ensures carry[..carryLen] == old(carry[..carryLen])
    {
      ghost var p := Pair();
      assert prev == p.Prev() && curr == p.Curr();
      hide PairOk;
      hide ReplayHeadOk;
      hide Poses.Prev;
      hide Poses.Curr;
      done := 0;
      if owed == 0 || curr == [] || !ReplayHeadOk(curr[0]) { return; }
      var n := if owed < |r.out| then owed else |r.out|;
      while done < n
        invariant done <= n <= old(owed) && n <= |r.out|
        invariant owed == old(owed) - done && injectsInPair == old(injectsInPair) + done
        invariant carry[..carryLen] == old(carry[..carryLen])
        invariant gp.Valid() && gp.since == [] && obsWptr == gp.from
        invariant Burst(p, r, n, 0) == Burst(p, r, n, done)
      {
        // alpha is 0.25 * (injectsInPair + 1); 1 would be curr itself.
        if injectsInPair + 1 >= 4 || prev == [] || !r.patched[done] || !r.accepted[done] { return; }
        InjectOne(gp, r.out[done]);
        done := done + 1;
      }
    }

    // The first call only notes where the write pointer stands.
    method ObserveFirst(gp: GatherPipe)
      requires Valid() && gp.Valid() && gp.ram != carry && !obsValid
      modifies this`obsValid, this`obsWptr, this`obsRing, gp
      ensures Following(gp) && Value() == old(Value())
    {
      RegionIsWritten(gp);
      gp.Mark();
      obsWptr, obsRing, obsValid := gp.wptr, gp.ring, true;
    }

    ghost predicate Following(gp: GatherPipe)
      reads this, carry, gp, gp.ram
    {
      && Valid() && gp.Valid() && gp.ram != carry
      && obsValid && obsWptr == gp.from && obsRing == gp.ring && gp.since == []
    }

    // The game writes, the hook observes it and injects its companions; where
    // the copy would leave the carry the round stops.
    method GameRound(gp: GatherPipe, r: Round) returns (overrun: bool)
      requires Following(gp) && r.Valid()
      modifies this, carry, gp, gp.ram
      ensures Following(gp) && overrun == Stops(gp.ring.Size(), r)
      ensures Value() == if overrun then old(Value()) else Play(old(Value()), gp.ring.Size(), r)
    {
      hide Feed;
      hide Drain;
      hide Companions;
      hide PairOk;
      hide Holds;
      hide Region;
      gp.WriteAll(r.write);
      assert gp.since == r.write;
      overrun := Observe(gp, r.scan);
      gp.Mark();
      if !overrun { var done := InjectCompanions(gp, r); }
    }

    // A run of such rounds, up to the first that stops. The state after it is
    // the run function's, so the frames and the carry hold the game's bytes
    // and none of our own; see RunKeepsStream for which of them.
    method FollowGame(gp: GatherPipe, rounds: seq<Round>) returns (done: nat)
      requires Following(gp) && AllValid(rounds)
      modifies this, carry, gp, gp.ram
      ensures Following(gp) && done <= |rounds|
      ensures forall i :: 0 <= i < done ==> !Stops(gp.ring.Size(), rounds[i])
      ensures done < |rounds| ==> Stops(gp.ring.Size(), rounds[done])
      ensures Value() == PlayAll(old(Value()), gp.ring.Size(), rounds[..done])
    {
      hide Play;
      hide Stops;
      ghost var start := Value();
      done := 0;
      while done < |rounds|
        invariant 0 <= done <= |rounds| && Following(gp)
        invariant forall i :: 0 <= i < done ==> !Stops(gp.ring.Size(), rounds[i])
        invariant Value() == PlayAll(start, gp.ring.Size(), rounds[..done])
      {
        var overrun := GameRound(gp, rounds[done]);
        if overrun { return; }
        assert rounds[..done + 1][..done] == rounds[..done];
        done := done + 1;
      }
    }

    // For rounds shorter than a lap that fit into the carry together, on a
    // stream in lock: every byte the game wrote, in order.
    method FollowSmallGame(gp: GatherPipe, rounds: seq<Round>)
      requires Following(gp) && AllValid(rounds) && NoLaps(gp.ring.Size(), rounds) && !scanResync
      requires carryLen + |Flatten(Writes(rounds))| <= CARRY_MAX
      modifies this, carry, gp, gp.ram
      ensures Following(gp)
      ensures Flatten(frames) + carry[..carryLen] == old(Flatten(frames) + carry[..carryLen]) + Flatten(Writes(rounds))
    {
      ghost var start, size := Value(), gp.ring.Size();
      forall i | 0 <= i < |rounds| ensures !Stops(size, rounds[i]) { WriteWithinAll(rounds, i); }
      SmallRunKeepsStream(start, size, rounds);
      hide *;
      var done := FollowGame(gp, rounds);
      assert rounds[..|rounds|] == rounds;
    }
  }

  lemma {:induction false} WriteWithinAll(rounds: seq<Round>, i: nat)
    requires i < |rounds|
    ensures |rounds[i].write| <= |Flatten(Writes(rounds))|
  {
    WritesNext(rounds);
    if i < |rounds| - 1 { WriteWithinAll(rounds[..|rounds| - 1], i); }
  }

  const FRESH := State([], [], false, Poses([], 0, 0))

  // From the first call on: nothing is captured before it, and everything
  // after it is the run's.
  method FollowFromStart(gp: GatherPipe, rounds: seq<Round>) returns (replay: FifoReplay, done: nat)
    requires gp.Valid() && AllValid(rounds)
    modifies gp, gp.ram
    ensures fresh(replay) && replay.Following(gp) && done <= |rounds|
    ensures done < |rounds| ==> Stops(gp.ring.Size(), rounds[done])
    ensures replay.Value() == PlayAll(FRESH, gp.ring.Size(), rounds[..done])
  {
    replay := new FifoReplay();
    replay.ObserveFirst(gp);
    done := replay.FollowGame(gp, rounds);
  }

  lemma CutsNext(scanBase: nat, bounds: seq<nat>, n: nat, length: nat)
    requires n < |bounds|
    ensures
      var before, fend := Cuts(scanBase, bounds[..n], length), (scanBase + bounds[n] + 5) % TWO_32;
      Cuts(scanBase, bounds[..n + 1], length) == if Last(before) < fend <= length then before + [fend] else before
  {
    assert bounds[..n + 1][..n] == bounds[..n];
  }

  lemma TakeNext(p: Poses, frames: seq<seq<Byte>>, f: seq<Byte>)
    ensures TakeAll(p, frames + [f]) == Take(TakeAll(p, frames), f)
  {
    assert (frames + [f])[..|frames|] == frames;
  }

  lemma NextPiece(held: seq<Byte>, cuts: seq<nat>, fend: nat)
    requires Last(cuts) < fend <= |held|
    ensures Pieces(held, cuts + [fend]) == Pieces(held, cuts) + [held[Last(cuts)..fend]]
  {
    assert (cuts + [fend])[..|cuts|] == cuts;
  }
}
