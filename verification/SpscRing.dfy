// The lock-free single-producer/single-consumer audio ring.
//
// `RingProtocol` is the two-thread protocol: every atomic load, every atomic
// store and every sample copy is a step of its own, so a Push and a Pop
// interleave freely. An acquire load may return a stale counter, as long as
// it is not older than the last one that thread saw.
// `AudioRing` is the class itself, with the two methods as they are written.

module RingIndex {
  import opened ModArith
  import opened Words

  const WORD := TWO_64  // size_t arithmetic is modulo 2^64
  const CHANNELS := 2

  type Word = x: int | 0 <= x < WORD
  type Sample = x: int | -0x8000 <= x < 0x8000

  // The static_assert: a non-zero power of two. An array of twice that many
  // samples has to be addressable, so 2^62 is beyond every real capacity.
  ghost predicate ValidCapacity(capacity: int) {
    exists k: nat :: k <= 62 && capacity == Pow2(k)
  }

  // (counter * 2 + i) & (capacity * 2 - 1), computed in size_t.
  function SlotOf(capacity: nat, counter: int, i: nat): (slot: nat)
    requires capacity > 0
    ensures slot < CHANNELS * capacity
  {
    ((counter * CHANNELS + i) % WORD) % (CHANNELS * capacity)
  }

  function Sub(a: int, b: int): Word { (a - b) % WORD }

  lemma {:induction false} Pow2Divides(k: nat, n: nat)
    requires k <= n
    ensures Pow2(n) % Pow2(k) == 0
    decreases n
  {
    if k < n {
      Pow2Divides(k, n - 1);
      var q := Pow2(n - 1) / Pow2(k);
      assert Pow2(n - 1) == q * Pow2(k);
      assert Pow2(n) == (2 * q) * Pow2(k);
      MultipleMod(2 * q, Pow2(k));
    } else {
      MultipleMod(1, Pow2(k));
    }
  }

  lemma Pow2Steps(k: nat)
    ensures Pow2(k + 1) == 2 * Pow2(k) && Pow2(k + 2) == 4 * Pow2(k) && Pow2(0) == 1
  {}

  lemma QuarterAtMost(word: int, p: int)
    requires p >= 1 && word > 0 && word % (4 * p) == 0
    ensures 4 * p <= word
  {
    assert word == (word / (4 * p)) * (4 * p);
    MulAtLeast(word / (4 * p), 4 * p);
  }

  // Doubling a valid capacity gives a divisor of 2^64.
  lemma CapacityDividesWord(capacity: int)
    requires ValidCapacity(capacity)
    ensures capacity > 0 && WORD % (CHANNELS * capacity) == 0
    ensures capacity < WORD / 2
  {
    var k: nat :| k <= 62 && capacity == Pow2(k);
    hide Pow2;
    Pow2Of64();
    Pow2Steps(k);
    Pow2Divides(k + 1, 64);
    Pow2Divides(k + 2, 64);
    QuarterAtMost(WORD, capacity);
  }

  // The masked index of a wrapped counter is the index of the unbounded one.
  lemma SlotOfAbsolute(capacity: int, n: nat, i: nat)
    requires ValidCapacity(capacity)
    ensures capacity > 0 && SlotOf(capacity, n % WORD, i) == (CHANNELS * n + i) % (CHANNELS * capacity)
  {
    CapacityDividesWord(capacity);
    var m := CHANNELS * capacity;
    var c := n % WORD;
    var k := n / WORD;
    assert n == k * WORD + c;
    assert CHANNELS * n + i == (CHANNELS * k) * WORD + (c * CHANNELS + i);
    var x := c * CHANNELS + i;
    ModOfMod(x, m, WORD);
    ModOfMod(CHANNELS * n + i, m, WORD);
    var q := x / WORD;
    assert CHANNELS * n + i == (CHANNELS * k + q) * WORD + x % WORD;
    ModUnique(CHANNELS * n + i, CHANNELS * k + q, x % WORD, WORD);
  }

  // Unsigned subtraction of wrapped counters is their true distance.
  lemma SubIsDistance(a: nat, b: nat)
    requires b <= a < b + WORD
    ensures Sub(a % WORD, b % WORD) == a - b
  {
    var qa, qb := a / WORD, b / WORD;
    assert a == qa * WORD + a % WORD && b == qb * WORD + b % WORD;
    assert a % WORD - b % WORD == (qb - qa) * WORD + (a - b);
    ModUnique(a % WORD - b % WORD, qb - qa, a - b, WORD);
  }

  lemma AddWraps(a: nat, n: nat)
    ensures (a % WORD + n) % WORD == (a + n) % WORD
  {
    var q := (a % WORD + n) / WORD;
    assert a + n == (a / WORD) * WORD + (a % WORD + n);
    assert a + n == (a / WORD + q) * WORD + (a % WORD + n) % WORD;
    ModUnique(a + n, a / WORD + q, (a % WORD + n) % WORD, WORD);
  }
}

module RingProtocol {
  import opened ModArith
  import opened RingIndex

  // Where each thread is inside its call. `write` and `read` are the wrapped
  // counters the thread loaded into a local.
  datatype Producer =
    | Outside
    | Entered(data: seq<Sample>)
    | LoadedWrite(data: seq<Sample>, write: Word)
    | Filling(data: seq<Sample>, write: Word, count: nat, i: nat)

  datatype Consumer =
    | Away
    | Called(maxFrames: nat)
    | LoadedRead(maxFrames: nat, read: Word)
    | Draining(read: Word, count: nat, dst: seq<Sample>)

  // `write` and `read` are the two atomics. The rest of the second line is
  // history: the unbounded counters, the newest counter each thread has
  // loaded from the other, and the samples accepted and delivered so far.
  datatype State = State(
    samples: seq<Sample>, write: Word, read: Word, p: Producer, c: Consumer,
    w: nat, r: nat, seenByProducer: nat, seenByConsumer: nat, accepted: seq<Sample>, popped: seq<Sample>)

  datatype Step =
    | PushCall(data: seq<Sample>)
    | PushLoadWrite
    | PushLoadRead(observed: nat)
    | PushSample
    | PushPublish
    | PopCall(maxFrames: nat)
    | PopLoadRead
    | PopLoadWrite(observed: nat)
    | PopSample
    | PopPublish

  function Min(a: nat, b: nat): nat { if a < b then a else b }

  ghost predicate Init(capacity: nat, s: State) {
    && |s.samples| == CHANNELS * capacity
    && s.write == 0 && s.read == 0 && s.p == Outside && s.c == Away
    && s.w == 0 && s.r == 0 && s.seenByProducer == 0 && s.seenByConsumer == 0
    && s.accepted == [] && s.popped == []
  }

  ghost predicate Next(capacity: nat, s: State, step: Step, s': State)
    requires capacity > 0 && |s.samples| == CHANNELS * capacity
  {
    match step
    case PushCall(data) =>
      && s.p.Outside?
      && s' == s.(p := Entered(data))
    case PushLoadWrite =>
      && s.p.Entered?
      && s' == s.(p := LoadedWrite(s.p.data, s.write))
    case PushLoadRead(observed) =>
      && s.p.LoadedWrite?
      && s.seenByProducer <= observed <= s.r
      && (var frames := |s.p.data| / CHANNELS;
          var free := Sub(capacity, Sub(s.p.write, observed % WORD));
          s' == s.(p := Filling(s.p.data, s.p.write, Min(frames, free), 0), seenByProducer := observed))
    case PushSample =>
      && s.p.Filling? && s.p.i < s.p.count * CHANNELS && s.p.i < |s.p.data|
      && s' == s.(samples := s.samples[SlotOf(capacity, s.p.write, s.p.i) := s.p.data[s.p.i]],
                  p := s.p.(i := s.p.i + 1))
    case PushPublish =>
      && s.p.Filling? && s.p.i == s.p.count * CHANNELS && s.p.i <= |s.p.data|
      && s' == s.(write := (s.p.write + s.p.count) % WORD, p := Outside,
                  w := s.w + s.p.count, accepted := s.accepted + s.p.data[..s.p.i])
    case PopCall(maxFrames) =>
      && s.c.Away?
      && s' == s.(c := Called(maxFrames))
    case PopLoadRead =>
      && s.c.Called?
      && s' == s.(c := LoadedRead(s.c.maxFrames, s.read))
    case PopLoadWrite(observed) =>
      && s.c.LoadedRead?
      && s.seenByConsumer <= observed <= s.w
      && (var stored := Sub(observed % WORD, s.c.read);
          s' == s.(c := Draining(s.c.read, Min(s.c.maxFrames, stored), []), seenByConsumer := observed))
    case PopSample =>
      && s.c.Draining? && |s.c.dst| < s.c.count * CHANNELS
      && s' == s.(c := s.c.(dst := s.c.dst + [s.samples[SlotOf(capacity, s.c.read, |s.c.dst|)]]))
    case PopPublish =>
      && s.c.Draining? && |s.c.dst| == s.c.count * CHANNELS
      && s' == s.(read := (s.c.read + s.c.count) % WORD, c := Away,
                  r := s.r + s.c.count, popped := s.popped + s.c.dst)
  }

  ghost predicate ProducerOk(capacity: nat, s: State)
    requires capacity > 0 && |s.samples| == CHANNELS * capacity
  {
    match s.p
    case Outside => true
    case Entered(_) => true
    case LoadedWrite(_, write) => write == s.write
    case Filling(data, write, count, i) =>
      && write == s.write
      && count * CHANNELS <= |data| && i <= count * CHANNELS
      && s.w + count <= s.seenByProducer + capacity
      && forall k :: 0 <= k < i ==> At(capacity, s.samples, CHANNELS * s.w + k) == data[k]
  }

  ghost predicate ConsumerOk(capacity: nat, s: State)
    requires capacity > 0
  {
    match s.c
    case Away => true
    case Called(_) => true
    case LoadedRead(_, read) => read == s.read
    case Draining(read, count, dst) =>
      && read == s.read
      && s.r + count <= s.seenByConsumer
      && |dst| <= count * CHANNELS
      && CHANNELS * s.r + |dst| <= |s.accepted|
      && dst == s.accepted[CHANNELS * s.r..CHANNELS * s.r + |dst|]
  }

  // The sample at unbounded position n of the stream.
  ghost function At(capacity: nat, samples: seq<Sample>, n: nat): Sample
    requires capacity > 0 && |samples| == CHANNELS * capacity
  {
    samples[n % (CHANNELS * capacity)]
  }

  // What lies between the two counters is what was accepted last.
  ghost predicate StoredAreAccepted(capacity: nat, s: State)
    requires capacity > 0 && |s.samples| == CHANNELS * capacity && |s.accepted| == CHANNELS * s.w
  {
    forall n :: CHANNELS * s.r <= n < CHANNELS * s.w ==> At(capacity, s.samples, n) == s.accepted[n]
  }

  ghost predicate Inv(capacity: nat, s: State) {
    && ValidCapacity(capacity) && capacity > 0 && |s.samples| == CHANNELS * capacity
    && s.write == s.w % WORD && s.read == s.r % WORD
    && s.seenByProducer <= s.r <= s.seenByConsumer <= s.w <= s.seenByProducer + capacity
    && |s.accepted| == CHANNELS * s.w
    && s.popped == s.accepted[..CHANNELS * s.r]
    && StoredAreAccepted(capacity, s)
    && ProducerOk(capacity, s)
    && ConsumerOk(capacity, s)
  }

  lemma InitInv(capacity: nat, s: State)
    requires ValidCapacity(capacity) && Init(capacity, s)
    ensures Inv(capacity, s)
  {
    CapacityDividesWord(capacity);
  }

  // What a load of the other thread's counter makes of the frame count.
  lemma LoadsMeasureDistance(capacity: nat, w: nat, r: nat)
    requires ValidCapacity(capacity) && r <= w <= r + capacity
    ensures Sub(w % WORD, r % WORD) == w - r
    ensures Sub(capacity, Sub(w % WORD, r % WORD)) == capacity - (w - r)
  {
    CapacityDividesWord(capacity);
    SubIsDistance(w, r);
  }

  lemma FillKeepsInv(capacity: nat, s: State, s': State)
    requires Inv(capacity, s) && Next(capacity, s, PushSample, s')
    ensures Inv(capacity, s')
  {
    hide SlotOf;
    var i, m := s.p.i, CHANNELS * capacity;
    var pos := CHANNELS * s.w + i;
    SlotOfAbsolute(capacity, s.w, i);
    forall n: nat | CHANNELS * s.r <= n < pos
      ensures At(capacity, s'.samples, n) == At(capacity, s.samples, n)
    {
      LessThanOneLap(n, pos, m);
    }
    assert ProducerOk(capacity, s') by {
      forall k | 0 <= k < i + 1
        ensures At(capacity, s'.samples, CHANNELS * s.w + k) == s.p.data[k]
      {
        if k < i { assert At(capacity, s'.samples, CHANNELS * s.w + k) == At(capacity, s.samples, CHANNELS * s.w + k); }
      }
    }
  }

  lemma SliceOfLonger(x: seq<Sample>, y: seq<Sample>, a: nat, b: nat)
    requires a <= b <= |x|
    ensures (x + y)[a..b] == x[a..b]
  {}

  lemma PublishStores(capacity: nat, s: State, s': State)
    requires Inv(capacity, s) && Next(capacity, s, PushPublish, s')
    ensures |s'.accepted| == CHANNELS * s'.w && StoredAreAccepted(capacity, s')
  {
    hide SlotOf;
    hide Sub;
    forall n | CHANNELS * s'.r <= n < CHANNELS * s'.w ensures At(capacity, s'.samples, n) == s'.accepted[n] {
      if n >= CHANNELS * s.w {
        var k := n - CHANNELS * s.w;
        assert At(capacity, s.samples, CHANNELS * s.w + k) == s.p.data[k];
      }
    }
  }

  lemma PublishKeepsInv(capacity: nat, s: State, s': State)
    requires Inv(capacity, s) && Next(capacity, s, PushPublish, s')
    ensures Inv(capacity, s')
  {
    hide SlotOf;
    hide Sub;
    hide StoredAreAccepted;
    AddWraps(s.w, s.p.count);
    PublishStores(capacity, s, s');
    SliceOfLonger(s.accepted, s.p.data[..s.p.i], 0, CHANNELS * s.r);
    if s.c.Draining? { SliceOfLonger(s.accepted, s.p.data[..s.p.i], CHANNELS * s.r, CHANNELS * s.r + |s.c.dst|); }
  }

  lemma StoredStays(capacity: nat, s: State, s': State)
    requires capacity > 0 && |s.samples| == CHANNELS * capacity && |s.accepted| == CHANNELS * s.w
    requires s'.samples == s.samples && s'.accepted == s.accepted && s'.w == s.w && s'.r >= s.r
    ensures StoredAreAccepted(capacity, s) ==> StoredAreAccepted(capacity, s')
  {
    hide At;
  }

  // The next stored sample is the next accepted one.
  lemma DrainDelivers(capacity: nat, s: State, s': State)
    requires Inv(capacity, s) && Next(capacity, s, PopSample, s')
    ensures var k := |s'.c.dst|;
      CHANNELS * s.r + k <= |s.accepted| && s'.c.dst == s.accepted[CHANNELS * s.r..CHANNELS * s.r + k]
  {
    hide SlotOf;
    var k := |s.c.dst|;
    SlotOfAbsolute(capacity, s.r, k);
    var n := CHANNELS * s.r + k;
    assert At(capacity, s.samples, n) == s.accepted[n];
    assert s'.c.dst == s.accepted[CHANNELS * s.r..n] + [s.accepted[n]];
  }

  lemma DrainKeepsInv(capacity: nat, s: State, s': State)
    requires Inv(capacity, s) && Next(capacity, s, PopSample, s')
    ensures Inv(capacity, s')
  {
    hide SlotOf;
    hide StoredAreAccepted;
    DrainDelivers(capacity, s, s');
    StoredStays(capacity, s, s');
  }

  lemma LoadsKeepInv(capacity: nat, s: State, step: Step, s': State)
    requires Inv(capacity, s) && Next(capacity, s, step, s')
    requires step.PushLoadRead? || step.PopLoadWrite?
    ensures Inv(capacity, s')
  {
    hide SlotOf;
    hide Sub;
    match step
    case PushLoadRead(observed) => LoadsMeasureDistance(capacity, s.w, observed);
    case PopLoadWrite(observed) => LoadsMeasureDistance(capacity, observed, s.r);
  }

  lemma JoinSlices(x: seq<Sample>, a: nat, b: nat)
    requires a <= b <= |x|
    ensures x[..a] + x[a..b] == x[..b]
  {}

  lemma PopPublishKeepsInv(capacity: nat, s: State, s': State)
    requires Inv(capacity, s) && Next(capacity, s, PopPublish, s')
    ensures Inv(capacity, s')
  {
    hide SlotOf;
    hide Sub;
    hide StoredAreAccepted;
    AddWraps(s.r, s.c.count);
    StoredStays(capacity, s, s');
    JoinSlices(s.accepted, CHANNELS * s.r, CHANNELS * s'.r);
  }

  // A call, and a load of the thread's own counter, touch a local alone.
  lemma LocalsKeepInv(capacity: nat, s: State, step: Step, s': State)
    requires Inv(capacity, s) && Next(capacity, s, step, s')
    requires step.PushCall? || step.PushLoadWrite? || step.PopCall? || step.PopLoadRead?
    ensures Inv(capacity, s')
  {
    hide SlotOf;
    hide Sub;
    hide StoredAreAccepted;
    StoredStays(capacity, s, s');
  }

  lemma NextKeepsInv(capacity: nat, s: State, step: Step, s': State)
    requires Inv(capacity, s) && Next(capacity, s, step, s')
    ensures Inv(capacity, s')
  {
    hide SlotOf;
    hide Sub;
    hide Inv;
    match step
    case PushLoadRead(_) => LoadsKeepInv(capacity, s, step, s');
    case PopLoadWrite(_) => LoadsKeepInv(capacity, s, step, s');
    case PushSample => FillKeepsInv(capacity, s, s');
    case PushPublish => PublishKeepsInv(capacity, s, s');
    case PopSample => DrainKeepsInv(capacity, s, s');
    case PopPublish => PopPublishKeepsInv(capacity, s, s');
    case _ => LocalsKeepInv(capacity, s, step, s');
  }

  // Between its calls a thread may refresh what it has seen.
  lemma QuietInv(capacity: nat, s: State)
    requires Inv(capacity, s) && s.p == Outside && s.c == Away
    ensures Inv(capacity, s.(seenByProducer := s.r, seenByConsumer := s.w))
    ensures s.r <= s.w <= s.seenByProducer + capacity
  {}

  // Publishing at the end of an undisturbed Push, and of an undisturbed Pop.
  lemma PushEnds(capacity: nat, s: State) returns (after: State)
    requires Inv(capacity, s) && s.p.Filling? && s.c == Away && s.p.i == s.p.count * CHANNELS
    ensures after == s.(write := (s.write + s.p.count) % WORD, p := Outside, w := s.w + s.p.count,
                        accepted := s.accepted + s.p.data[..s.p.i],
                        seenByProducer := s.r, seenByConsumer := s.w + s.p.count)
    ensures Inv(capacity, after)
  {
    hide SlotOf;
    hide Sub;
    var done := s.(write := (s.write + s.p.count) % WORD, p := Outside, w := s.w + s.p.count,
                   accepted := s.accepted + s.p.data[..s.p.i]);
    PublishKeepsInv(capacity, s, done);
    QuietInv(capacity, done);
    after := done.(seenByProducer := done.r, seenByConsumer := done.w);
  }

  lemma PopEnds(capacity: nat, s: State) returns (after: State)
    requires Inv(capacity, s) && s.p == Outside && s.c.Draining? && |s.c.dst| == s.c.count * CHANNELS
    ensures after == s.(read := (s.read + s.c.count) % WORD, c := Away, r := s.r + s.c.count,
                        popped := s.popped + s.c.dst, seenByProducer := s.r + s.c.count, seenByConsumer := s.w)
    ensures Inv(capacity, after)
  {
    hide SlotOf;
    hide Sub;
    var done := s.(read := (s.read + s.c.count) % WORD, c := Away, r := s.r + s.c.count, popped := s.popped + s.c.dst);
    PopPublishKeepsInv(capacity, s, done);
    QuietInv(capacity, done);
    after := done.(seenByProducer := done.r, seenByConsumer := done.w);
  }

  // A run: any interleaving of the two threads' steps.
  ghost predicate IsRun(capacity: nat, run: seq<State>, steps: seq<Step>) {
    && capacity > 0
    && |run| == |steps| + 1
    && Init(capacity, run[0])
    && (forall i :: 0 <= i < |run| ==> |run[i].samples| == CHANNELS * capacity)
    && (forall i :: 0 <= i < |steps| ==> Next(capacity, run[i], steps[i], run[i + 1]))
  }

  lemma {:induction false} RunKeepsInv(capacity: nat, run: seq<State>, steps: seq<Step>, i: nat)
    requires ValidCapacity(capacity) && IsRun(capacity, run, steps) && i < |run|
    ensures Inv(capacity, run[i])
  {
    if i == 0 {
      InitInv(capacity, run[0]);
    } else {
      RunKeepsInv(capacity, run, steps, i - 1);
      NextKeepsInv(capacity, run[i - 1], steps[i - 1], run[i]);
    }
  }

  // The main result: in every state of every run, what was delivered is a
  // prefix of what was accepted, whatever wrapped and whatever was stale.
  lemma DeliveredIsPrefixOfAccepted(capacity: nat, run: seq<State>, steps: seq<Step>, i: nat)
    requires ValidCapacity(capacity) && IsRun(capacity, run, steps) && i < |run|
    ensures run[i].popped <= run[i].accepted
    ensures |run[i].accepted| == |run[i].popped| + CHANNELS * (run[i].w - run[i].r)
    ensures 0 <= run[i].w - run[i].r <= capacity
    ensures Sub(run[i].write, run[i].read) == run[i].w - run[i].r
  {
    RunKeepsInv(capacity, run, steps, i);
    LoadsMeasureDistance(capacity, run[i].w, run[i].r);
  }

  // The slots a Push is writing and the slots a Pop is reading never meet.
  lemma NoSharedSlot(capacity: nat, run: seq<State>, steps: seq<Step>, i: nat, j: nat, k: nat)
    requires ValidCapacity(capacity) && IsRun(capacity, run, steps) && i < |run|
    requires run[i].p.Filling? && j < run[i].p.count * CHANNELS
    requires run[i].c.Draining? && k < run[i].c.count * CHANNELS
    ensures SlotOf(capacity, run[i].p.write, j) != SlotOf(capacity, run[i].c.read, k)
  {
    hide SlotOf;
    hide StoredAreAccepted;
    var s := run[i];
    RunKeepsInv(capacity, run, steps, i);
    SlotsApart(capacity, s.w, s.r, j, k);
  }

  // A position to write and a position to read, less than a lap apart.
  lemma SlotsApart(capacity: nat, w: nat, r: nat, j: nat, k: nat)
    requires ValidCapacity(capacity)
    requires CHANNELS * r + k < CHANNELS * w + j < CHANNELS * r + k + CHANNELS * capacity
    ensures capacity > 0 && SlotOf(capacity, w % WORD, j) != SlotOf(capacity, r % WORD, k)
  {
    hide SlotOf;
    CapacityDividesWord(capacity);
    SlotOfAbsolute(capacity, w, j);
    SlotOfAbsolute(capacity, r, k);
    LessThanOneLap(CHANNELS * r + k, CHANNELS * w + j, CHANNELS * capacity);
  }

  // StoredFrames loads the two counters in either order. Called by the
  // producer, its own counter stands still and the other may be stale: the
  // answer is never less than what is stored, and never more than capacity.
  lemma StoredFramesForProducer(capacity: nat, run: seq<State>, steps: seq<Step>, i: nat, j: nat, observed: nat)
    requires ValidCapacity(capacity) && IsRun(capacity, run, steps) && i < |run| && j < |run| && run[i].w == run[j].w
    requires run[j].seenByProducer <= observed <= run[j].r
    ensures run[j].w - run[j].r <= Sub(run[i].write, observed % WORD) == run[j].w - observed <= capacity
  {
    RunKeepsInv(capacity, run, steps, i);
    RunKeepsInv(capacity, run, steps, j);
    LoadsMeasureDistance(capacity, run[j].w, observed);
  }

  // Called by the consumer, the answer is never more than what is stored: that
  // many frames can be popped.
  lemma StoredFramesForConsumer(capacity: nat, run: seq<State>, steps: seq<Step>, i: nat, j: nat, observed: nat)
    requires ValidCapacity(capacity) && IsRun(capacity, run, steps) && i < |run| && j < |run| && run[i].r == run[j].r
    requires run[j].seenByConsumer <= observed <= run[j].w
    ensures 0 <= Sub(observed % WORD, run[i].read) == observed - run[j].r <= run[j].w - run[j].r <= capacity
  {
    RunKeepsInv(capacity, run, steps, i);
    RunKeepsInv(capacity, run, steps, j);
    LoadsMeasureDistance(capacity, observed, run[j].r);
  }
}

module AudioRing {
  import opened RingIndex
  import opened RingProtocol

  // The ring as the program owns it: a fixed sample array and two wrapped
  // counters. Each method is run here to its end; its loop takes exactly the
  // protocol's steps, which is how the protocol's invariant carries over.
  class SpscStereoRing {
    const capacity: nat
    const samples: array<Sample>
    var write: Word
    var read: Word
    ghost var written: nat
    ghost var delivered: nat
    ghost var accepted: seq<Sample>
    ghost var popped: seq<Sample>

    ghost function Protocol(): State
      reads this, samples
    {
      State(samples[..], write, read, Outside, Away, written, delivered, delivered, written, accepted, popped)
    }

    ghost predicate Valid()
      reads this, samples
    {
      Inv(capacity, Protocol())
    }

    ghost function Stored(): nat
      reads this, samples
      requires Valid()
    {
      written - delivered
    }

    constructor (frames: nat)
      requires ValidCapacity(frames)
      ensures Valid() && capacity == frames && fresh(samples)
      ensures accepted == [] && popped == [] && Stored() == 0
    {
      CapacityDividesWord(frames);
      capacity := frames;
      samples := new Sample[CHANNELS * frames](_ => 0);
      write, read, written, delivered, accepted, popped := 0, 0, 0, 0, [], [];
      new;
      InitInv(capacity, Protocol());
    }

    // Frames that do not fit are dropped; the ones that fit go in, in order.
    method Push(data: seq<Sample>) returns (count: nat)
      requires Valid()
      modifies this, samples
      ensures Valid()
      ensures count == Min(|data| / CHANNELS, capacity - old(Stored()))
      ensures accepted == old(accepted) + data[..CHANNELS * count]
      ensures popped == old(popped)
    {
      hide SlotOf;
      hide Sub;
      QuietInv(capacity, Protocol());
      LoadsMeasureDistance(capacity, written, delivered);
      var frames := |data| / CHANNELS;
      var freeFrames := Sub(capacity, Sub(write, read));
      count := Min(frames, freeFrames);
      ghost var s := Protocol().(p := Filling(data, write, count, 0));
      var i := 0;
      while i < count * CHANNELS
        invariant 0 <= i <= count * CHANNELS
        invariant Inv(capacity, s)
        invariant s == Protocol().(p := Filling(data, write, count, i))
        invariant write == old(write) && read == old(read) && written == old(written) && delivered == old(delivered)
        invariant accepted == old(accepted) && popped == old(popped)
      {
        ghost var next := s.(samples := s.samples[SlotOf(capacity, write, i) := data[i]], p := s.p.(i := i + 1));
        FillKeepsInv(capacity, s, next);
        samples[SlotOf(capacity, write, i)] := data[i];
        i := i + 1;
        s := next;
      }
      ghost var after := PushEnds(capacity, s);
      write := (write + count) % WORD;
      written := written + count;
      accepted := accepted + data[..i];
      assert Protocol() == after;
    }

    // Copies at most maxFrames of what is stored into dst, oldest first.
    method Pop(dst: array<Sample>, maxFrames: nat) returns (count: nat)
      requires Valid() && dst != samples && dst.Length >= CHANNELS * maxFrames
      modifies this, dst
      ensures Valid()
      ensures count == Min(maxFrames, old(Stored()))
      ensures popped == old(popped) + dst[..CHANNELS * count]
      ensures dst[CHANNELS * count..] == old(dst[CHANNELS * count..])
      ensures accepted == old(accepted)
    {
      hide SlotOf;
      hide Sub;
      hide Inv;
      QuietInv(capacity, Protocol());
      LoadsMeasureDistance(capacity, written, delivered);
      var stored := Sub(write, read);
      count := if maxFrames < stored then maxFrames else stored;
      CopyOut(dst, count);
      ghost var s := Protocol().(c := Draining(read, count, dst[..CHANNELS * count]));
      ghost var after := PopEnds(capacity, s);
      read := (read + count) % WORD;
      delivered := delivered + count;
      popped := popped + dst[..CHANNELS * count];
      assert Protocol() == after;
    }

    // The copy loop of Pop.
    method CopyOut(dst: array<Sample>, count: nat)
      requires Valid() && count <= Stored() && dst != samples && dst.Length >= CHANNELS * count
      modifies dst
      ensures Valid()
      ensures Inv(capacity, Protocol().(c := Draining(read, count, dst[..CHANNELS * count])))
      ensures dst[CHANNELS * count..] == old(dst[CHANNELS * count..])
    {
      ghost var start := Protocol();
      ghost var s := start.(c := Draining(read, count, []));
      assert s.accepted[CHANNELS * s.r..CHANNELS * s.r] == [];
      var i := 0;
      while i < count * CHANNELS
        invariant 0 <= i <= count * CHANNELS
        invariant Inv(capacity, s) && Protocol() == start
        invariant s == start.(c := Draining(read, count, dst[..i]))
        invariant dst[CHANNELS * count..] == old(dst[CHANNELS * count..])
      {
        ghost var next := s.(c := s.c.(dst := s.c.dst + [s.samples[SlotOf(capacity, read, i)]]));
        DrainKeepsInv(capacity, s, next);
        dst[i] := samples[SlotOf(capacity, read, i)];
        i := i + 1;
        assert dst[..i] == next.c.dst;
        s := next;
      }
    }

    method StoredFrames() returns (frames: nat)
      requires Valid()
      ensures frames == Stored() <= capacity
      ensures CHANNELS * frames == |accepted| - |popped|
    {
      LoadsMeasureDistance(capacity, written, delivered);
      frames := Sub(write, read);
    }
  }
}
