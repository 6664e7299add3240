// The process-list search: a native walk that answers for the guest's own
// list walker and its judge callbacks, or declines and lets them run.

module JudgeSpec {
  import opened Wrappers
  import opened Words

  // What a load from any guest address yields; nothing here stores.
  datatype Guest = Guest(load32: U32 -> U32, load16: U32 -> U16)

  // By name: a signed halfword at +8 of the candidate. By id: the word at +4.
  // Under the filter the candidate is the word at +0xC of the node.
  datatype Query = Query(filter: bool, byName: bool, key: U32)

  const ANOMALY: U32 := 0xFFFF_FFFF
  const WALK_CAP := 8192
  const RAM_BASE := 0x8000_0000

  function Wrap(a: int): U32 { a % 0x1_0000_0000 }

  function Signed(h: U16): int { if h < 0x8000 then h else h - 0x1_0000 }

  // --- The guest's walker ---

  function Candidate(g: Guest, q: Query, node: U32): U32 { if q.filter then g.load32(Wrap(node + 0xC)) else node }

  function Field(q: Query, candidate: U32): U32 { Wrap(candidate + if q.byName then 8 else 4) }

  predicate Matches(g: Guest, q: Query, candidate: U32) {
    if q.byName then Signed(g.load16(Field(q, candidate))) == Signed(g.load16(q.key))
    else g.load32(Field(q, candidate)) == g.load32(q.key)
  }

  // A judge hands back its candidate on a match and 0 on a miss.
  function Judge(g: Guest, q: Query, node: U32): U32 {
    if Matches(g, q, Candidate(g, q, node)) then Candidate(g, q, node) else 0
  }

  function NextNode(g: Guest, node: U32): U32 { g.load32(Wrap(node + 8)) }

  // The first non-zero judge result along the list, if the walk ends within
  // n nodes.
  function Original(g: Guest, q: Query, node: U32, n: nat): Option<U32>
    decreases n
  {
    if node == 0 then Some(0)
    else if n == 0 then None
    else if Judge(g, q, node) != 0 then Some(Judge(g, q, node))
    else Original(g, q, NextNode(g, node), n - 1)
  }

  lemma {:induction false} MoreNodesSameAnswer(g: Guest, q: Query, node: U32, n: nat, m: nat)
    requires Original(g, q, node, n).Some? && n <= m
    ensures Original(g, q, node, m) == Original(g, q, node, n)
    decreases n
  {
    if node != 0 && Judge(g, q, node) == 0 { MoreNodesSameAnswer(g, q, NextNode(g, node), n - 1, m - 1); }
  }

  // --- What the native walk may look at ---

  predicate InRam(size: nat, ea: U32, bytes: nat) { Wrap(ea - RAM_BASE) <= size - bytes }

  predicate NodeInRam(g: Guest, q: Query, size: nat, node: U32) {
    && InRam(size, Wrap(node + 8), 4) && InRam(size, Wrap(node + 0xC), 4)
    && InRam(size, Field(q, Candidate(g, q, node)), if q.byName then 2 else 4)
  }

  // The guest's walk ends within n nodes, all of them in main memory.
  predicate Clean(g: Guest, q: Query, size: nat, node: U32, n: nat)
    decreases n
  {
    node == 0 ||
    (n > 0 && NodeInRam(g, q, size, node) && (Judge(g, q, node) != 0 || Clean(g, q, size, NextNode(g, node), n - 1)))
  }

  // A null candidate, and the one that reads like the decline code, both have
  // their field outside main memory.
  lemma OddCandidatesAreOutside(q: Query, size: nat, candidate: U32, bytes: nat)
    requires size <= RAM_BASE && InRam(size, Field(q, candidate), bytes)
    ensures candidate != 0 && candidate != ANOMALY
  {}

  // A clean walk ends, and its answer is never the decline code.
  lemma {:induction false} CleanWalkAnswers(g: Guest, q: Query, size: nat, node: U32, n: nat)
    requires size <= RAM_BASE && Clean(g, q, size, node, n)
    ensures Original(g, q, node, n).Some? && Original(g, q, node, n).value != ANOMALY
    decreases n
  {
    if node != 0 {
      OddCandidatesAreOutside(q, size, Candidate(g, q, node), if q.byName then 2 else 4);
      if Judge(g, q, node) == 0 { CleanWalkAnswers(g, q, size, NextNode(g, node), n - 1); }
    }
  }

  // --- The hook ---

  const JUDGE_FILTER: U32 := 0x8024_5640
  const JUDGE_BY_NAME: U32 := 0x8004_0050
  const JUDGE_BY_ID: U32 := 0x8004_0068

  predicate InMem1(a: U32) { Wrap(a - RAM_BASE) < 0x0180_0000 }

  predicate Leaf(judge: U32) { judge == JUDGE_BY_NAME || judge == JUDGE_BY_ID }

  // What the guest's call asks for, when its judge is one of the known ones.
  function Asked(g: Guest, judge: U32, data: U32): Option<Query> {
    if judge == JUDGE_FILTER then
      if Leaf(g.load32(data)) then Some(Query(true, g.load32(data) == JUDGE_BY_NAME, g.load32(Wrap(data + 4))))
      else None
    else if Leaf(judge) then Some(Query(false, judge == JUDGE_BY_NAME, data))
    else None
  }
}

module JudgeWalk {
  import opened Wrappers
  import opened JudgeSpec
  import opened Words

  // A halfword sign-extended into 32 bits.
  function Extend(h: U16): U32 { Wrap(Signed(h)) }

  lemma ExtendIsExact(a: U16, b: U16)
    ensures Extend(a) == Extend(b) <==> Signed(a) == Signed(b)
  {}

  // The native walk: exactly on a clean list, the guest's own answer.
  method Walk(g: Guest, q: Query, size: nat, first: U32, wanted: U32) returns (r: U32)
    requires 4 <= size <= RAM_BASE
    requires wanted == if q.byName then Extend(g.load16(q.key)) else g.load32(q.key)
    ensures r != ANOMALY <==> Clean(g, q, size, first, WALK_CAP)
    ensures r != ANOMALY ==> Original(g, q, first, WALK_CAP) == Some(r)
  {
    var node: U32 := first;
    if node != 0 && !InRam(size, Wrap(node + 8), 4) { return ANOMALY; }
    var next: U32 := if node != 0 then g.load32(Wrap(node + 8)) else 0;
    var it := 0;
    while node != 0
      invariant 0 <= it <= WALK_CAP
      invariant node != 0 ==> InRam(size, Wrap(node + 8), 4) && next == NextNode(g, node)
      invariant Clean(g, q, size, first, WALK_CAP) <==> Clean(g, q, size, node, WALK_CAP - it)
      invariant Original(g, q, first, WALK_CAP) == Original(g, q, node, WALK_CAP - it)
      decreases WALK_CAP - it
    {
      it := it + 1;
      if it > WALK_CAP { return ANOMALY; }
      if !InRam(size, Wrap(node + 0xC), 4) { return ANOMALY; }
      var candidate := if q.filter then g.load32(Wrap(node + 0xC)) else node;
      var field := Wrap(candidate + if q.byName then 8 else 4);
      if !InRam(size, field, if q.byName then 2 else 4) { return ANOMALY; }
      OddCandidatesAreOutside(q, size, candidate, if q.byName then 2 else 4);
      var found := if q.byName then Extend(g.load16(field)) else g.load32(field);
      ExtendIsExact(g.load16(field), g.load16(q.key));
      if found == wanted { return candidate; }
      node := next;
      if node != 0 && !InRam(size, Wrap(node + 8), 4) { return ANOMALY; }
      next := if node != 0 then g.load32(Wrap(node + 8)) else 0;
    }
    return 0;
  }

  // The hook answers in the guest's place, or not at all: every answer is
  // what the guest's walker returns, and it declines only a judge it does not
  // know, a parameter block outside MEM1, or a list that is not clean.
  method OnJudge(g: Guest, size: nat, first: U32, judge: U32, data: U32) returns (answer: Option<U32>)
    requires 4 <= size <= RAM_BASE
    ensures answer.Some? ==>
      && Asked(g, judge, data).Some?
      && forall n :: n >= WALK_CAP ==> Original(g, Asked(g, judge, data).value, first, n) == answer
    ensures answer == None <==>
      (|| Asked(g, judge, data) == None || !InMem1(data) || !InMem1(Asked(g, judge, data).value.key)
       || !Clean(g, Asked(g, judge, data).value, size, first, WALK_CAP))
  {
    var inner, key, filter := judge, data, judge == JUDGE_FILTER;
    if filter {
      if !InMem1(data) { return None; }
      inner := g.load32(data);
      key := g.load32(Wrap(data + 4));
      if !Leaf(inner) || !InMem1(key) { return None; }
    } else if Leaf(judge) {
      if !InMem1(key) { return None; }
    } else {
      return None;
    }
    var byName := inner == JUDGE_BY_NAME;
    var q := Query(filter, byName, key);
    var wanted := if byName then Extend(g.load16(key)) else g.load32(key);
    var r := Walk(g, q, size, first, wanted);
    if r == ANOMALY { return None; }
    forall n | n >= WALK_CAP ensures Original(g, q, first, n) == Some(r) {
      MoreNodesSameAnswer(g, q, first, WALK_CAP, n);
    }
    return Some(r);
  }
}
