// The chunk table of a recompiled module: one address range per generated
// function, up to the next function or the end of its code range.

module ChunkSpec {
  import opened Wrappers

  datatype Range = Range(lo: nat, hi: nat)
  predicate Within(r: Range, a: nat) { r.lo <= a < r.hi }

  ghost predicate InSome(ranges: seq<Range>, a: nat) { exists i :: 0 <= i < |ranges| && Within(ranges[i], a) }

  // No address lies in two ranges.
  ghost predicate Disjoint(ranges: seq<Range>) {
    forall i, j, a :: 0 <= i < j < |ranges| && Within(ranges[i], a) ==> !Within(ranges[j], a)
  }

  // In order; one function may be listed twice.
  ghost predicate Ascending(functions: seq<nat>) {
    forall i, j :: 0 <= i < j < |functions| ==> functions[i] <= functions[j]
  }

  // The first range that holds an address.
  function Containing(ranges: seq<Range>, a: nat): (r: Option<Range>)
    ensures r.Some? ==> r.value in ranges && Within(r.value, a)
    ensures r == None <==> !InSome(ranges, a)
  {
    if ranges == [] then None
    else if Within(ranges[0], a) then
      assert InSome(ranges, a);
      Some(ranges[0])
    else
      assert InSome(ranges[1..], a) <==> InSome(ranges, a) by {
        if InSome(ranges, a) {
          var i :| 0 <= i < |ranges| && Within(ranges[i], a);
          assert ranges[1..][i - 1] == ranges[i];
        }
      }
      Containing(ranges[1..], a)
  }

  ghost predicate AllPlaced(ranges: seq<Range>, functions: seq<nat>) {
    forall i :: 0 <= i < |functions| ==> Containing(ranges, functions[i]).Some?
  }

  function Chunk(ranges: seq<Range>, functions: seq<nat>, i: nat): Range
    requires i < |functions| && Containing(ranges, functions[i]).Some?
  {
    var home := Containing(ranges, functions[i]).value;
    if i + 1 < |functions| && Within(home, functions[i + 1]) then Range(functions[i], functions[i + 1])
    else Range(functions[i], home.hi)
  }

  ghost predicate IsTable(table: seq<Range>, ranges: seq<Range>, functions: seq<nat>) {
    && AllPlaced(ranges, functions) && |table| == |functions|
    && forall i :: 0 <= i < |table| ==> table[i] == Chunk(ranges, functions, i)
  }

  // Chunks follow one another without overlap.
  lemma ChunksAscend(table: seq<Range>, ranges: seq<Range>, functions: seq<nat>, i: nat, j: nat)
    requires IsTable(table, ranges, functions) && Ascending(functions) && i < j < |table|
    ensures table[i].lo <= table[i].hi <= table[j].lo
  {
    var home := Containing(ranges, functions[i]).value;
    assert functions[i] <= functions[i + 1] <= functions[j];
  }

  // A chunk is empty exactly when its function is listed again right after it.
  lemma EmptyIffListedTwice(table: seq<Range>, ranges: seq<Range>, functions: seq<nat>, i: nat)
    requires IsTable(table, ranges, functions) && Ascending(functions) && i < |table|
    ensures table[i].lo == table[i].hi <==> i + 1 < |functions| && functions[i + 1] == functions[i]
  {
    var home := Containing(ranges, functions[i]).value;
    if i + 1 < |functions| { assert functions[i] <= functions[i + 1]; }
  }

  // The last function at or before an address.
  lemma {:induction false} LastAtOrBefore(functions: seq<nat>, k: nat, a: nat) returns (j: nat)
    requires Ascending(functions) && k < |functions| && functions[k] <= a
    ensures k <= j < |functions| && functions[j] <= a && (j + 1 < |functions| ==> a < functions[j + 1])
    decreases |functions| - k
  {
    if k + 1 < |functions| && functions[k + 1] <= a { j := LastAtOrBefore(functions, k + 1, a); } else { j := k; }
  }

  // Some function of the range that holds a starts at or before a.
  ghost predicate Reached(ranges: seq<Range>, functions: seq<nat>, a: nat) {
    exists i, k :: 0 <= i < |ranges| && 0 <= k < |functions| &&
      Within(ranges[i], a) && Within(ranges[i], functions[k]) && functions[k] <= a
  }

  lemma ChunkIsReached(table: seq<Range>, ranges: seq<Range>, functions: seq<nat>, i: nat, a: nat)
    requires IsTable(table, ranges, functions) && Ascending(functions) && i < |table| && Within(table[i], a)
    ensures Reached(ranges, functions, a)
  {
    var home := Containing(ranges, functions[i]).value;
    var r :| 0 <= r < |ranges| && ranges[r] == home;
    assert Within(ranges[r], functions[i]) && Within(ranges[r], a);
  }

  lemma SameRange(ranges: seq<Range>, i: nat, j: nat, a: nat)
    requires Disjoint(ranges) && i < |ranges| && j < |ranges|
    requires Within(ranges[i], a) && Within(ranges[j], a)
    ensures i == j
  {}

  // No code range sticks out behind the first one that holds a function, save
  // where the next function has begun by then.
  ghost predicate NoOverhang(ranges: seq<Range>, functions: seq<nat>)
    requires AllPlaced(ranges, functions)
  {
    forall j, r :: 0 <= j < |functions| && 0 <= r < |ranges| && Within(ranges[r], functions[j]) ==>
      Reaches(ranges, functions, j, ranges[r].hi)
  }

  ghost predicate Reaches(ranges: seq<Range>, functions: seq<nat>, j: nat, hi: nat)
    requires AllPlaced(ranges, functions) && j < |functions|
  {
    var end := Containing(ranges, functions[j]).value.hi;
    hi <= end || (j + 1 < |functions| && functions[j + 1] <= end)
  }

  ghost predicate Exact(table: seq<Range>, ranges: seq<Range>, functions: seq<nat>) {
    forall a :: InSome(table, a) <==> Reached(ranges, functions, a)
  }

  lemma ReachedIsCovered(table: seq<Range>, ranges: seq<Range>, functions: seq<nat>, r: nat, k: nat, a: nat)
    requires IsTable(table, ranges, functions) && Ascending(functions) && NoOverhang(ranges, functions)
    requires r < |ranges| && k < |functions| && Within(ranges[r], a) && Within(ranges[r], functions[k])
    requires functions[k] <= a
    ensures InSome(table, a)
  {
    var j := LastAtOrBefore(functions, k, a);
    if k < j { assert functions[k] <= functions[j]; }
    assert Within(ranges[r], functions[j]) && Reaches(ranges, functions, j, ranges[r].hi);
    hide NoOverhang;
    hide Ascending;
    assert Within(table[j], a);
  }

  // The address where the first range of function j ends, when nothing goes on
  // there.
  lemma OverhangIsMissed(table: seq<Range>, ranges: seq<Range>, functions: seq<nat>, j: nat, r: nat)
    requires IsTable(table, ranges, functions) && Ascending(functions)
    requires j < |functions| && r < |ranges| && Within(ranges[r], functions[j])
    requires !Reaches(ranges, functions, j, ranges[r].hi)
    ensures var end := Containing(ranges, functions[j]).value.hi; Reached(ranges, functions, end) && !InSome(table, end)
  {
    var end := Containing(ranges, functions[j]).value.hi;
    assert Within(ranges[r], end) && Within(ranges[r], functions[j]) && functions[j] <= end;
    forall i | 0 <= i < |table| ensures !Within(table[i], end) {
      if i < j { ChunksAscend(table, ranges, functions, i, j); }
      if j + 1 < i { assert functions[j + 1] <= functions[i]; }
    }
  }

  // The chunks hold exactly the addresses of each range from its first
  // function on, if and only if no range overhangs.
  lemma ChunksCoverIff(table: seq<Range>, ranges: seq<Range>, functions: seq<nat>)
    requires IsTable(table, ranges, functions) && Ascending(functions)
    ensures Exact(table, ranges, functions) <==> NoOverhang(ranges, functions)
  {
    if Exact(table, ranges, functions) {
      forall j, r | 0 <= j < |functions| && 0 <= r < |ranges| && Within(ranges[r], functions[j])
        ensures Reaches(ranges, functions, j, ranges[r].hi)
      {
        if !Reaches(ranges, functions, j, ranges[r].hi) { OverhangIsMissed(table, ranges, functions, j, r); }
      }
    }
    if NoOverhang(ranges, functions) {
      forall a: nat ensures InSome(table, a) <==> Reached(ranges, functions, a) {
        if InSome(table, a) {
          var i :| 0 <= i < |table| && Within(table[i], a);
          ChunkIsReached(table, ranges, functions, i, a);
        }
        if Reached(ranges, functions, a) {
          var r, k :| 0 <= r < |ranges| && 0 <= k < |functions| &&
            Within(ranges[r], a) && Within(ranges[r], functions[k]) && functions[k] <= a;
          ReachedIsCovered(table, ranges, functions, r, k, a);
        }
      }
    }
  }

  // Disjoint code ranges never overhang.
  lemma ChunksCover(table: seq<Range>, ranges: seq<Range>, functions: seq<nat>)
    requires IsTable(table, ranges, functions) && Ascending(functions) && Disjoint(ranges)
    ensures Exact(table, ranges, functions)
  {
    forall j, r | 0 <= j < |functions| && 0 <= r < |ranges| && Within(ranges[r], functions[j])
      ensures Reaches(ranges, functions, j, ranges[r].hi)
    {
      var home := Containing(ranges, functions[j]).value;
      var h :| 0 <= h < |ranges| && ranges[h] == home;
      SameRange(ranges, h, r, functions[j]);
    }
    ChunksCoverIff(table, ranges, functions);
  }

  // Nested code ranges can leave a hole: the inner range ends the chunk.
  lemma NestedRangesLeaveHole()
    ensures var ranges, functions := [Range(0, 4), Range(0, 8)], [0];
            && IsTable([Range(0, 4)], ranges, functions) && Ascending(functions)
            && Reached(ranges, functions, 5) && !InSome([Range(0, 4)], 5)
  {
    var ranges, functions := [Range(0, 4), Range(0, 8)], [0];
    assert Containing(ranges, 0) == Some(Range(0, 4));
    assert Within(ranges[1], 5) && Within(ranges[1], functions[0]);
  }
}

module ChunkTable {
  import opened Wrappers
  import opened ChunkSpec

  method Build(ranges: seq<Range>, functions: seq<nat>) returns (r: Option<seq<Range>>)
    ensures r.Some? <==> AllPlaced(ranges, functions)
    ensures r.Some? ==> IsTable(r.value, ranges, functions)
  {
    var table: seq<Range> := [];
    for i := 0 to |functions|
      invariant |table| == i
      invariant forall k :: 0 <= k < i ==>
        Containing(ranges, functions[k]).Some? && table[k] == Chunk(ranges, functions, k)
    {
      var home := Containing(ranges, functions[i]);
      if home == None { return None; }
      var end := home.value.hi;
      if i + 1 < |functions| && home.value.lo <= functions[i + 1] < home.value.hi { end := functions[i + 1]; }
      table := table + [Range(functions[i], end)];
    }
    return Some(table);
  }
}
