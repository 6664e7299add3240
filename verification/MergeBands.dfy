// Reservation bands: one address window per module, sorted and merged where
// they touch or overlap.

module BandSpec {
  import opened ModArith

  datatype Band = Band(id: nat, lo: nat, hi: nat)

  // A merged row: the id it keeps, its window, and whether rows of other ids
  // went into it.
  datatype Row = Row(id: nat, lo: nat, hi: nat, joined: bool)

  // Windows are not inverted; a REL file is never empty.
  ghost predicate Proper(bands: seq<Band>) { forall i :: 0 <= i < |bands| ==> bands[i].lo <= bands[i].hi }

  predicate Before(a: Band, b: Band) { a.lo < b.lo || (a.lo == b.lo && a.hi <= b.hi) }

  ghost predicate SortedBands(bands: seq<Band>) { forall i, j :: 0 <= i < j < |bands| ==> Before(bands[i], bands[j]) }

  ghost predicate InBands(bands: seq<Band>, a: int) { exists i :: 0 <= i < |bands| && bands[i].lo <= a < bands[i].hi }

  ghost predicate InRows(rows: seq<Row>, a: int) { exists i :: 0 <= i < |rows| && rows[i].lo <= a < rows[i].hi }

  function Max(a: nat, b: nat): nat { if a > b then a else b }

  // One row into the growing list.
  function MergeOne(rows: seq<Row>, b: Band): (r: seq<Row>)
    ensures |r| >= 1
  {
    if rows != [] && b.lo <= rows[|rows| - 1].hi then
      var last := rows[|rows| - 1];
      rows[..|rows| - 1] + [last.(hi := Max(last.hi, b.hi), joined := last.joined || last.id != b.id)]
    else rows + [Row(b.id, b.lo, b.hi, false)]
  }

  // The merge of bands that are already in order.
  function MergeSorted(bands: seq<Band>): seq<Row> {
    if bands == [] then [] else MergeOne(MergeSorted(bands[..|bands| - 1]), bands[|bands| - 1])
  }

  // Neighbouring rows leave a gap between them.
  ghost predicate StrictGaps(rows: seq<Row>) {
    && (forall i :: 0 <= i < |rows| ==> rows[i].lo <= rows[i].hi)
    && (forall i, j :: 0 <= i < j < |rows| ==> rows[i].hi < rows[j].lo)
  }

  lemma MergeOneHasGaps(rows: seq<Row>, b: Band)
    requires StrictGaps(rows) && b.lo <= b.hi && (rows != [] ==> rows[|rows| - 1].lo <= b.lo)
    ensures StrictGaps(MergeOne(rows, b)) && MergeOne(rows, b)[|MergeOne(rows, b)| - 1].lo <= b.lo
  {
    var r := MergeOne(rows, b);
    forall i, j | 0 <= i < j < |r| ensures r[i].hi < r[j].lo {
      if j < |rows| {
        assert rows[i].hi < rows[j].lo;
      } else if i < |rows| - 1 {
        assert rows[i].hi < rows[|rows| - 1].lo;
      }
    }
  }

  lemma {:induction false} MergeHasGaps(bands: seq<Band>)
    requires Proper(bands) && SortedBands(bands)
    ensures StrictGaps(MergeSorted(bands))
    ensures bands != [] ==>
      MergeSorted(bands) != [] && MergeSorted(bands)[|MergeSorted(bands)| - 1].lo <= bands[|bands| - 1].lo
  {
    if bands != [] {
      var n := |bands| - 1;
      MergeHasGaps(bands[..n]);
      if n > 0 { assert Before(bands[n - 1], bands[n]); }
      MergeOneHasGaps(MergeSorted(bands[..n]), bands[n]);
    }
  }

  lemma InBandsSnoc(init: seq<Band>, b: Band, a: int)
    ensures InBands(init + [b], a) <==> InBands(init, a) || b.lo <= a < b.hi
  {
    var all := init + [b];
    if InBands(init, a) {
      var i :| 0 <= i < |init| && init[i].lo <= a < init[i].hi;
      assert all[i] == init[i];
    }
    if b.lo <= a < b.hi { assert all[|init|] == b; }
  }

  lemma InRowsSnoc(init: seq<Row>, r: Row, a: int)
    ensures InRows(init + [r], a) <==> InRows(init, a) || r.lo <= a < r.hi
  {
    var all := init + [r];
    if InRows(init, a) {
      var i :| 0 <= i < |init| && init[i].lo <= a < init[i].hi;
      assert all[i] == init[i];
    }
    if r.lo <= a < r.hi { assert all[|init|] == r; }
  }

  // Exactly the same addresses are covered.
  lemma {:induction false} MergeCovers(bands: seq<Band>, a: int)
    requires Proper(bands) && SortedBands(bands)
    ensures InRows(MergeSorted(bands), a) <==> InBands(bands, a)
  {
    if bands != [] {
      var init, b := SplitLast(bands);
      hide MergeSorted;
      hide MergeOne;
      hide InRows;
      MergeCovers(init, a);
      InBandsSnoc(init, b, a);
      MergeOneCovers(MergeSorted(init), b, a);
    }
  }

  lemma MergeOneCovers(rows: seq<Row>, b: Band, a: int)
    requires b.lo <= b.hi && (rows != [] ==> rows[|rows| - 1].lo <= b.lo)
    ensures InRows(MergeOne(rows, b), a) <==> InRows(rows, a) || b.lo <= a < b.hi
  {
    if rows != [] && b.lo <= rows[|rows| - 1].hi {
      var init, last := rows[..|rows| - 1], rows[|rows| - 1];
      assert rows == init + [last];
      var grown := last.(hi := Max(last.hi, b.hi), joined := last.joined || last.id != b.id);
      assert MergeOne(rows, b) == init + [grown];
      InRowsSnoc(init, last, a);
      InRowsSnoc(init, grown, a);
    } else {
      InRowsSnoc(rows, Row(b.id, b.lo, b.hi, false), a);
    }
  }

  lemma LastStartsNoLater(init: seq<Band>, b: Band)
    requires Proper(init + [b]) && SortedBands(init + [b]) && init != []
    ensures MergeSorted(init) != [] && MergeSorted(init)[|MergeSorted(init)| - 1].lo <= b.lo
  {
    var all := init + [b];
    assert forall i :: 0 <= i < |init| ==> all[i] == init[i];
    assert Before(all[|init| - 1], all[|init|]);
    MergeHasGaps(init);
  }

  // --- Order of the input --------------------------------------------------

  // The library sort: stable, by (lo, hi).
  function Insert(s: seq<Band>, b: Band): seq<Band> {
    if s != [] && !Before(s[|s| - 1], b) then Insert(s[..|s| - 1], b) + [s[|s| - 1]] else s + [b]
  }

  function Sort(bands: seq<Band>): seq<Band> {
    if bands == [] then [] else Insert(Sort(bands[..|bands| - 1]), bands[|bands| - 1])
  }

  lemma {:induction false} InsertSorts(s: seq<Band>, b: Band)
    requires SortedBands(s)
    ensures SortedBands(Insert(s, b)) && multiset(Insert(s, b)) == multiset(s) + multiset{b}
  {
    if s != [] && !Before(s[|s| - 1], b) {
      var init, last := s[..|s| - 1], s[|s| - 1];
      assert s == init + [last];
      InsertSorts(init, b);
      hide Before;
      AllBefore(Insert(init, b), init, b, last);
    }
  }

  lemma AllBefore(r: seq<Band>, init: seq<Band>, b: Band, last: Band)
    requires multiset(r) == multiset(init) + multiset{b} && SortedBands(init + [last]) && !Before(last, b)
    ensures forall i :: 0 <= i < |r| ==> Before(r[i], last)
  {
    forall i | 0 <= i < |r| ensures Before(r[i], last) {
      assert r[i] in multiset(r);
      if r[i] != b {
        assert r[i] in multiset(init);
        var j :| 0 <= j < |init| && init[j] == r[i];
        assert Before((init + [last])[j], (init + [last])[|init|]);
      }
    }
  }

  lemma {:induction false} SortSorts(bands: seq<Band>)
    ensures SortedBands(Sort(bands)) && multiset(Sort(bands)) == multiset(bands)
  {
    if bands != [] {
      SortSorts(bands[..|bands| - 1]);
      InsertSorts(Sort(bands[..|bands| - 1]), bands[|bands| - 1]);
      assert bands == bands[..|bands| - 1] + [bands[|bands| - 1]];
    }
  }

  function Merge(bands: seq<Band>): seq<Row> { MergeSorted(Sort(bands)) }

  lemma SameBands(x: seq<Band>, y: seq<Band>)
    requires multiset(x) == multiset(y)
    ensures Proper(x) ==> Proper(y)
    ensures forall a: int :: InBands(x, a) ==> InBands(y, a)
  {
    forall i | 0 <= i < |y| ensures y[i] in x { assert y[i] in multiset(y); assert y[i] in multiset(x); }
    forall a: int | InBands(x, a) ensures InBands(y, a) {
      var i :| 0 <= i < |x| && x[i].lo <= a < x[i].hi;
      assert x[i] in multiset(x);
      assert x[i] in multiset(y);
      var j :| 0 <= j < |y| && y[j] == x[i];
    }
  }

  // The merge covers exactly the input's addresses with gap-separated rows.
  lemma MergeIsExact(bands: seq<Band>)
    requires Proper(bands)
    ensures StrictGaps(Merge(bands)) && forall a: int :: InRows(Merge(bands), a) <==> InBands(bands, a)
  {
    SortSorts(bands);
    SameBands(bands, Sort(bands));
    SameBands(Sort(bands), bands);
    MergeHasGaps(Sort(bands));
    forall a: int ensures InRows(Merge(bands), a) <==> InBands(bands, a) { MergeCovers(Sort(bands), a); }
  }

  // A band without its id.
  function Shadow(b: Band): Band { Band(0, b.lo, b.hi) }

  function Shadows(bands: seq<Band>): (r: seq<Band>)
    ensures |r| == |bands|
  {
    seq(|bands|, i requires 0 <= i < |bands| => Shadow(bands[i]))
  }

  lemma WithoutLast(s: seq<Band>)
    requires s != []
    ensures multiset(s[..|s| - 1]) == multiset(s) - multiset{s[|s| - 1]}
  {
    assert s == s[..|s| - 1] + [s[|s| - 1]];
  }

  function Without(s: seq<Band>, j: nat): (r: seq<Band>)
    requires j < |s|
    ensures |r| == |s| - 1
  {
    s[..j] + s[j + 1..]
  }

  lemma MultisetWithout(s: seq<Band>, j: nat)
    requires j < |s|
    ensures multiset(Without(s, j)) == multiset(s) - multiset{s[j]}
  {
    assert s == s[..j] + [s[j]] + s[j + 1..];
  }

  lemma ShadowsWithout(s: seq<Band>, j: nat)
    requires j < |s|
    ensures Shadows(Without(s, j)) == Without(Shadows(s), j)
    ensures multiset(Shadows(s)) == multiset(Shadows(Without(s, j))) + multiset{Shadow(s[j])}
  {
    assert Shadows(Without(s, j)) == Without(Shadows(s), j);
    MultisetWithout(Shadows(s), j);
    assert Shadows(s)[j] == Shadow(s[j]) && Shadows(s)[j] in Shadows(s);
  }

  // Permuted bands have permuted shadows.
  lemma {:induction false} ShadowsArePermuted(x: seq<Band>, y: seq<Band>)
    requires multiset(x) == multiset(y)
    ensures multiset(Shadows(x)) == multiset(Shadows(y))
    decreases |x|
  {
    if x == [] {
      assert |multiset(y)| == 0;
    } else {
      assert x[0] in multiset(y);
      var j :| 0 <= j < |y| && y[j] == x[0];
      MultisetWithout(x, 0);
      MultisetWithout(y, j);
      ShadowsWithout(x, 0);
      ShadowsWithout(y, j);
      hide Shadows;
      hide Without;
      ShadowsArePermuted(Without(x, 0), Without(y, j));
    }
  }

  lemma SameLast(x: seq<Band>, y: seq<Band>)
    requires SortedBands(x) && SortedBands(y) && multiset(x) == multiset(y) && x != []
    requires forall i :: 0 <= i < |x| ==> x[i].id == 0
    ensures y != [] && x[|x| - 1] == y[|y| - 1]
  {
    var b := x[|x| - 1];
    assert b in multiset(y);
    var j :| 0 <= j < |y| && y[j] == b;
    var c := y[|y| - 1];
    assert c in multiset(x);
    var i :| 0 <= i < |x| && x[i] == c;
    assert i == |x| - 1 || Before(x[i], b);
    assert j == |y| - 1 || Before(y[j], c);
  }

  // There is one way to put shadows in order.
  lemma {:induction false} OneOrder(x: seq<Band>, y: seq<Band>)
    requires SortedBands(x) && SortedBands(y) && multiset(x) == multiset(y)
    requires forall i :: 0 <= i < |x| ==> x[i].id == 0
    ensures x == y
    decreases |x|
  {
    if x == [] {
      assert |multiset(y)| == 0;
    } else {
      SameLast(x, y);
      var n, m := |x| - 1, |y| - 1;
      WithoutLast(x);
      WithoutLast(y);
      OneOrder(x[..n], y[..m]);
      assert x == x[..n] + [x[n]] && y == y[..m] + [y[m]];
    }
  }

  ghost predicate SameWindows(r: seq<Row>, s: seq<Row>) {
    |r| == |s| && forall i :: 0 <= i < |r| ==> r[i].lo == s[i].lo && r[i].hi == s[i].hi
  }

  // The windows of a merge are made from windows alone.
  lemma {:induction false} MergeOfShadows(x: seq<Band>)
    ensures SameWindows(MergeSorted(x), MergeSorted(Shadows(x)))
  {
    if x != [] {
      var n := |x| - 1;
      MergeOfShadows(x[..n]);
      assert Shadows(x)[..n] == Shadows(x[..n]);
    }
  }

  // The windows do not depend on the order of the input, whatever the bands.
  lemma MergeIgnoresOrder(x: seq<Band>, y: seq<Band>)
    requires multiset(x) == multiset(y)
    ensures |Merge(x)| == |Merge(y)|
    ensures forall i :: 0 <= i < |Merge(x)| ==> Merge(x)[i].lo == Merge(y)[i].lo && Merge(x)[i].hi == Merge(y)[i].hi
  {
    SortSorts(x);
    SortSorts(y);
    var u, v := Sort(x), Sort(y);
    ShadowsArePermuted(u, v);
    OneOrder(Shadows(u), Shadows(v));
    MergeOfShadows(u);
    MergeOfShadows(v);
  }

  // --- Merging again -------------------------------------------------------

  const JOINED := 0x10000

  // m[0] | 0x10000
  function Flag(id: nat): nat { if Flagged(id) then id else id + JOINED }

  // The rows as they are returned.
  function Output(rows: seq<Row>): seq<Band> {
    seq(|rows|, i requires 0 <= i < |rows| =>
      Band(if rows[i].joined then Flag(rows[i].id) else rows[i].id, rows[i].lo, rows[i].hi))
  }

  ghost predicate Gapped(bands: seq<Band>) {
    Proper(bands) && forall i, j :: 0 <= i < j < |bands| ==> bands[i].hi < bands[j].lo
  }

  function Plain(b: Band): Row { Row(b.id, b.lo, b.hi, false) }

  lemma {:induction false} GappedStays(bands: seq<Band>)
    requires Gapped(bands)
    ensures |MergeSorted(bands)| == |bands|
    ensures forall i :: 0 <= i < |bands| ==> MergeSorted(bands)[i] == Plain(bands[i])
  {
    if bands != [] {
      var init, b := SplitLast(bands);
      hide MergeSorted;
      GappedStays(init);
      if init != [] { assert bands[|init| - 1].hi < bands[|init|].lo; }
    }
  }

  lemma {:induction false} SortedStays(bands: seq<Band>)
    requires SortedBands(bands)
    ensures Sort(bands) == bands
  {
    if bands != [] {
      var init := bands[..|bands| - 1];
      SortedStays(init);
      if init != [] { assert Before(bands[|init| - 1], bands[|init|]); }
      assert bands == init + [bands[|init|]];
    }
  }

  // Merging a merged table changes nothing, not even an id.
  lemma MergeIsIdempotent(bands: seq<Band>)
    requires Proper(bands)
    ensures Output(Merge(Output(Merge(bands)))) == Output(Merge(bands))
  {
    MergeIsExact(bands);
    var out := Output(Merge(bands));
    assert Gapped(out);
    SortedStays(out);
    GappedStays(out);
  }

  // --- Which id a row keeps ------------------------------------------------

  ghost predicate Within(b: Band, r: Row) { r.lo <= b.lo && b.hi <= r.hi }

  // The row that band k of an ordered list goes into.
  function RowOf(bands: seq<Band>, k: nat): int
    requires k < |bands|
  {
    |MergeSorted(bands[..k + 1])| - 1
  }

  lemma RowOfPrefix(init: seq<Band>, b: Band, k: nat)
    requires k < |init|
    ensures RowOf(init + [b], k) == RowOf(init, k)
  {
    assert (init + [b])[..k + 1] == init[..k + 1];
  }

  lemma RowOfLast(bands: seq<Band>)
    requires bands != []
    ensures RowOf(bands, |bands| - 1) == |MergeSorted(bands)| - 1
  {
    assert bands[..|bands|] == bands;
  }

  // Earlier rows only grow; the new band is inside the last one.
  lemma MergeOneGrows(rows: seq<Row>, b: Band, i: nat)
    requires i < |rows|
    ensures var r := MergeOne(rows, b);
      |rows| <= |r| && r[i].id == rows[i].id && r[i].lo == rows[i].lo && rows[i].hi <= r[i].hi
  {}

  lemma MergeOneHolds(rows: seq<Row>, b: Band)
    requires b.lo <= b.hi && (rows != [] ==> rows[|rows| - 1].lo <= b.lo)
    ensures Within(b, MergeOne(rows, b)[|MergeOne(rows, b)| - 1])
  {}

  lemma SplitLast(bands: seq<Band>) returns (init: seq<Band>, b: Band)
    requires bands != []
    ensures bands == init + [b] && init == bands[..|bands| - 1] && MergeSorted(bands) == MergeOne(MergeSorted(init), b)
    ensures Proper(bands) && SortedBands(bands) ==>
      Proper(init) && SortedBands(init) && b.lo <= b.hi
      && (MergeSorted(init) != [] ==> MergeSorted(init)[|MergeSorted(init)| - 1].lo <= b.lo)
  {
    init, b := bands[..|bands| - 1], bands[|bands| - 1];
    if Proper(bands) && SortedBands(bands) && init != [] { LastStartsNoLater(init, b); }
  }

  lemma {:induction false} BandLiesInItsRow(bands: seq<Band>, k: nat)
    requires Proper(bands) && SortedBands(bands) && k < |bands|
    ensures 0 <= RowOf(bands, k) < |MergeSorted(bands)| && Within(bands[k], MergeSorted(bands)[RowOf(bands, k)])
    decreases |bands|
  {
    hide MergeSorted;
    hide MergeOne;
    hide RowOf;
    var init, b := SplitLast(bands);
    if k < |init| {
      BandLiesInItsRow(init, k);
      RowOfPrefix(init, b, k);
      MergeOneGrows(MergeSorted(init), b, RowOf(init, k));
      assert bands[k] == init[k];
    } else {
      RowOfLast(bands);
      MergeOneHolds(MergeSorted(init), b);
    }
  }

  ghost predicate HasOther(bands: seq<Band>, i: int, id: nat) {
    exists k :: 0 <= k < |bands| && RowOf(bands, k) == i && bands[k].id != id
  }

  lemma HasOtherSnoc(init: seq<Band>, b: Band, i: int, id: nat)
    ensures HasOther(init + [b], i, id) <==> HasOther(init, i, id) || (RowOf(init + [b], |init|) == i && b.id != id)
  {
    var bands := init + [b];
    forall k | 0 <= k < |init| ensures RowOf(bands, k) == RowOf(init, k) && bands[k] == init[k] {
      RowOfPrefix(init, b, k);
    }
    assert bands[|init|] == b;
  }

  lemma NoRowYet(bands: seq<Band>, i: int, id: nat)
    requires i >= |MergeSorted(bands)|
    ensures !HasOther(bands, i, id)
  {
    forall k | 0 <= k < |bands| ensures RowOf(bands, k) < i { RowsOnlyGrow(bands, k); }
  }

  // A row is flagged exactly when a band of another id went into it.
  lemma {:induction false} FlagIsExact(bands: seq<Band>, i: nat)
    requires i < |MergeSorted(bands)|
    ensures MergeSorted(bands)[i].joined <==> HasOther(bands, i, MergeSorted(bands)[i].id)
    decreases |bands|
  {
    var init, b := SplitLast(bands);
    var id := MergeSorted(bands)[i].id;
    HasOtherSnoc(init, b, i, id);
    RowOfLast(bands);
    if i < |MergeSorted(init)| { FlagIsExact(init, i); } else { NoRowYet(init, i, id); }
  }

  predicate Flagged(id: nat) { (id / JOINED) % 2 == 1 }

  // The returned id: its flag bit is set exactly when ids differ in the row or
  // the kept id had the bit already; the bits below it are the kept id's.
  lemma OutputFlagIsExact(bands: seq<Band>, i: nat)
    requires i < |MergeSorted(bands)|
    ensures var kept, out := MergeSorted(bands)[i].id, Output(MergeSorted(bands))[i].id;
      && (Flagged(out) <==> HasOther(bands, i, kept) || Flagged(kept))
      && out % JOINED == kept % JOINED
      && (kept < JOINED ==> (out != kept <==> HasOther(bands, i, kept)))
  {
    FlagIsExact(bands, i);
    FlagFacts(MergeSorted(bands)[i].id);
    hide MergeSorted;
    hide HasOther;
    hide Flag;
    hide Flagged;
  }

  lemma FlagFacts(id: nat)
    ensures Flagged(Flag(id)) && Flag(id) % JOINED == id % JOINED
    ensures id < JOINED ==> Flag(id) != id && !Flagged(id)
  {
    if !Flagged(id) {
      ModUnique(id + JOINED, id / JOINED + 1, id % JOINED, JOINED);
    }
  }

  lemma {:induction false} RowsOnlyGrow(bands: seq<Band>, k: nat)
    requires k < |bands|
    ensures RowOf(bands, k) < |MergeSorted(bands)|
  {
    if k == |bands| - 1 {
      RowOfLast(bands);
    } else {
      var init := bands[..|bands| - 1];
      assert bands == init + [bands[|bands| - 1]];
      RowsOnlyGrow(init, k);
      RowOfPrefix(init, bands[|bands| - 1], k);
    }
  }

  // Band k is the first, in address order, that went into row i, and the row
  // has its id and its start.
  ghost predicate Opens(bands: seq<Band>, k: int, i: int) {
    && 0 <= k < |bands| && 0 <= i < |MergeSorted(bands)|
    && RowOf(bands, k) == i && (k == 0 || RowOf(bands, k - 1) == i - 1)
    && bands[k].id == MergeSorted(bands)[i].id && bands[k].lo == MergeSorted(bands)[i].lo
  }

  lemma OpensMore(init: seq<Band>, b: Band, k: int, i: int)
    requires Opens(init, k, i)
    ensures Opens(init + [b], k, i)
  {
    RowOfPrefix(init, b, k);
    if k > 0 { RowOfPrefix(init, b, k - 1); }
    assert (init + [b])[..|init|] == init;
    MergeOneGrows(MergeSorted(init), b, i);
  }

  lemma OpensNew(init: seq<Band>, b: Band)
    requires |MergeSorted(init + [b])| > |MergeSorted(init)|
    ensures Opens(init + [b], |init|, |MergeSorted(init)|)
  {
    assert (init + [b])[..|init|] == init;
    RowOfLast(init + [b]);
    if init != [] {
      RowOfLast(init);
      RowOfPrefix(init, b, |init| - 1);
    }
  }

  lemma MergeAddsOne(init: seq<Band>, b: Band)
    ensures |MergeSorted(init)| <= |MergeSorted(init + [b])| <= |MergeSorted(init)| + 1
  {
    assert (init + [b])[..|init|] == init;
  }

  // A row keeps the id and the start of the first band, in address order,
  // that went into it.
  lemma {:induction false} RowKeepsFirstId(bands: seq<Band>, i: nat) returns (k: nat)
    requires i < |MergeSorted(bands)|
    ensures Opens(bands, k, i)
  {
    var init, b := bands[..|bands| - 1], bands[|bands| - 1];
    assert bands == init + [b];
    MergeAddsOne(init, b);
    if i < |MergeSorted(init)| {
      k := RowKeepsFirstId(init, i);
      OpensMore(init, b, k, i);
    } else {
      k := |init|;
      OpensNew(init, b);
    }
  }

  ghost predicate IsLowest(bands: seq<Band>, i: int, id: nat) {
    forall j :: 0 <= j < |bands| && RowOf(bands, j) == i ==> id <= bands[j].id
  }

  // The docstring's rule holds for a row exactly if its first band by address
  // has the lowest id of the bands that lie in it.
  lemma KeepsLowestIdIff(bands: seq<Band>, i: nat) returns (k: nat)
    requires Proper(bands) && SortedBands(bands) && i < |MergeSorted(bands)|
    ensures Opens(bands, k, i) && Within(bands[k], MergeSorted(bands)[i])
    ensures forall j :: 0 <= j < |bands| && RowOf(bands, j) == i ==> Within(bands[j], MergeSorted(bands)[i])
    ensures IsLowest(bands, i, MergeSorted(bands)[i].id) <==> IsLowest(bands, i, bands[k].id)
  {
    k := RowKeepsFirstId(bands, i);
    forall j | 0 <= j < |bands| && RowOf(bands, j) == i ensures Within(bands[j], MergeSorted(bands)[i]) {
      BandLiesInItsRow(bands, j);
    }
  }

  // The id that survives need not be the lowest.
  lemma LowestIdIsNotKept()
    ensures Merge([Band(5, 0, 10), Band(3, 5, 15)]) == [Row(5, 0, 15, true)]
  {
    var x, y := Band(5, 0, 10), Band(3, 5, 15);
    SortedStays([x, y]);
    assert [x, y][..1] == [x] && [x][..0] == [];
    assert MergeSorted([x]) == MergeOne(MergeSorted([]), x) == [Plain(x)];
    assert MergeSorted([x, y]) == MergeOne([Plain(x)], y);
    assert [Plain(x)][..0] == [];
  }

  // --- The sums the generator reports --------------------------------------

  function Covered(rows: seq<Row>): int {
    if rows == [] then 0 else Covered(rows[..|rows| - 1]) + (rows[|rows| - 1].hi - rows[|rows| - 1].lo)
  }

  function Gaps(rows: seq<Row>): int {
    if |rows| <= 1 then 0 else Gaps(rows[..|rows| - 1]) + (rows[|rows| - 1].lo - rows[|rows| - 2].hi)
  }

  lemma {:induction false} CoveredAndGapsFillSpan(rows: seq<Row>)
    requires rows != []
    ensures Covered(rows) + Gaps(rows) == rows[|rows| - 1].hi - rows[0].lo
  {
    if |rows| == 1 { assert rows[..0] == []; } else { CoveredAndGapsFillSpan(rows[..|rows| - 1]); }
  }

  predicate InWindow(lo: int, hi: int, a: int) { lo <= a < hi }

  ghost function Window(lo: int, hi: int): set<int> { set a: int | lo <= a < hi && InWindow(lo, hi, a) }

  ghost function Addresses(rows: seq<Row>, limit: nat): set<int> { set a: int | 0 <= a < limit && InRows(rows, a) }

  lemma {:induction false} WindowSize(lo: int, hi: int)
    requires lo <= hi
    ensures |Window(lo, hi)| == hi - lo
    decreases hi - lo
  {
    if lo < hi {
      WindowSize(lo, hi - 1);
      assert forall a: int :: InWindow(lo, hi, a) <==> InWindow(lo, hi - 1, a) || a == hi - 1;
      assert Window(lo, hi) == Window(lo, hi - 1) + {hi - 1};
    } else {
      assert Window(lo, hi) == {};
    }
  }

  lemma AddressesSnoc(init: seq<Row>, last: Row, limit: nat)
    requires StrictGaps(init + [last]) && last.hi <= limit
    ensures Addresses(init + [last], limit) == Addresses(init, limit) + Window(last.lo, last.hi)
    ensures Addresses(init, limit) !! Window(last.lo, last.hi)
  {
    forall a: int ensures InRows(init + [last], a) <==> InRows(init, a) || InWindow(last.lo, last.hi, a) {
      InRowsSnoc(init, last, a);
    }
    forall a | a in Addresses(init, limit) ensures a !in Window(last.lo, last.hi) {
      var i :| 0 <= i < |init| && init[i].lo <= a < init[i].hi;
      assert (init + [last])[i].hi < (init + [last])[|init|].lo;
    }
  }

  // The reported byte count is the number of reserved addresses.
  lemma {:induction false} CoveredCountsAddresses(rows: seq<Row>, limit: nat)
    requires StrictGaps(rows) && forall i :: 0 <= i < |rows| ==> rows[i].hi <= limit
    ensures |Addresses(rows, limit)| == Covered(rows)
  {
    if rows == [] {
      assert Addresses(rows, limit) == {};
    } else {
      var init, last := rows[..|rows| - 1], rows[|rows| - 1];
      assert rows == init + [last];
      CoveredCountsAddresses(init, limit);
      AddressesSnoc(init, last, limit);
      WindowSize(last.lo, last.hi);
    }
  }

  lemma OutputCovers(rows: seq<Row>, a: int)
    ensures InBands(Output(rows), a) <==> InRows(rows, a)
  {
    var out := Output(rows);
    if InRows(rows, a) {
      var k :| 0 <= k < |rows| && rows[k].lo <= a < rows[k].hi;
      assert out[k].lo <= a < out[k].hi;
    }
  }
}

module MergeBands {
  import opened BandSpec

  lemma MergeNone()
    ensures MergeSorted([]) == []
  {}

  lemma MergeStep(bands: seq<Band>, i: nat)
    requires i < |bands|
    ensures MergeSorted(bands[..i + 1]) == MergeOne(MergeSorted(bands[..i]), bands[i])
  {
    assert bands[..i + 1][..i] == bands[..i];
  }

  method Merged(bands: seq<Band>) returns (out: seq<Band>)
    requires Proper(bands)
    ensures out == Output(Merge(bands))
    ensures Gapped(out) && forall a: int :: InBands(out, a) <==> InBands(bands, a)
  {
    hide MergeSorted;
    var ordered := Sort(bands);
    var merged: seq<Row> := [];
    MergeNone();
    var i := 0;
    while i < |ordered|
      invariant 0 <= i <= |ordered| && merged == MergeSorted(ordered[..i])
    {
      var b := ordered[i];
      MergeStep(ordered, i);
      var n := |merged| - 1;
      if merged != [] && b.lo <= merged[n].hi {
        var last := merged[n];
        if b.hi > last.hi { last := last.(hi := b.hi); }
        if last.id != b.id { last := last.(joined := true); }
        merged := merged[n := last];
      } else {
        merged := merged + [Row(b.id, b.lo, b.hi, false)];
      }
      i := i + 1;
    }
    assert ordered[..i] == ordered;
    out := Output(merged);
    MergeIsExact(bands);
    forall a: int ensures InBands(out, a) <==> InRows(merged, a) { OutputCovers(merged, a); }
  }

  // The sums of main. Gaps between neighbours only count when positive.
  method Report(rows: seq<Row>) returns (covered: int, gaps: int)
    requires StrictGaps(rows)
    ensures covered == Covered(rows) && gaps == Gaps(rows)
    ensures rows != [] ==> covered + gaps == rows[|rows| - 1].hi - rows[0].lo
  {
    covered, gaps := 0, 0;
    var i := 0;
    while i < |rows|
      invariant 0 <= i <= |rows| && covered == Covered(rows[..i]) && gaps == Gaps(rows[..i])
    {
      assert rows[..i + 1][..i] == rows[..i];
      covered := covered + (rows[i].hi - rows[i].lo);
      if i > 0 && rows[i].lo > rows[i - 1].hi { gaps := gaps + (rows[i].lo - rows[i - 1].hi); }
      i := i + 1;
    }
    assert rows[..i] == rows;
    if rows != [] { CoveredAndGapsFillSpan(rows); }
  }
}
