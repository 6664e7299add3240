// The particle table: a bounded-probe hash table keyed by guest address whose
// entries drive an in-place interpolation of the particle's draw fields and
// the restore of them.

module ParticleSpec {
  import opened Wrappers
  import opened ModArith
  import opened Words

  const TABLE_SIZE := 8192
  const PROBE := 8

  type Addr = U32
  type U8 = x: int | 0 <= x < 256

  datatype Vec3 = Vec3(x: real, y: real, z: real)
  datatype Colour = Colour(r: U8, g: U8, b: U8, a: U8)

  // The draw fields an R-frame overwrites, and the object that holds them.
  datatype Vis = Vis(
    loc: Vec3, pos: Vec3, vel: Vec3, axis: Vec3, sclX: real, sclY: real, aout: real,
    angle: U16, prm: Colour, env: Colour)
  datatype Particle = Particle(vis: Vis, frame: real, life: real)

  const ZERO_VEC := Vec3(0.0, 0.0, 0.0)
  const ZERO_COLOUR := Colour(0, 0, 0, 0)
  const ZERO_VIS := Vis(ZERO_VEC, ZERO_VEC, ZERO_VEC, ZERO_VEC, 0.0, 0.0, 0.0, 0, ZERO_COLOUR, ZERO_COLOUR)

  // addr == 0 is an empty slot; l is what the last L-frame drew, r what was
  // live when the first R-frame after it came.
  datatype Entry = Entry(addr: Addr, frame: real, lifetime: real, injected: bool, l: Vis, r: Vis)
  const EMPTY_ENTRY := Entry(0, 0.0, 0.0, false, ZERO_VIS, ZERO_VIS)

  function Hash(addr: Addr): (h: nat)
    ensures h < TABLE_SIZE
  {
    (((addr / 16) * 2654435761) % 0x1_0000_0000) / 0x80000
  }

  function SlotAt(addr: Addr, p: nat): (i: nat)
    ensures i < TABLE_SIZE
  {
    (Hash(addr) + p) % TABLE_SIZE
  }

  // The first slot of the probe chain that is empty or holds the address.
  function LookupFrom(t: seq<Entry>, addr: Addr, p: nat): (r: Option<nat>)
    requires |t| == TABLE_SIZE && p <= PROBE
    ensures r.Some? ==> r.value < TABLE_SIZE && (t[r.value].addr == 0 || t[r.value].addr == addr)
    decreases PROBE - p
  {
    if p == PROBE then None
    else if t[SlotAt(addr, p)].addr == 0 || t[SlotAt(addr, p)].addr == addr then Some(SlotAt(addr, p))
    else LookupFrom(t, addr, p + 1)
  }

  function Lookup(t: seq<Entry>, addr: Addr): Option<nat>
    requires |t| == TABLE_SIZE
  {
    LookupFrom(t, addr, 0)
  }

  // Every stored address is where a lookup of it ends.
  ghost predicate Placed(t: seq<Entry>) {
    && |t| == TABLE_SIZE
    && forall i :: 0 <= i < |t| && t[i].addr != 0 ==> Lookup(t, t[i].addr) == Some(i)
  }

  lemma AtMostOneSlot(t: seq<Entry>, i: nat, j: nat)
    requires Placed(t) && i < |t| && j < |t| && t[i].addr == t[j].addr != 0
    ensures i == j
  {
    assert Lookup(t, t[i].addr) == Some(i) && Lookup(t, t[j].addr) == Some(j);
  }

  // Storing a in the slot its lookup ended in moves no other lookup.
  lemma {:induction false} StoreKeepsLookup(t: seq<Entry>, i: nat, e: Entry, b: Addr, j: nat, p: nat)
    requires |t| == TABLE_SIZE && i < |t| && j < |t| && p <= PROBE && b != 0
    requires e.addr != 0 && (t[i].addr == 0 || t[i].addr == e.addr)
    requires LookupFrom(t, b, p) == Some(j) && t[j].addr == b && i != j && e.addr != b
    ensures LookupFrom(t[i := e], b, p) == Some(j)
    decreases PROBE - p
  {
    if SlotAt(b, p) != j { StoreKeepsLookup(t, i, e, b, j, p + 1); }
  }

  lemma {:induction false} StoreFinds(t: seq<Entry>, i: nat, e: Entry, p: nat)
    requires |t| == TABLE_SIZE && p <= PROBE && e.addr != 0
    requires LookupFrom(t, e.addr, p) == Some(i)
    ensures i < |t| && LookupFrom(t[i := e], e.addr, p) == Some(i)
    decreases PROBE - p
  {
    if SlotAt(e.addr, p) != i { StoreFinds(t, i, e, p + 1); }
  }

  lemma StoreKeepsPlaced(t: seq<Entry>, i: nat, e: Entry)
    requires Placed(t) && e.addr != 0 && Lookup(t, e.addr) == Some(i)
    ensures Placed(t[i := e]) && Lookup(t[i := e], e.addr) == Some(i)
  {
    var t' := t[i := e];
    StoreFinds(t, i, e, 0);
    forall j | 0 <= j < |t'| && t'[j].addr != 0 ensures Lookup(t', t'[j].addr) == Some(j) {
      if j != i {
        assert Lookup(t, t[j].addr) == Some(j);
        StoreKeepsLookup(t, i, e, t[j].addr, j, 0);
      }
    }
  }

  // Changing a slot without changing its address moves nothing.
  lemma {:induction false} SameAddrSameLookup(t: seq<Entry>, u: seq<Entry>, b: Addr, p: nat)
    requires |t| == |u| == TABLE_SIZE && p <= PROBE
    requires forall i :: 0 <= i < |t| ==> t[i].addr == u[i].addr
    ensures LookupFrom(t, b, p) == LookupFrom(u, b, p)
    decreases PROBE - p
  {
    if p < PROBE { SameAddrSameLookup(t, u, b, p + 1); }
  }

  lemma SameAddrPlaced(t: seq<Entry>, u: seq<Entry>)
    requires Placed(t) && |u| == |t| && forall i :: 0 <= i < |t| ==> t[i].addr == u[i].addr
    ensures Placed(u)
  {
    forall i | 0 <= i < |u| && u[i].addr != 0 ensures Lookup(u, u[i].addr) == Some(i) {
      SameAddrSameLookup(t, u, u[i].addr, 0);
    }
  }

  // A full chain stays full while no slot is emptied.
  lemma {:induction false} FullChainStaysFull(t: seq<Entry>, u: seq<Entry>, b: Addr, p: nat)
    requires |t| == |u| == TABLE_SIZE && p <= PROBE
    requires forall i :: 0 <= i < |t| && t[i].addr != 0 ==> u[i].addr == t[i].addr
    requires LookupFrom(t, b, p) == None
    ensures LookupFrom(u, b, p) == None
    decreases PROBE - p
  {
    if p < PROBE { FullChainStaysFull(t, u, b, p + 1); }
  }

  // After an L walk an address is either tracked with the pose that was drawn
  // or its probe chain is full of others.
  ghost predicate Observed(t: seq<Entry>, a: Addr, now: Particle, full: bool)
    requires |t| == TABLE_SIZE
  {
    match Lookup(t, a)
    case None => true
    case Some(i) =>
      && t[i].addr == a && t[i].frame == now.frame && t[i].l.pos == now.vis.pos
      && (full ==> t[i].l == now.vis && t[i].lifetime == now.life)
  }

  // --- Interpolation of the draw fields -----------------------------------

  function LerpVec(a: Vec3, b: Vec3, alpha: real): Vec3 {
    Vec3(Blend(a.x, b.x, alpha), Blend(a.y, b.y, alpha), Blend(a.z, b.z, alpha))
  }

  // (int)(d * alpha + (d >= 0 ? 0.5 : -0.5))
  function ScaleRound(d: int, alpha: real): int {
    Trunc(d as real * alpha + (if d >= 0 then 0.5 else -0.5))
  }

  lemma ScaleRoundBetween(d: int, alpha: real)
    requires 0.0 <= alpha <= 1.0
    ensures if d >= 0 then 0 <= ScaleRound(d, alpha) <= d else d <= ScaleRound(d, alpha) <= 0
  {
    var s := FractionOf(d as real, alpha);
    RoundedWithin(s, d);
  }

  lemma RoundedWithin(x: real, d: int)
    requires if d >= 0 then 0.0 <= x <= d as real else d as real <= x <= 0.0
    ensures var k := Trunc(x + (if d >= 0 then 0.5 else -0.5));
            if d >= 0 then 0 <= k <= d else d <= k <= 0
  {}

  function LerpChannel(a: U8, b: U8, alpha: real): U8 {
    var c := a + ScaleRound(b - a, alpha);
    if c < 0 then 0 else if c > 255 then 255 else c
  }

  function LerpColour(a: Colour, b: Colour, alpha: real): Colour {
    Colour(LerpChannel(a.r, b.r, alpha), LerpChannel(a.g, b.g, alpha),
           LerpChannel(a.b, b.b, alpha), LerpChannel(a.a, b.a, alpha))
  }

  // The signed 16-bit difference: 0x10000 is one full turn.
  function Turn(a: U16, b: U16): int {
    var d := (b - a) % 0x1_0000;
    if d >= 0x8000 then d - 0x1_0000 else d
  }

  function LerpAngle(a: U16, b: U16, alpha: real): U16 { (a + ScaleRound(Turn(a, b), alpha)) % 0x1_0000 }

  lemma TurnArrives(a: U16, b: U16)
    ensures b == (a + Turn(a, b)) % 0x1_0000
  {
    var q := (b - a) / 0x1_0000;
    assert b - a == q * 0x1_0000 + (b - a) % 0x1_0000;
    if Turn(a, b) >= 0 {
      ModUnique(a + Turn(a, b), -q, b, 0x1_0000);
    } else {
      ModUnique(a + Turn(a, b), -q - 1, b, 0x1_0000);
    }
  }

  // The angle moves along the shorter arc from a to b, and never past b.
  lemma AngleTakesShorterArc(a: U16, b: U16, alpha: real) returns (k: int)
    requires 0.0 <= alpha <= 1.0
    ensures LerpAngle(a, b, alpha) == (a + k) % 0x1_0000 && b == (a + Turn(a, b)) % 0x1_0000
    ensures if Turn(a, b) >= 0 then 0 <= k <= Turn(a, b) else Turn(a, b) <= k <= 0
    ensures -0x8000 <= Turn(a, b) < 0x8000
  {
    TurnArrives(a, b);
    k := ScaleRound(Turn(a, b), alpha);
    ScaleRoundBetween(Turn(a, b), alpha);
  }

  lemma ChannelStaysBetween(a: U8, b: U8, alpha: real)
    requires 0.0 <= alpha <= 1.0
    ensures if a <= b then a <= LerpChannel(a, b, alpha) <= b else b <= LerpChannel(a, b, alpha) <= a
  {
    ScaleRoundBetween(b - a, alpha);
  }

  function LerpVis(a: Vis, b: Vis, alpha: real): Vis {
    Vis(LerpVec(a.loc, b.loc, alpha), LerpVec(a.pos, b.pos, alpha),
        LerpVec(a.vel, b.vel, alpha), LerpVec(a.axis, b.axis, alpha),
        Blend(a.sclX, b.sclX, alpha), Blend(a.sclY, b.sclY, alpha), Blend(a.aout, b.aout, alpha),
        LerpAngle(a.angle, b.angle, alpha), LerpColour(a.prm, b.prm, alpha), LerpColour(a.env, b.env, alpha))
  }

  // The fields that are written: all of them, or the position alone.
  function Install(p: Particle, v: Vis, full: bool): Particle {
    if full then p.(vis := v) else p.(vis := p.vis.(pos := v.pos))
  }

  // Is this the particle the L-frame saw, one tick later?
  predicate Continues(e: Entry, now: Particle, full: bool) {
    now.frame == e.frame + 1.0 && (full ==> now.life == e.lifetime)
  }

  type Guest = map<Addr, Particle>

  ghost predicate Rebuilds(e: Entry, guest: Guest, authentic: Guest, full: bool)
    requires guest.Keys == authentic.Keys
  {
    e.addr in guest && e.addr != 0 && Install(guest[e.addr], e.r, full) == authentic[e.addr]
  }

  ghost predicate Injected(t: seq<Entry>, a: Addr) { exists i :: 0 <= i < |t| && t[i].injected && t[i].addr == a }

  // Every object either holds what it held before the first injection, or is
  // injected and its entry can rebuild that.
  ghost predicate Outstanding(t: seq<Entry>, guest: Guest, authentic: Guest, full: bool) {
    && guest.Keys == authentic.Keys
    && (forall i :: 0 <= i < |t| && t[i].injected ==> Rebuilds(t[i], guest, authentic, full))
    && (forall a :: a in guest && guest[a] != authentic[a] ==> Injected(t, a))
  }
}

module ParticleSteps {
  import opened Wrappers
  import opened ParticleSpec

  // The entry an R-frame writes from: the stored pair, or a fresh one whose
  // second endpoint is what is live now.
  function Advance(e: Entry, now: Particle, full: bool): Entry {
    if e.injected then e
    else e.(frame := now.frame, injected := true, r := if full then now.vis else e.r.(pos := now.vis.pos))
  }

  lemma AdvancedRebuilds(e: Entry, guest: Guest, authentic: Guest, full: bool, v: Vis)
    requires guest.Keys == authentic.Keys && e.addr in guest && e.addr != 0
    requires if e.injected then Rebuilds(e, guest, authentic, full) else guest[e.addr] == authentic[e.addr]
    ensures var g := guest[e.addr := Install(guest[e.addr], v, full)];
      g.Keys == authentic.Keys && Rebuilds(Advance(e, guest[e.addr], full), g, authentic, full)
    ensures Install(guest[e.addr], v, full) == Install(authentic[e.addr], v, full)
  {}

  // Writing a lerp over an object whose entry can rebuild it.
  lemma InjectKeepsOutstanding(t: seq<Entry>, guest: Guest, authentic: Guest, full: bool, i: nat, v: Vis)
    requires Placed(t) && Outstanding(t, guest, authentic, full) && i < |t| && t[i].addr in guest && t[i].addr != 0
    ensures var e := Advance(t[i], guest[t[i].addr], full);
      var g := guest[t[i].addr := Install(guest[t[i].addr], v, full)];
      Placed(t[i := e]) && Outstanding(t[i := e], g, authentic, full)
    ensures t[i].injected || guest[t[i].addr] == authentic[t[i].addr]
    ensures Install(guest[t[i].addr], v, full) == Install(authentic[t[i].addr], v, full)
  {
    var a := t[i].addr;
    if Injected(t, a) {
      var j :| 0 <= j < |t| && t[j].injected && t[j].addr == a;
      AtMostOneSlot(t, i, j);
    }
    AdvancedRebuilds(t[i], guest, authentic, full, v);
    var e := Advance(t[i], guest[a], full);
    var u := t[i := e];
    SameAddrPlaced(t, u);
    var g := guest[a := Install(guest[a], v, full)];
    forall j | 0 <= j < |u| && u[j].injected ensures Rebuilds(u[j], g, authentic, full) {
      if j != i {
        assert Rebuilds(t[j], guest, authentic, full);
        if t[j].addr == a { AtMostOneSlot(t, i, j); }
      }
    }
    forall b | b in g && g[b] != authentic[b] ensures Injected(u, b) {
      if b == a {
        assert u[i].injected;
      } else {
        var j :| 0 <= j < |t| && t[j].injected && t[j].addr == b;
        assert u[j] == t[j];
      }
    }
  }

  // Writing an entry's saved endpoint back.
  lemma RestoreKeepsOutstanding(t: seq<Entry>, guest: Guest, authentic: Guest, full: bool, i: nat)
    requires Placed(t) && Outstanding(t, guest, authentic, full) && i < |t| && t[i].injected
    ensures t[i].addr in guest
    ensures var g := guest[t[i].addr := Install(guest[t[i].addr], t[i].r, full)];
      Placed(t[i := t[i].(injected := false)]) && Outstanding(t[i := t[i].(injected := false)], g, authentic, full)
  {
    assert Rebuilds(t[i], guest, authentic, full);
    var a := t[i].addr;
    var u := t[i := t[i].(injected := false)];
    SameAddrPlaced(t, u);
    var g := guest[a := Install(guest[a], t[i].r, full)];
    forall j | 0 <= j < |u| && u[j].injected ensures Rebuilds(u[j], g, authentic, full) {
      assert Rebuilds(t[j], guest, authentic, full);
      if t[j].addr == a { AtMostOneSlot(t, i, j); }
    }
    forall b | b in g && g[b] != authentic[b] ensures Injected(u, b) {
      var j :| 0 <= j < |t| && t[j].injected && t[j].addr == b;
      assert u[j] == t[j];
    }
  }

  // --- What one R-frame makes of guest memory ----------------------------------

  predicate Has(t: seq<Entry>, a: Addr)
    requires |t| == TABLE_SIZE
  {
    Lookup(t, a).Some? && t[Lookup(t, a).value].addr == a
  }

  function EntryOf(t: seq<Entry>, a: Addr): (e: Entry)
    requires |t| == TABLE_SIZE && Has(t, a)
    ensures e.addr == a
  {
    t[Lookup(t, a).value]
  }

  // The objects an R-frame writes: tracked, and the ones the L-frame saw.
  predicate Moves(t: seq<Entry>, authentic: Guest, a: Addr, full: bool)
    requires |t| == TABLE_SIZE && a in authentic
  {
    Has(t, a) && (EntryOf(t, a).injected || Continues(EntryOf(t, a), authentic[a], full))
  }

  // What is written: between the entry's endpoints, over the produced object.
  function Target(t: seq<Entry>, authentic: Guest, a: Addr, alpha: real, full: bool): Particle
    requires |t| == TABLE_SIZE && a in authentic && Has(t, a)
  {
    var e := Advance(EntryOf(t, a), authentic[a], full);
    Install(authentic[a], LerpVis(e.l, e.r, alpha), full)
  }

  // One visit: the entry is advanced, and the object holds its target.
  function Marked(t: seq<Entry>, authentic: Guest, a: Addr, full: bool): (u: seq<Entry>)
    requires |t| == TABLE_SIZE && a in authentic
    ensures |u| == TABLE_SIZE
  {
    if Moves(t, authentic, a, full) then
      t[Lookup(t, a).value := Advance(EntryOf(t, a), authentic[a], full)]
    else t
  }

  function Written(t: seq<Entry>, authentic: Guest, guest: Guest, a: Addr, alpha: real, full: bool): Guest
    requires |t| == TABLE_SIZE && a in authentic
  {
    if Moves(t, authentic, a, full) then guest[a := Target(t, authentic, a, alpha, full)] else guest
  }

  // Guest memory after an R-frame: every visited object that moves holds its
  // target, every other one what it held.
  ghost function After(t: seq<Entry>, authentic: Guest, before: Guest, visited: seq<Addr>, alpha: real, full: bool)
    : (g: Guest)
    requires |t| == TABLE_SIZE && before.Keys == authentic.Keys
    ensures g.Keys == authentic.Keys
  {
    map a | a in authentic ::
      if 0.0 < alpha < 1.0 && a in visited && Moves(t, authentic, a, full) then Target(t, authentic, a, alpha, full)
      else before[a]
  }

  // u is t with some moving entries advanced.
  ghost predicate Follows(t: seq<Entry>, u: seq<Entry>, authentic: Guest, full: bool) {
    && |t| == |u| == TABLE_SIZE
    && forall i :: 0 <= i < |t| ==>
         || u[i] == t[i]
         || (t[i].addr in authentic && Moves(t, authentic, t[i].addr, full)
             && u[i] == Advance(t[i], authentic[t[i].addr], full))
  }

  lemma FollowsItself(t: seq<Entry>, authentic: Guest, full: bool)
    requires |t| == TABLE_SIZE
    ensures Follows(t, t, authentic, full)
  {}

  // Advancing changes neither what moves nor where to.
  lemma FollowsAgrees(t: seq<Entry>, u: seq<Entry>, authentic: Guest, full: bool, a: Addr)
    requires Follows(t, u, authentic, full) && a in authentic
    ensures Lookup(u, a) == Lookup(t, a)
    ensures Moves(u, authentic, a, full) <==> Moves(t, authentic, a, full)
    ensures Has(t, a) && Has(u, a) ==>
      forall alpha :: Target(u, authentic, a, alpha, full) == Target(t, authentic, a, alpha, full)
  {
    SameAddrSameLookup(t, u, a, 0);
  }

  lemma FollowsOne(t: seq<Entry>, u: seq<Entry>, authentic: Guest, full: bool, a: Addr)
    requires Follows(t, u, authentic, full) && a in authentic && Moves(u, authentic, a, full)
    ensures var i := Lookup(u, a).value;
      Follows(t, u[i := Advance(u[i], authentic[a], full)], authentic, full)
  {
    FollowsAgrees(t, u, authentic, full, a);
  }

  // The entries of other objects are left alone.
  ghost predicate OnlyVisited(t: seq<Entry>, u: seq<Entry>, visited: seq<Addr>) {
    |t| == |u| && forall i :: 0 <= i < |u| && u[i].addr !in visited ==> u[i] == t[i]
  }

  // What a visit writes, told from the entries the walk began with.
  lemma VisitAgrees(t: seq<Entry>, u: seq<Entry>, authentic: Guest, before: Guest, full: bool, visited: seq<Addr>,
                    a: Addr, alpha: real)
    requires Follows(t, u, authentic, full) && before.Keys == authentic.Keys && a in authentic && 0.0 < alpha < 1.0
    requires OnlyVisited(t, u, visited)
    ensures After(t, authentic, before, visited + [a], alpha, full)
         == Written(u, authentic, After(t, authentic, before, visited, alpha, full), a, alpha, full)
    ensures Follows(t, Marked(u, authentic, a, full), authentic, full)
    ensures OnlyVisited(t, Marked(u, authentic, a, full), visited + [a])
  {
    FollowsAgrees(t, u, authentic, full, a);
    HasWhatMoves(t, authentic, a, full);
    HasWhatMoves(u, authentic, a, full);
    AfterOne(t, authentic, before, visited, a, alpha, full);
    MarkedFollows(t, u, authentic, full, a);
    MarkedVisits(t, u, authentic, full, visited, a);
    hide *;
    WrittenIs(u, authentic, After(t, authentic, before, visited, alpha, full), a, alpha, full);
  }

  lemma WrittenIs(u: seq<Entry>, authentic: Guest, g: Guest, a: Addr, alpha: real, full: bool)
    requires |u| == TABLE_SIZE && a in authentic && (Moves(u, authentic, a, full) ==> Has(u, a))
    ensures Written(u, authentic, g, a, alpha, full) ==
      if Moves(u, authentic, a, full) then g[a := Target(u, authentic, a, alpha, full)] else g
  {
    hide Moves;
    hide Target;
  }

  lemma MarkedFollows(t: seq<Entry>, u: seq<Entry>, authentic: Guest, full: bool, a: Addr)
    requires Follows(t, u, authentic, full) && a in authentic
    ensures Follows(t, Marked(u, authentic, a, full), authentic, full)
  {
    if Moves(u, authentic, a, full) { FollowsOne(t, u, authentic, full, a); }
    hide Moves;
    hide Follows;
  }

  lemma MarkedVisits(t: seq<Entry>, u: seq<Entry>, authentic: Guest, full: bool, visited: seq<Addr>, a: Addr)
    requires |u| == TABLE_SIZE && a in authentic && OnlyVisited(t, u, visited)
    ensures OnlyVisited(t, Marked(u, authentic, a, full), visited + [a])
  {
    hide LookupFrom;
  }

  lemma FollowsOn(t: seq<Entry>, u: seq<Entry>, v: seq<Entry>, authentic: Guest, full: bool)
    requires Follows(t, u, authentic, full) && Follows(u, v, authentic, full)
    ensures Follows(t, v, authentic, full)
  {
    forall i | 0 <= i < |t| && v[i] != t[i]
      ensures t[i].addr in authentic && Moves(t, authentic, t[i].addr, full)
      ensures v[i] == Advance(t[i], authentic[t[i].addr], full)
    {
      if u[i] != t[i] { assert u[i].injected; }
      if u[i] == t[i] { FollowsAgrees(t, u, authentic, full, t[i].addr); }
    }
  }

  lemma AfterNone(t: seq<Entry>, authentic: Guest, before: Guest, alpha: real, full: bool)
    requires |t| == TABLE_SIZE && before.Keys == authentic.Keys
    ensures After(t, authentic, before, [], alpha, full) == before
    ensures !(0.0 < alpha < 1.0) ==> forall v :: After(t, authentic, before, v, alpha, full) == before
  {}

  // One more visit of the same walk.
  lemma AfterOne(t: seq<Entry>, authentic: Guest, before: Guest, visited: seq<Addr>, a: Addr, alpha: real, full: bool)
    requires |t| == TABLE_SIZE && before.Keys == authentic.Keys && a in authentic && 0.0 < alpha < 1.0
    ensures var g := After(t, authentic, before, visited, alpha, full);
      After(t, authentic, before, visited + [a], alpha, full) ==
        if Moves(t, authentic, a, full) then g[a := Target(t, authentic, a, alpha, full)] else g
  {
    hide Moves;
    hide Target;
  }

  lemma AfterAgrees(t: seq<Entry>, u: seq<Entry>, authentic: Guest, before: Guest, visited: seq<Addr>, alpha: real,
                    full: bool)
    requires Follows(t, u, authentic, full) && before.Keys == authentic.Keys
    ensures After(u, authentic, before, visited, alpha, full) == After(t, authentic, before, visited, alpha, full)
  {
    forall a | a in authentic
      ensures After(u, authentic, before, visited, alpha, full)[a]
           == After(t, authentic, before, visited, alpha, full)[a]
    {
      FollowsAgrees(t, u, authentic, full, a);
      HasWhatMoves(t, authentic, a, full);
      HasWhatMoves(u, authentic, a, full);
      hide Moves;
      hide Target;
      hide Has;
    }
    assert After(u, authentic, before, visited, alpha, full).Keys == authentic.Keys;
  }

  lemma HasWhatMoves(t: seq<Entry>, authentic: Guest, a: Addr, full: bool)
    requires |t| == TABLE_SIZE && a in authentic
    ensures Moves(t, authentic, a, full) ==> Has(t, a)
  {}

  // --- A run of R-frames ---------------------------------------------------------

  // The memory each R-frame draws from, one after the other.
  ghost predicate FramesShown(t: seq<Entry>, authentic: Guest, walks: seq<seq<Addr>>, alphas: seq<real>, full: bool,
                              shown: seq<Guest>)
    requires |t| == TABLE_SIZE && |walks| == |alphas|
  {
    && |shown| <= |walks|
    && forall k :: 0 <= k < |shown| ==> FrameShown(t, authentic, walks, alphas, full, shown, k)
  }

  ghost predicate FrameShown(t: seq<Entry>, authentic: Guest, walks: seq<seq<Addr>>, alphas: seq<real>, full: bool,
                             shown: seq<Guest>, k: nat)
    requires |t| == TABLE_SIZE && |walks| == |alphas| && k < |shown| <= |walks|
  {
    var before := if k == 0 then authentic else shown[k - 1];
    before.Keys == authentic.Keys && shown[k] == After(t, authentic, before, walks[k], alphas[k], full)
  }

  lemma OneMoreFrame(t: seq<Entry>, authentic: Guest, walks: seq<seq<Addr>>, alphas: seq<real>, full: bool,
                     shown: seq<Guest>, g: Guest)
    requires |t| == TABLE_SIZE && |walks| == |alphas| && |shown| < |walks|
    requires FramesShown(t, authentic, walks, alphas, full, shown)
    requires var before := if shown == [] then authentic else shown[|shown| - 1];
      before.Keys == authentic.Keys && g == After(t, authentic, before, walks[|shown|], alphas[|shown|], full)
    ensures FramesShown(t, authentic, walks, alphas, full, shown + [g])
  {
    hide After;
    var all := shown + [g];
    forall k | 0 <= k < |all| ensures FrameShown(t, authentic, walks, alphas, full, all, k) {
      if k < |shown| { assert FrameShown(t, authentic, walks, alphas, full, shown, k); }
    }
  }

  // An object that does not move holds what production wrote in every frame.
  lemma {:induction false} UnmovedIsNeverWritten(t: seq<Entry>, authentic: Guest, walks: seq<seq<Addr>>,
                                                 alphas: seq<real>, full: bool, shown: seq<Guest>, k: nat, a: Addr)
    requires |t| == TABLE_SIZE && |walks| == |alphas| && FramesShown(t, authentic, walks, alphas, full, shown)
    requires k < |shown| && a in authentic && !Moves(t, authentic, a, full)
    ensures shown[k].Keys == authentic.Keys && shown[k][a] == authentic[a]
  {
    hide Moves;
    hide Target;
    assert FrameShown(t, authentic, walks, alphas, full, shown, k);
    if k > 0 { UnmovedIsNeverWritten(t, authentic, walks, alphas, full, shown, k - 1, a); }
  }

  // --- The table an L-frame leaves ---------------------------------------------

  function Drawn(e: Entry, a: Addr, now: Particle, full: bool): Entry {
    var l := if full then now.vis else e.l.(pos := now.vis.pos);
    Entry(a, now.frame, if full then now.life else e.lifetime, false, l, l)
  }

  function Draw(t: seq<Entry>, a: Addr, now: Particle, full: bool): (u: seq<Entry>)
    requires |t| == TABLE_SIZE
    ensures |u| == TABLE_SIZE
  {
    match Lookup(t, a)
    case None => t
    case Some(i) => t[i := Drawn(t[i], a, now, full)]
  }

  function EmptyTable(): (t: seq<Entry>)
    ensures |t| == TABLE_SIZE
  {
    seq(TABLE_SIZE, _ => EMPTY_ENTRY)
  }

  // The table after an L walk over these objects.
  function TableOf(visited: seq<Addr>, guest: Guest, full: bool): (t: seq<Entry>)
    requires forall a :: a in visited ==> a in guest
    ensures |t| == TABLE_SIZE
  {
    if visited == [] then EmptyTable()
    else
      var n := |visited| - 1;
      Draw(TableOf(visited[..n], guest, full), visited[n], guest[visited[n]], full)
  }

  lemma DrawKeeps(t: seq<Entry>, a: Addr, now: Particle, full: bool)
    requires Placed(t) && a != 0
    ensures var u := Draw(t, a, now, full);
      && Placed(u) && Observed(u, a, now, full)
      && (forall i :: 0 <= i < |t| && u[i] != t[i] ==> u[i].addr == a)
      && (forall i :: 0 <= i < |t| && t[i].addr != 0 ==> u[i].addr == t[i].addr)
      && ((forall i :: 0 <= i < |t| ==> !t[i].injected) ==> forall i :: 0 <= i < |u| ==> !u[i].injected)
  {
    hide LookupFrom;
    if Lookup(t, a).Some? {
      var i := Lookup(t, a).value;
      StoreKeepsPlaced(t, i, Drawn(t[i], a, now, full));
    }
  }

  // The table holds visited objects only, each as it was drawn.
  lemma {:induction false} TableIsDrawn(visited: seq<Addr>, guest: Guest, full: bool)
    requires 0 !in guest && forall a :: a in visited ==> a in guest
    ensures var t := TableOf(visited, guest, full);
      && Placed(t) && AllObserved(t, visited, |visited|, guest, full)
      && forall i :: 0 <= i < |t| ==> !t[i].injected && (t[i].addr == 0 || t[i].addr in visited)
  {
    hide Observed;
    hide Draw;
    hide Placed;
    if visited == [] {
      EmptyIsPlaced();
    } else {
      var n := |visited| - 1;
      var a, t := visited[n], TableOf(visited[..n], guest, full);
      TableIsDrawn(visited[..n], guest, full);
      DrawKeeps(t, a, guest[a], full);
      assert AllObserved(t, visited, n, guest, full) by {
        assert forall j :: 0 <= j < n ==> visited[..n][j] == visited[j];
      }
      AllStayObserved(t, Draw(t, a, guest[a], full), visited, n, guest, full);
      assert forall b :: b in visited[..n] ==> b in visited;
    }
  }

  lemma EmptyIsPlaced()
    ensures Placed(EmptyTable())
  {}

  // --- A run of ticks -------------------------------------------------------------

  // The objects the L walk visits, what production then makes of guest
  // memory, and the R walks that follow.
  datatype Tick = Tick(visited: seq<Addr>, memory: Guest, walks: seq<seq<Addr>>, alphas: seq<real>) {
    ghost predicate Valid(drawn: Guest) {
      && 0 !in drawn && 0 !in memory && |walks| == |alphas|
      && (forall a :: a in visited ==> a in drawn)
      && (forall w, a :: w in walks && a in w ==> a in memory)
    }
  }

  // The memory tick i starts from.
  function Before(start: Guest, ticks: seq<Tick>, i: nat): Guest
    requires i <= |ticks|
  {
    if i == 0 then start else ticks[i - 1].memory
  }

  ghost predicate TickShown(tick: Tick, drawn: Guest, full: bool, shown: seq<Guest>)
    requires tick.Valid(drawn)
  {
    && |shown| == |tick.walks|
    && FramesShown(TableOf(tick.visited, drawn, full), tick.memory, tick.walks, tick.alphas, full, shown)
  }

  // One tick older, and in full mode of the same lifetime.
  predicate OneTickLater(drawn: Particle, now: Particle, full: bool) {
    now.frame == drawn.frame + 1.0 && (full ==> now.life == drawn.life)
  }

  // What the L walk tracked: visited objects, save those whose probe chain was
  // full of others.
  ghost predicate Tracked(tick: Tick, drawn: Guest, full: bool, a: Addr)
    requires tick.Valid(drawn)
  {
    Has(TableOf(tick.visited, drawn, full), a)
  }

  lemma TrackedIff(tick: Tick, drawn: Guest, full: bool, a: Addr)
    requires tick.Valid(drawn) && a != 0
    ensures Tracked(tick, drawn, full, a) <==>
      a in tick.visited && Lookup(TableOf(tick.visited, drawn, full), a).Some?
  {
    hide TableOf;
    TableIsDrawn(tick.visited, drawn, full);
    if a in tick.visited {
      var j :| 0 <= j < |tick.visited| && tick.visited[j] == a;
      assert Observed(TableOf(tick.visited, drawn, full), tick.visited[j], drawn[a], full);
    }
  }

  // A tracked object moves exactly if it is the one that was drawn, one tick
  // later, and then from the pose drawn to the one produced.
  lemma TrackedMoves(tick: Tick, drawn: Guest, full: bool, a: Addr, alpha: real)
    requires tick.Valid(drawn) && a in tick.memory
    ensures var t := TableOf(tick.visited, drawn, full);
      && (Tracked(tick, drawn, full, a) ==> a in drawn)
      && (Moves(t, tick.memory, a, full) <==>
            Tracked(tick, drawn, full, a) && OneTickLater(drawn[a], tick.memory[a], full))
      && (Tracked(tick, drawn, full, a) ==>
            Target(t, tick.memory, a, alpha, full)
            == Install(tick.memory[a], LerpVis(drawn[a].vis, tick.memory[a].vis, alpha), full))
  {
    hide TableOf;
    TableIsDrawn(tick.visited, drawn, full);
    TrackedIff(tick, drawn, full, a);
    if a in tick.visited {
      var j :| 0 <= j < |tick.visited| && tick.visited[j] == a;
      assert Observed(TableOf(tick.visited, drawn, full), tick.visited[j], drawn[a], full);
    }
  }

  // What a tick shows. A visited object that was tracked and is one tick older
  // is between the drawn and the produced state; an object that is not tracked
  // or fails the key holds what production wrote in every frame.
  lemma TickShowsMotion(tick: Tick, drawn: Guest, full: bool, shown: seq<Guest>, k: nat, a: Addr)
    requires tick.Valid(drawn) && TickShown(tick, drawn, full, shown) && k < |shown| && a in tick.memory
    ensures shown[k].Keys == tick.memory.Keys && (Tracked(tick, drawn, full, a) ==> a in drawn)
    ensures
      if !(Tracked(tick, drawn, full, a) && OneTickLater(drawn[a], tick.memory[a], full)) then
        shown[k][a] == tick.memory[a]
      else a in tick.walks[k] && 0.0 < tick.alphas[k] < 1.0 ==>
        shown[k][a] == Install(tick.memory[a], LerpVis(drawn[a].vis, tick.memory[a].vis, tick.alphas[k]), full)
  {
    var t := TableOf(tick.visited, drawn, full);
    hide TableOf;
    hide Moves;
    hide Target;
    hide Tracked;
    TrackedMoves(tick, drawn, full, a, tick.alphas[k]);
    assert FrameShown(t, tick.memory, tick.walks, tick.alphas, full, shown, k);
    if !Moves(t, tick.memory, a, full) {
      UnmovedIsNeverWritten(t, tick.memory, tick.walks, tick.alphas, full, shown, k, a);
    }
  }

  // Observing c leaves what is known about b.
  lemma StaysObserved(t: seq<Entry>, u: seq<Entry>, c: Addr, b: Addr, now: Particle, full: bool)
    requires Placed(t) && Placed(u) && b != 0 && Observed(t, b, now, full)
    requires c == b ==> Observed(u, b, now, full)
    requires forall i :: 0 <= i < |t| && u[i] != t[i] ==> u[i].addr == c
    requires forall i :: 0 <= i < |t| && t[i].addr != 0 ==> u[i].addr == t[i].addr
    ensures Observed(u, b, now, full)
  {
    match Lookup(t, b)
    case None => FullChainStaysFull(t, u, b, 0);
    case Some(i) => assert u[i].addr == b;
  }

  ghost predicate AllObserved(t: seq<Entry>, visited: seq<Addr>, k: nat, guest: Guest, full: bool) {
    && |t| == TABLE_SIZE && k <= |visited|
    && forall j :: 0 <= j < k ==> visited[j] in guest && Observed(t, visited[j], guest[visited[j]], full)
  }

  lemma AllStayObserved(t: seq<Entry>, u: seq<Entry>, visited: seq<Addr>, k: nat, guest: Guest, full: bool)
    requires Placed(t) && Placed(u) && 0 !in guest && k < |visited| && visited[k] in guest
    requires AllObserved(t, visited, k, guest, full) && Observed(u, visited[k], guest[visited[k]], full)
    requires forall i :: 0 <= i < |t| && u[i] != t[i] ==> u[i].addr == visited[k]
    requires forall i :: 0 <= i < |t| && t[i].addr != 0 ==> u[i].addr == t[i].addr
    ensures AllObserved(u, visited, k + 1, guest, full)
  {
    forall j | 0 <= j < k ensures Observed(u, visited[j], guest[visited[j]], full) {
      StaysObserved(t, u, visited[k], visited[j], guest[visited[j]], full);
    }
  }
}

module ParticleTable {
  import opened Wrappers
  import opened ParticleSteps
  import opened ParticleSpec

  class Table {
    const slots: array<Entry>
    const full: bool
    var guest: Guest
    ghost var authentic: Guest

    ghost predicate Valid()
      reads this, slots
    {
      Placed(slots[..]) && 0 !in guest && Outstanding(slots[..], guest, authentic, full)
    }

    ghost predicate Settled()
      reads this, slots
    {
      guest == authentic && forall i :: 0 <= i < slots.Length ==> !slots[i].injected
    }

    constructor (memory: Guest, fullState: bool)
      requires 0 !in memory
      ensures Valid() && Settled() && guest == memory && fresh(slots)
    {
      slots := new Entry[TABLE_SIZE](_ => EMPTY_ENTRY);
      full, guest, authentic := fullState, memory, memory;
    }

    method Find(a: Addr) returns (slot: Option<nat>)
      requires slots.Length == TABLE_SIZE
      ensures slot == Lookup(slots[..], a)
    {
      ghost var t := slots[..];
      var p := 0;
      while p < PROBE
        invariant 0 <= p <= PROBE && Lookup(t, a) == LookupFrom(t, a, p)
      {
        var i := SlotAt(a, p);
        if slots[i].addr == 0 || slots[i].addr == a { return Some(i); }
        p := p + 1;
      }
      return None;
    }

    // L-frame: what is drawn now is the first endpoint.
    method VisitL(a: Addr)
      requires Valid() && Settled() && a in guest
      modifies slots
      ensures Valid() && Settled() && slots[..] == Draw(old(slots[..]), a, guest[a], full)
      ensures Observed(slots[..], a, guest[a], full)
    {
      DrawKeeps(slots[..], a, guest[a], full);
      var slot := Find(a);
      if slot.None? { return; }
      var e, p := slots[slot.value], guest[a];
      var l := if full then p.vis else e.l.(pos := p.vis.pos);
      ghost var before := slots[..];
      slots[slot.value] := Entry(a, p.frame, if full then p.life else e.lifetime, false, l, l);
      assert slots[..] == Draw(before, a, guest[a], full);
    }

    // R-frame: interpolate a particle the last L-frame saw, once per frame.
    // Anything else at that address is not written, and no other entry is.
    method VisitR(a: Addr, alpha: real)
      requires Valid() && a in guest
      modifies this`guest, slots
      ensures Valid() && guest.Keys == old(guest.Keys)
      ensures guest == Written(old(slots[..]), authentic, old(guest), a, alpha, full)
      ensures slots[..] == Marked(old(slots[..]), authentic, a, full)
    {
      var slot := Find(a);
      if slot.None? { return; }
      var i := slot.value;
      var e := slots[i];
      if e.addr != a { return; }
      ghost var t := slots[..];
      e := Advance(e, guest[a], full);
      InjectKeepsOutstanding(t, guest, authentic, full, i, LerpVis(e.l, e.r, alpha));
      if !slots[i].injected && !Continues(slots[i], guest[a], full) { return; }
      guest := guest[a := Install(guest[a], LerpVis(e.l, e.r, alpha), full)];
      slots[i] := e;
      assert slots[..] == t[i := e];
    }

    // jpa_restore: write every saved endpoint back.
    method Restore()
      requires Valid()
      modifies this`guest, slots
      ensures Valid() && Settled()
      ensures forall i :: 0 <= i < slots.Length ==> slots[i].addr == old(slots[i].addr)
    {
      var i := 0;
      while i < slots.Length
        invariant 0 <= i <= slots.Length && Valid()
        invariant forall k :: 0 <= k < i ==> !slots[k].injected
        invariant forall k :: 0 <= k < slots.Length ==> slots[k].addr == old(slots[k].addr)
      {
        RestoreSlot(i);
        i := i + 1;
      }
    }

    method RestoreSlot(i: nat)
      requires Valid() && i < slots.Length
      modifies this`guest, slots
      ensures Valid()
      ensures slots[..] == old(slots[..])[i := old(slots[i]).(injected := false)]
    {
      if !slots[i].injected { return; }
      var e := slots[i];
      ghost var t := slots[..];
      RestoreKeepsOutstanding(t, guest, authentic, full, i);
      slots[i] := e.(injected := false);
      guest := guest[e.addr := Install(guest[e.addr], e.r, full)];
      assert slots[..] == t[i := e.(injected := false)];
    }

    // One R-frame: every visited object that moves holds its target, and every
    // other object what it held.
    method WalkR(visited: seq<Addr>, alpha: real)
      requires Valid() && forall a :: a in visited ==> a in guest
      modifies this`guest, slots
      ensures Valid() && guest == After(old(slots[..]), authentic, old(guest), visited, alpha, full)
      ensures Follows(old(slots[..]), slots[..], authentic, full)
      ensures OnlyVisited(old(slots[..]), slots[..], visited)
    {
      ghost var t, before := slots[..], guest;
      Shape();
      AfterNone(t, authentic, before, alpha, full);
      FollowsItself(t, authentic, full);
      assert OnlyVisited(t, t, []) && OnlyVisited(t, t, visited);
      assert visited[..0] == [];
      hide *;
      if alpha <= 0.0 || alpha >= 1.0 { return; }
      var k := 0;
      while k < |visited|
        invariant 0 <= k <= |visited| && Valid() && Follows(t, slots[..], authentic, full)
        invariant guest == After(t, authentic, before, visited[..k], alpha, full)
        invariant before.Keys == authentic.Keys && guest.Keys == authentic.Keys
        invariant OnlyVisited(t, slots[..], visited[..k])
      {
        WalkStep(t, before, visited, k, alpha);
        k := k + 1;
      }
      assert visited[..k] == visited;
    }

    method WalkStep(ghost t: seq<Entry>, ghost before: Guest, visited: seq<Addr>, k: nat, alpha: real)
      requires Valid() && k < |visited| && visited[k] in guest && 0.0 < alpha < 1.0
      requires before.Keys == authentic.Keys && Follows(t, slots[..], authentic, full)
      requires guest == After(t, authentic, before, visited[..k], alpha, full)
      requires OnlyVisited(t, slots[..], visited[..k])
      modifies this`guest, slots
      ensures Valid() && Follows(t, slots[..], authentic, full)
      ensures guest == After(t, authentic, before, visited[..k + 1], alpha, full)
      ensures guest.Keys == authentic.Keys && OnlyVisited(t, slots[..], visited[..k + 1])
    {
      hide *;
      var a := visited[k];
      ghost var u := slots[..];
      Shape();
      assert visited[..k + 1] == visited[..k] + [a];
      VisitAgrees(t, u, authentic, before, full, visited[..k], a, alpha);
      VisitR(a, alpha);
    }

    lemma Shape()
      requires Valid()
      ensures slots.Length == TABLE_SIZE && guest.Keys == authentic.Keys && 0 !in guest
    {}

    // Restore what is outstanding and empty the table.
    method Forget()
      requires Valid()
      modifies this`guest, slots
      ensures Valid() && Settled() && slots[..] == EmptyTable()
    {
      Restore();
      forall i | 0 <= i < slots.Length { slots[i] := EMPTY_ENTRY; }
    }

    method WalkL(visited: seq<Addr>)
      requires Valid() && Settled() && slots[..] == EmptyTable() && forall a :: a in visited ==> a in guest
      modifies slots
      ensures Valid() && Settled() && slots[..] == TableOf(visited, guest, full)
    {
      hide Draw;
      hide Placed;
      hide Outstanding;
      var k := 0;
      while k < |visited|
        invariant 0 <= k <= |visited| && Valid() && Settled() && slots[..] == TableOf(visited[..k], guest, full)
      {
        VisitL(visited[k]);
        assert visited[..k + 1][..k] == visited[..k];
        k := k + 1;
      }
      assert visited[..k] == visited;
    }

    // jpa_lframe: restore, forget, and observe the particles drawn now.
    method LFrame(visited: seq<Addr>)
      requires Valid() && forall a :: a in visited ==> a in guest
      modifies this`guest, slots
      ensures Valid() && Settled() && guest == authentic == old(authentic)
      ensures slots[..] == TableOf(visited, guest, full) && AllObserved(slots[..], visited, |visited|, guest, full)
    {
      hide Placed;
      hide TableOf;
      ghost var keys := guest.Keys;
      Forget();
      assert guest.Keys == keys;
      WalkL(visited);
      TableIsDrawn(visited, guest, full);
    }

    // Production: the game moves its particles, between a settled frame and
    // the R-frames that follow.
    method Produce(memory: Guest)
      requires Valid() && Settled() && 0 !in memory
      modifies this
      ensures Valid() && Settled() && guest == memory && slots[..] == old(slots[..])
    {
      guest, authentic := memory, memory;
    }

    // Any number of R-frames, any visiting order, any alphas, and the memory
    // each of them draws from.
    method RFrames(walks: seq<seq<Addr>>, alphas: seq<real>) returns (shown: seq<Guest>)
      requires Valid() && Settled() && |walks| == |alphas|
      requires forall w, a :: w in walks && a in w ==> a in guest
      modifies this`guest, slots
      ensures Valid() && guest.Keys == authentic.Keys && |shown| == |walks|
      ensures FramesShown(old(slots[..]), authentic, walks, alphas, full, shown)
      ensures Follows(old(slots[..]), slots[..], authentic, full)
    {
      hide Placed;
      hide Outstanding;
      hide After;
      hide Follows;
      Shape();
      ghost var t := slots[..];
      shown := [];
      assert FramesShown(t, authentic, walks, alphas, full, shown);
      hide FramesShown;
      FollowsItself(t, authentic, full);
      while |shown| < |walks|
        invariant |shown| <= |walks| && Valid() && guest == (if shown == [] then authentic else shown[|shown| - 1])
        invariant guest.Keys == authentic.Keys && Follows(t, slots[..], authentic, full)
        invariant FramesShown(t, authentic, walks, alphas, full, shown)
      {
        ghost var u, before := slots[..], guest;
        var k := |shown|;
        assert walks[k] in walks;
        WalkR(walks[k], alphas[k]);
        AfterAgrees(t, u, authentic, before, walks[k], alphas[k], full);
        FollowsOn(t, u, slots[..], authentic, full);
        OneMoreFrame(t, authentic, walks, alphas, full, shown, guest);
        shown := shown + [guest];
      }
    }

    // Then the restore: guest memory is what it was before the first of them.
    method RFramesThenRestore(walks: seq<seq<Addr>>, alphas: seq<real>) returns (shown: seq<Guest>)
      requires Valid() && Settled() && |walks| == |alphas|
      requires forall w, a :: w in walks && a in w ==> a in guest
      modifies this`guest, slots
      ensures Valid() && Settled() && guest == old(guest) && |shown| == |walks|
      ensures FramesShown(old(slots[..]), old(guest), walks, alphas, full, shown)
    {
      shown := RFrames(walks, alphas);
      Restore();
    }

    // One tick: the L-frame draws, production moves the particles, and the
    // R-frames show them on their way.
    method OneTick(tick: Tick) returns (shown: seq<Guest>)
      requires Valid() && tick.Valid(authentic)
      modifies this, slots
      ensures Valid() && authentic == tick.memory && TickShown(tick, old(authentic), full, shown)
    {
      hide Placed;
      hide Outstanding;
      hide FramesShown;
      hide AllObserved;
      hide TableOf;
      Shape();
      LFrame(tick.visited);
      Produce(tick.memory);
      shown := RFrames(tick.walks, tick.alphas);
    }

    // The main result for a run: in every R-frame of every tick each particle
    // is between what the L-frame drew and what production wrote, or untouched.
    method FollowTicks(ticks: seq<Tick>) returns (shown: seq<seq<Guest>>)
      requires Valid() && forall i :: 0 <= i < |ticks| ==> ticks[i].Valid(Before(authentic, ticks, i))
      modifies this, slots
      ensures Valid() && authentic == Before(old(authentic), ticks, |ticks|) && |shown| == |ticks|
      ensures forall i :: 0 <= i < |ticks| ==> TickShown(ticks[i], Before(old(authentic), ticks, i), full, shown[i])
    {
      hide TickShown;
      hide Valid;
      hide Tick.Valid;
      ghost var start := authentic;
      shown := [];
      var i := 0;
      while i < |ticks|
        invariant 0 <= i <= |ticks| && |shown| == i && Valid() && authentic == Before(start, ticks, i)
        invariant forall j :: 0 <= j < i ==> TickShown(ticks[j], Before(start, ticks, j), full, shown[j])
      {
        var frames := OneTick(ticks[i]);
        shown := shown + [frames];
        i := i + 1;
      }
    }
  }
}
