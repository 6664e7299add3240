// The display-list tracker: parse an emitted GX command stream into the
// payload slots that can be animated, write interpolated payloads over them
// in place for one frame, and put the emitted bytes back.

module GxParse {
  import opened Bytes

  const NOP: Byte := 0x00
  const CP: Byte := 0x08
  const XF: Byte := 0x10
  const BP: Byte := 0x61
  const MAX_SLOTS := 16
  const DL_CAP := 0x8000

  datatype Kind = TexMtx | XfCol2 | Tev4 | KCol2

  // off is the first byte of the span: the payload of an XF load, the first
  // opcode byte of a run of BP commands.
  datatype Slot = Slot(off: nat, cmd: nat, nbytes: nat, kind: Kind)

  predicate IsXf(s: Slot) { s.kind == TexMtx || s.kind == XfCol2 }

  predicate IsTexMtxCmd(cmd: nat, nwords: nat) {
    (nwords == 8 || nwords == 12) && 0x78 <= cmd <= 0xCC && (cmd - 0x78) % 12 == 0
  }

  predicate IsTevReg(reg: Byte) { reg == 0xE0 || reg == 0xE2 || reg == 0xE4 || reg == 0xE6 }

  // What the parser does with the command at o.
  datatype Command = Stop | Skip(len: nat) | Emit(slot: Slot, len: nat)

  predicate BpAt(b: seq<Byte>, i: nat, reg: int)
    requires i + 2 <= |b|
  {
    b[i] == BP && b[i + 1] == reg
  }

  function CommandAt(b: seq<Byte>, esize: nat, o: nat): (c: Command)
    requires o < esize <= |b|
    ensures !c.Stop? ==> c.len > 0 && o + c.len <= esize
    ensures c.Emit? ==> Start(c.slot) == o && c.slot.off + c.slot.nbytes == o + c.len && c.slot.nbytes >= 8
  {
    if b[o] == NOP then Skip(1)
    else if b[o] == CP then (if o + 6 > esize then Stop else Skip(6))
    else if b[o] == XF then
      if o + 5 > esize then Stop
      else
        var nwords, cmd := U16(b, o + 1) + 1, U16(b, o + 3);
        var span := 5 + 4 * nwords;
        if o + span > esize then Stop
        else if IsTexMtxCmd(cmd, nwords) then Emit(Slot(o + 5, cmd, 4 * nwords, TexMtx), span)
        else if (cmd == 0x100C || cmd == 0x100A) && nwords == 2 then Emit(Slot(o + 5, cmd, 8, XfCol2), span)
        else Skip(span)
    else if b[o] == BP then
      if o + 5 > esize then Stop
      else
        var reg := b[o + 1];
        if !IsTevReg(reg) then Skip(5)
        else if b[o + 2] >= 128 then
          if o + 10 <= esize && BpAt(b, o + 5, reg + 1) then Emit(Slot(o, reg, 10, KCol2), 10) else Skip(5)
        else if o + 20 <= esize && BpAt(b, o + 5, reg + 1) && BpAt(b, o + 10, reg + 1) && BpAt(b, o + 15, reg + 1) then
          Emit(Slot(o, reg, 20, Tev4), 20)
        else Skip(5)
    else Stop
  }

  // ta_parse: the slots of the commands from o on, n of them already found.
  function Parse(b: seq<Byte>, esize: nat, o: nat, n: nat): seq<Slot>
    requires o <= esize <= |b|
    decreases esize - o
  {
    if o == esize || n >= MAX_SLOTS then []
    else
      match CommandAt(b, esize, o)
      case Stop => []
      case Skip(len) => Parse(b, esize, o + len, n)
      case Emit(s, len) => [s] + Parse(b, esize, o + len, n + 1)
  }

  lemma ParseStep(b: seq<Byte>, esize: nat, o: nat, n: nat)
    requires o < esize <= |b| && n < MAX_SLOTS
    ensures Parse(b, esize, o, n) ==
      match CommandAt(b, esize, o)
      case Stop => []
      case Skip(len) => Parse(b, esize, o + len, n)
      case Emit(s, len) => [s] + Parse(b, esize, o + len, n + 1)
  {
    hide CommandAt;
  }

  // The parser clamps the emitted size to the buffer's capacity.
  function ParseLimit(size: nat, esize: nat, capacity: nat): (limit: nat)
    ensures limit <= size && limit <= DL_CAP
  {
    var a := if esize > capacity then capacity else esize;
    var c := if a > DL_CAP then DL_CAP else a;
    if c > size then 0 else c
  }

  // Where the slot's commands begin.
  function Start(s: Slot): int { if IsXf(s) then s.off - 5 else s.off }

  ghost predicate InBounds(s: Slot, esize: nat) {
    && 0 <= Start(s) && s.off + s.nbytes <= esize
    && match s.kind
       case TexMtx => s.nbytes == 32 || s.nbytes == 48
       case XfCol2 => s.nbytes == 8
       case Tev4 => s.nbytes == 20
       case KCol2 => s.nbytes == 10
  }

  // Payload bytes: for BP commands neither the opcode nor the register byte.
  predicate PayloadAt(s: Slot, i: int) {
    s.off <= i < s.off + s.nbytes && (IsXf(s) || (i - s.off) % 5 >= 2)
  }

  // ta_slot_sig_ok
  predicate SigOk(b: seq<Byte>, s: Slot)
    requires 0 <= Start(s) && s.off + s.nbytes <= |b| && s.nbytes >= 8 && (s.kind == Tev4 ==> s.nbytes >= 20)
  {
    match s.kind
    case TexMtx => b[s.off - 5] == XF && U16(b, s.off - 4) + 1 == s.nbytes / 4 && U16(b, s.off - 2) == s.cmd
    case XfCol2 => b[s.off - 5] == XF && U16(b, s.off - 4) + 1 == s.nbytes / 4 && U16(b, s.off - 2) == s.cmd
    case KCol2 => BpAt(b, s.off, s.cmd) && BpAt(b, s.off + 5, s.cmd + 1)
    case Tev4 =>
      && BpAt(b, s.off, s.cmd) && BpAt(b, s.off + 5, s.cmd + 1)
      && BpAt(b, s.off + 10, s.cmd + 1) && BpAt(b, s.off + 15, s.cmd + 1)
  }

  lemma ParseMore(b: seq<Byte>, esize: nat, o: nat, n: nat, k: nat)
    requires o <= esize <= |b| && k < |Parse(b, esize, o, n)|
    ensures o < esize && n < MAX_SLOTS
    ensures match CommandAt(b, esize, o)
            case Stop => false
            case Skip(len) => Parse(b, esize, o, n) == Parse(b, esize, o + len, n)
            case Emit(s, len) => Parse(b, esize, o, n) == [s] + Parse(b, esize, o + len, n + 1)
  {
    hide CommandAt;
  }

  // Every slot lies behind o, inside the emission, and has its signature.
  lemma {:induction false} SlotsInBounds(b: seq<Byte>, esize: nat, o: nat, n: nat, k: nat)
    requires o <= esize <= |b| && k < |Parse(b, esize, o, n)|
    ensures var s := Parse(b, esize, o, n)[k];
      InBounds(s, esize) && Start(s) >= o && SigOk(b, s)
      && (!IsXf(s) ==> (b[s.off + 2] >= 128 <==> s.kind == KCol2))
    decreases esize - o
  {
    hide Parse;
    ParseMore(b, esize, o, n, k);
    match CommandAt(b, esize, o)
    case Stop =>
    case Skip(len) => SlotsInBounds(b, esize, o + len, n, k);
    case Emit(s, len) => if k > 0 { SlotsInBounds(b, esize, o + len, n + 1, k - 1); }
  }

  lemma {:induction false} SlotsDisjoint(b: seq<Byte>, esize: nat, o: nat, n: nat, j: nat, k: nat)
    requires o <= esize <= |b| && j < k < |Parse(b, esize, o, n)|
    ensures var p := Parse(b, esize, o, n); p[j].off + p[j].nbytes <= Start(p[k])
    decreases esize - o
  {
    hide CommandAt;
    hide Parse;
    ParseMore(b, esize, o, n, k);
    match CommandAt(b, esize, o)
    case Stop =>
    case Skip(len) => SlotsDisjoint(b, esize, o + len, n, j, k);
    case Emit(s, len) =>
      if j > 0 {
        SlotsDisjoint(b, esize, o + len, n + 1, j - 1, k - 1);
      } else {
        SlotsInBounds(b, esize, o + len, n + 1, k - 1);
      }
  }

  ghost predicate Covered(slots: seq<Slot>, i: int) {
    exists k :: 0 <= k < |slots| && PayloadAt(slots[k], i)
  }

  // The two streams differ in payload bytes of these slots only, and the bit
  // that tells a konst colour from a TEV colour is the same.
  ghost predicate SameShape(b: seq<Byte>, c: seq<Byte>, esize: nat, slots: seq<Slot>) {
    && |b| == |c| && esize <= |b|
    && (forall i :: 0 <= i < esize && b[i] != c[i] ==> Covered(slots, i))
    && SameKinds(b, c, slots)
  }

  ghost predicate SameKinds(b: seq<Byte>, c: seq<Byte>, slots: seq<Slot>)
    requires |b| == |c|
  {
    forall k :: 0 <= k < |slots| && !IsXf(slots[k]) && slots[k].off + 2 < |b| ==>
      (b[slots[k].off + 2] >= 128 <==> c[slots[k].off + 2] >= 128)
  }

  // Bytes of a command without a slot that the parser never looks at.
  predicate Body(b: seq<Byte>, esize: nat, o: nat, i: int)
    requires o < esize <= |b|
  {
    && CommandAt(b, esize, o).Skip? && o + 2 <= i < o + CommandAt(b, esize, o).len
    && (b[o] == XF ==> i >= o + 5) && (b[o] == BP && IsTevReg(b[o + 1]) ==> i >= o + 3)
  }

  // Such a byte in some command of the parse from o on.
  predicate InBody(b: seq<Byte>, esize: nat, o: nat, n: nat, i: int)
    requires o <= esize <= |b|
    decreases esize - o
  {
    o < esize && n < MAX_SLOTS &&
    match CommandAt(b, esize, o)
    case Stop => false
    case Skip(len) => Body(b, esize, o, i) || InBody(b, esize, o + len, n, i)
    case Emit(_, len) => InBody(b, esize, o + len, n + 1, i)
  }

  // From o on the two streams differ in bytes only that no parse reads.
  ghost predicate SamePlaces(b: seq<Byte>, c: seq<Byte>, esize: nat, o: nat, n: nat)
    requires o <= esize <= |b|
  {
    && |b| == |c|
    && forall i :: o <= i < esize && b[i] != c[i] ==> Covered(Parse(b, esize, o, n), i) || InBody(b, esize, o, n, i)
  }

  lemma {:induction false} BodyIsAhead(b: seq<Byte>, esize: nat, o: nat, n: nat, i: int)
    requires o <= esize <= |b| && InBody(b, esize, o, n, i)
    ensures i >= o + 2
    decreases esize - o
  {
    hide CommandAt;
    match CommandAt(b, esize, o)
    case Skip(len) => if !Body(b, esize, o, i) { BodyIsAhead(b, esize, o + len, n, i); }
    case Emit(_, len) => BodyIsAhead(b, esize, o + len, n + 1, i);
  }

  lemma LaterSlotsLeaveHead(b: seq<Byte>, esize: nat, o: nat, n: nat, i: int)
    requires o <= esize <= |b| && i < o
    ensures !Covered(Parse(b, esize, o, n), i) && !InBody(b, esize, o, n, i)
  {
    hide InBody;
    var p := Parse(b, esize, o, n);
    forall k | 0 <= k < |p| ensures !PayloadAt(p[k], i) { SlotsInBounds(b, esize, o, n, k); }
    if InBody(b, esize, o, n, i) { BodyIsAhead(b, esize, o, n, i); }
  }

  // The first two bytes of a command are read by every parse.
  lemma HeadIsNoPayload(b: seq<Byte>, esize: nat, o: nat, n: nat)
    requires o <= esize <= |b|
    ensures forall i :: o <= i < o + 2 ==> !Covered(Parse(b, esize, o, n), i) && !InBody(b, esize, o, n, i)
  {
    hide InBody;
    var p := Parse(b, esize, o, n);
    forall i | o <= i < o + 2 ensures !Covered(p, i) && !InBody(b, esize, o, n, i) {
      forall k | 0 <= k < |p| ensures !PayloadAt(p[k], i) { SlotsInBounds(b, esize, o, n, k); }
      if InBody(b, esize, o, n, i) { BodyIsAhead(b, esize, o, n, i); }
    }
  }

  // The second register of a TEV pair starts no slot of its own.
  lemma OddRegisterIsSkipped(b: seq<Byte>, esize: nat, o: nat, n: nat, reg: Byte)
    requires o + 5 <= esize <= |b| && n < MAX_SLOTS && IsTevReg(reg) && BpAt(b, o, reg + 1)
    ensures CommandAt(b, esize, o) == Skip(5) && Parse(b, esize, o, n) == Parse(b, esize, o + 5, n)
  {}

  // Behind a command the streams still differ in unread bytes only.
  lemma PlacesOfRest(b: seq<Byte>, c: seq<Byte>, esize: nat, o: nat, n: nat)
    requires o < esize <= |b| && n < MAX_SLOTS && SamePlaces(b, c, esize, o, n)
    ensures match CommandAt(b, esize, o)
            case Stop => true
            case Skip(len) => SamePlaces(b, c, esize, o + len, n)
            case Emit(s, len) => SamePlaces(b, c, esize, o + len, n + 1)
  {
    hide CommandAt;
    hide Parse;
    ParseStep(b, esize, o, n);
    match CommandAt(b, esize, o)
    case Stop =>
    case Skip(len) =>
    case Emit(s, len) =>
      var rest := Parse(b, esize, o + len, n + 1);
      forall i | o + len <= i < esize && b[i] != c[i] ensures Covered(rest, i) || InBody(b, esize, o + len, n + 1, i) {
        CoveredCons(s, rest, i);
      }
  }

  // What differs inside a skipped command is its body.
  lemma SkippedBody(b: seq<Byte>, c: seq<Byte>, esize: nat, o: nat, n: nat)
    requires o < esize <= |b| && n < MAX_SLOTS && SamePlaces(b, c, esize, o, n)
    requires CommandAt(b, esize, o).Skip?
    ensures forall i :: o <= i < o + CommandAt(b, esize, o).len && b[i] != c[i] ==> Body(b, esize, o, i)
  {
    hide CommandAt;
    hide Body;
    hide Parse;
    ParseStep(b, esize, o, n);
    var len := CommandAt(b, esize, o).len;
    forall i | o <= i < o + len && b[i] != c[i] ensures Body(b, esize, o, i) {
      LaterSlotsLeaveHead(b, esize, o + len, n, i);
    }
  }

  // A skipped command is skipped in every stream that differs in unread bytes
  // only. A TEV quad that fails is decided by heads of the commands after it.
  lemma SkippedCommand(b: seq<Byte>, c: seq<Byte>, esize: nat, o: nat, n: nat)
    requires o < esize <= |b| && n < MAX_SLOTS && SamePlaces(b, c, esize, o, n)
    requires CommandAt(b, esize, o).Skip?
    ensures CommandAt(c, esize, o) == CommandAt(b, esize, o)
  {
    SkippedBody(b, c, esize, o, n);
    assert b[o] == c[o];
    if b[o] == BP && IsTevReg(b[o + 1]) {
      PlacesOfRest(b, c, esize, o, n);
      SkippedTevCommand(b, c, esize, o, n);
    } else if b[o] == XF {
      assert forall i :: o <= i < o + 5 ==> b[i] == c[i];
    } else if b[o] == BP {
      assert b[o + 1] == c[o + 1];
    }
  }

  lemma SkippedTevCommand(b: seq<Byte>, c: seq<Byte>, esize: nat, o: nat, n: nat)
    requires o + 5 <= esize <= |b| && n < MAX_SLOTS && SamePlaces(b, c, esize, o + 5, n)
    requires CommandAt(b, esize, o) == Skip(5) && b[o] == BP && IsTevReg(b[o + 1])
    requires forall i :: o <= i < o + 3 ==> b[i] == c[i]
    ensures CommandAt(c, esize, o) == Skip(5)
  {
    hide CommandAt;
    hide Parse;
    hide SamePlaces;
    var reg := b[o + 1];
    HeadIsSame(b, c, esize, o + 5, n);
    if o + 20 <= esize && BpAt(b, o + 5, reg + 1) {
      OddRegisterIsSkipped(b, esize, o + 5, n, reg);
      PlacesOfRest(b, c, esize, o + 5, n);
      HeadIsSame(b, c, esize, o + 10, n);
      if BpAt(b, o + 10, reg + 1) {
        OddRegisterIsSkipped(b, esize, o + 10, n, reg);
        PlacesOfRest(b, c, esize, o + 10, n);
        HeadIsSame(b, c, esize, o + 15, n);
      }
    }
    SameHeadsSameSkip(b, c, esize, o);
  }

  lemma HeadIsSame(b: seq<Byte>, c: seq<Byte>, esize: nat, o: nat, n: nat)
    requires o <= esize <= |b| && SamePlaces(b, c, esize, o, n)
    ensures |b| == |c| && (o + 2 <= esize ==> b[o] == c[o] && b[o + 1] == c[o + 1])
  {
    hide Parse;
    hide InBody;
    HeadIsNoPayload(b, esize, o, n);
  }

  // A TEV command that starts no slot starts none in a stream with the same
  // heads; a later head matters only while the earlier ones match.
  lemma SameHeadsSameSkip(b: seq<Byte>, c: seq<Byte>, esize: nat, o: nat)
    requires o + 5 <= esize <= |b| == |c| && CommandAt(b, esize, o) == Skip(5) && b[o] == BP && IsTevReg(b[o + 1])
    requires forall i :: o <= i < o + 3 ==> b[i] == c[i]
    requires o + 7 <= esize ==> b[o + 5] == c[o + 5] && b[o + 6] == c[o + 6]
    requires o + 20 <= esize && BpAt(b, o + 5, b[o + 1] + 1) ==> b[o + 10] == c[o + 10] && b[o + 11] == c[o + 11]
    requires o + 20 <= esize && BpAt(b, o + 5, b[o + 1] + 1) && BpAt(b, o + 10, b[o + 1] + 1) ==>
      b[o + 15] == c[o + 15] && b[o + 16] == c[o + 16]
    ensures CommandAt(c, esize, o) == Skip(5)
  {
    assert b[o] == c[o] && b[o + 1] == c[o + 1] && b[o + 2] == c[o + 2];
  }

  lemma ParseEnd(b: seq<Byte>, esize: nat, o: nat, n: nat)
    requires o <= esize <= |b| && (o == esize || n >= MAX_SLOTS)
    ensures Parse(b, esize, o, n) == []
  {}

  lemma StopCase(b: seq<Byte>, c: seq<Byte>, esize: nat, o: nat, n: nat)
    requires o < esize <= |b| && n < MAX_SLOTS && SamePlaces(b, c, esize, o, n)
    requires CommandAt(b, esize, o) == Stop
    ensures CommandAt(c, esize, o) == Stop
  {
    assert Parse(b, esize, o, n) == [];
    forall i | o <= i < esize ensures b[i] == c[i] { assert !Covered([], i); }
  }

  // A parse depends on command heads and the konst bits of its slots, and on
  // nothing else.
  lemma {:induction false} ParseIgnoresPayload(b: seq<Byte>, c: seq<Byte>, esize: nat, o: nat, n: nat)
    requires o <= esize <= |b| && SamePlaces(b, c, esize, o, n) && SameKinds(b, c, Parse(b, esize, o, n))
    ensures Parse(c, esize, o, n) == Parse(b, esize, o, n)
    decreases esize - o
  {
    hide CommandAt;
    hide Parse;
    assert |b| == |c|;
    hide SamePlaces;
    if o == esize || n >= MAX_SLOTS {
      ParseEnd(b, esize, o, n);
      ParseEnd(c, esize, o, n);
    } else {
      ParseStep(b, esize, o, n);
      ParseStep(c, esize, o, n);
      PlacesOfRest(b, c, esize, o, n);
      match CommandAt(b, esize, o)
      case Stop =>
        StopCase(b, c, esize, o, n);
      case Skip(len) =>
        SkippedCommand(b, c, esize, o, n);
        ParseIgnoresPayload(b, c, esize, o + len, n);
      case Emit(s, len) =>
        EmitCase(b, c, esize, o, n);
        ParseIgnoresPayload(b, c, esize, o + len, n + 1);
        SameCommand(b, c, esize, o);
    }
  }

  lemma CoveredCons(s: Slot, rest: seq<Slot>, i: int)
    ensures Covered([s] + rest, i) <==> PayloadAt(s, i) || Covered(rest, i)
  {
    var p := [s] + rest;
    if PayloadAt(s, i) { assert PayloadAt(p[0], i); }
    if Covered(rest, i) {
      var k :| 0 <= k < |rest| && PayloadAt(rest[k], i);
      assert PayloadAt(p[k + 1], i);
    }
    if Covered(p, i) {
      var k :| 0 <= k < |p| && PayloadAt(p[k], i);
      assert k > 0 ==> PayloadAt(rest[k - 1], i);
    }
  }

  // What the two streams share at a command that carries a slot.
  lemma EmitCase(b: seq<Byte>, c: seq<Byte>, esize: nat, o: nat, n: nat)
    requires o < esize <= |b| && n < MAX_SLOTS && SamePlaces(b, c, esize, o, n)
    requires CommandAt(b, esize, o).Emit? && SameKinds(b, c, Parse(b, esize, o, n))
    ensures
      var Emit(s, len) := CommandAt(b, esize, o);
      && SameKinds(b, c, Parse(b, esize, o + len, n + 1))
      && (forall i :: o <= i < o + len && b[i] != c[i] ==> PayloadAt(s, i))
      && (!IsXf(s) ==> (b[s.off + 2] >= 128 <==> c[s.off + 2] >= 128))
  {
    hide CommandAt;
    hide Parse;
    ParseStep(b, esize, o, n);
    var Emit(s, len) := CommandAt(b, esize, o);
    var rest := Parse(b, esize, o + len, n + 1);
    KindsCons(b, c, s, rest);
    hide SameKinds;
    EmitPayload(b, c, esize, o, n);
  }

  lemma KindsCons(b: seq<Byte>, c: seq<Byte>, s: Slot, rest: seq<Slot>)
    requires |b| == |c| && SameKinds(b, c, [s] + rest)
    ensures SameKinds(b, c, rest) && (!IsXf(s) && s.off + 2 < |b| ==> (b[s.off + 2] >= 128 <==> c[s.off + 2] >= 128))
  {
    var p := [s] + rest;
    assert p[0] == s && forall k :: 0 <= k < |rest| ==> p[k + 1] == rest[k];
  }

  lemma EmitPayload(b: seq<Byte>, c: seq<Byte>, esize: nat, o: nat, n: nat)
    requires o < esize <= |b| && n < MAX_SLOTS && SamePlaces(b, c, esize, o, n) && CommandAt(b, esize, o).Emit?
    ensures var Emit(s, len) := CommandAt(b, esize, o);
      forall i :: o <= i < o + len && b[i] != c[i] ==> PayloadAt(s, i)
  {
    hide CommandAt;
    hide Parse;
    ParseStep(b, esize, o, n);
    var Emit(s, len) := CommandAt(b, esize, o);
    var rest := Parse(b, esize, o + len, n + 1);
    forall i | o <= i < o + len && b[i] != c[i] ensures PayloadAt(s, i) {
      LaterSlotsLeaveHead(b, esize, o + len, n + 1, i);
      CoveredCons(s, rest, i);
    }
  }

  lemma SameCommand(b: seq<Byte>, c: seq<Byte>, esize: nat, o: nat)
    requires o < esize <= |b| == |c| && CommandAt(b, esize, o).Emit?
    requires forall i :: o <= i < o + CommandAt(b, esize, o).len && b[i] != c[i] ==>
      PayloadAt(CommandAt(b, esize, o).slot, i)
    requires !IsXf(CommandAt(b, esize, o).slot) ==> (b[o + 2] >= 128 <==> c[o + 2] >= 128)
    ensures CommandAt(c, esize, o) == CommandAt(b, esize, o)
  {
    var s := CommandAt(b, esize, o).slot;
    if IsXf(s) {
      assert forall i :: o <= i < o + 5 ==> b[i] == c[i];
    } else {
      assert b[o] == c[o] && b[o + 1] == c[o + 1] && b[o + 5] == c[o + 5] && b[o + 6] == c[o + 6];
      if s.kind == Tev4 {
        assert b[o + 10] == c[o + 10] && b[o + 11] == c[o + 11] && b[o + 15] == c[o + 15] && b[o + 16] == c[o + 16];
      }
    }
  }
}

module PayloadLerp {
  import opened Bytes
  import opened ModArith
  import opened GxParse

  // The 32-bit float format, kept abstract: any decoder and any encoder.
  datatype FloatFormat = FloatFormat(decode: nat -> real, encode: real -> nat) {
    ghost predicate Valid() { forall x: real :: encode(x) < 0x1_0000_0000 }
  }

  function Round(x: real): int { Trunc(if x >= 0.0 then x + 0.5 else x - 0.5) }

  function Clamp(v: int, lo: int, hi: int): int { if v < lo then lo else if v > hi then hi else v }

  function LerpU8(p: nat, c: nat, a: real): (v: Byte) {
    Clamp(Round(Blend(p as real, c as real, a)), 0, 255)
  }

  // Sign extension of an 11-bit field, and its interpolation.
  function Signed11(x: nat): int
    requires x < 2048
  {
    if x >= 1024 then x - 2048 else x
  }

  function LerpS11(p: nat, c: nat, a: real): (v: int)
    requires p < 2048 && c < 2048
    ensures -1024 <= v <= 1023
  {
    Clamp(Round(Blend(Signed11(p) as real, Signed11(c) as real, a)), -1024, 1023)
  }

  // The interpolated channel lies between the two emitted ones.
  lemma RoundStaysBetween(p: int, c: int, a: real)
    requires 0.0 <= a <= 1.0
    ensures if p <= c then p <= Round(Blend(p as real, c as real, a)) <= c
            else c <= Round(Blend(p as real, c as real, a)) <= p
  {
    LerpBetween(p as real, c as real, a);
    var x := Blend(p as real, c as real, a);
    if p <= c { RoundWithin(x, p, c); } else { RoundWithin(x, c, p); }
  }

  lemma LerpBetween(p: real, c: real, a: real)
    requires 0.0 <= a <= 1.0
    ensures if p <= c then p <= Blend(p, c, a) <= c else c <= Blend(p, c, a) <= p
  {
    var s := FractionOf(c - p, a);
    assert Blend(p, c, a) == p + s;
  }

  lemma RoundWithin(x: real, lo: int, hi: int)
    requires lo as real <= x <= hi as real
    ensures lo <= Round(x) <= hi
  {}

  // Fields of a BP colour word.
  function Low8(w: nat): nat { w % 256 }
  function High8(w: nat): nat { (w / 4096) % 256 }
  function Low11(w: nat): nat { w % 2048 }
  function High11(w: nat): nat { (w / 4096) % 2048 }

  // Bit 23 of a word that starts with the register byte.
  lemma TopBit(w: nat, reg: Byte, rest: nat)
    requires rest < 0x800000
    ensures w == (reg as int) * 0x1000000 + rest ==> (w / 0x10000) % 256 < 128
    ensures w == (reg as int) * 0x1000000 + 0x800000 + rest ==> (w / 0x10000) % 256 >= 128
  {
    var byte := rest / 0x10000;
    if w == (reg as int) * 0x1000000 + rest {
      ModUnique(w, (reg as int) * 256 + byte, rest % 0x10000, 0x10000);
      ModUnique((reg as int) * 256 + byte, reg, byte, 256);
    }
    if w == (reg as int) * 0x1000000 + 0x800000 + rest {
      ModUnique(w, (reg as int) * 256 + 128 + byte, rest % 0x10000, 0x10000);
      ModUnique((reg as int) * 256 + 128 + byte, reg, 128 + byte, 256);
    }
  }

  function KonstWord(reg: Byte, high: Byte, low: Byte): (w: nat)
    ensures w < 0x1_0000_0000 && Low8(w) == low && High8(w) == high && w / 0x1000000 == reg
    ensures (w / 0x10000) % 256 >= 128
  {
    var w := (reg as int) * 0x1000000 + 0x800000 + (high as int) * 4096 + low;
    ModUnique(w, (reg as int) * 0x10000 + 0x8000 + (high as int) * 16, low, 256);
    ModUnique(w, (reg as int) * 4096 + 2048 + high, low, 4096);
    ModUnique((reg as int) * 4096 + 2048 + high, (reg as int) * 16 + 8, high, 256);
    ModUnique(w, reg, 0x800000 + (high as int) * 4096 + low, 0x1000000);
    TopBit(w, reg, (high as int) * 4096 + low);
    w
  }

  function TevWord(reg: Byte, high: nat, low: nat): (w: nat)
    requires high < 2048 && low < 2048
    ensures w < 0x1_0000_0000 && Low11(w) == low && High11(w) == high && w / 0x1000000 == reg
    ensures (w / 0x10000) % 256 < 128
  {
    var w := (reg as int) * 0x1000000 + high * 4096 + low;
    ModUnique(w, (reg as int) * 8192 + high * 2, low, 2048);
    ModUnique(w, (reg as int) * 4096 + high, low, 4096);
    ModUnique((reg as int) * 4096 + high, (reg as int) * 2, high, 2048);
    ModUnique(w, reg, high * 4096 + low, 0x1000000);
    TopBit(w, reg, high * 4096 + low);
    w
  }

  // (v & 0x7FF) of a signed channel.
  function Field11(v: int): (f: nat)
    requires -1024 <= v <= 1023
    ensures f < 2048 && Signed11(f) == v
  {
    if v < 0 then v + 2048 else v
  }

  datatype Built = Built(changed: bool, lerp: seq<Byte>)

  ghost predicate Spans(s: Slot, prev: seq<Byte>, curr: seq<Byte>) {
    && |prev| == |curr| == s.nbytes
    && match s.kind
       case TexMtx => s.nbytes == 32 || s.nbytes == 48
       case XfCol2 => s.nbytes == 8
       case Tev4 => s.nbytes == 20
       case KCol2 => s.nbytes == 10
  }

  function FloatAt(f: FloatFormat, b: seq<Byte>, i: nat): real
    requires 4 * i + 4 <= |b|
  {
    f.decode(Word(b, 4 * i))
  }

  function Jump(f: FloatFormat, prev: seq<Byte>, curr: seq<Byte>, i: nat): real
    requires |prev| == |curr| && 4 * i + 4 <= |curr|
  {
    Abs(FloatAt(f, curr, i) - FloatAt(f, prev, i))
  }

  ghost predicate Teleports(f: FloatFormat, prev: seq<Byte>, curr: seq<Byte>)
    requires |prev| == |curr| && |curr| % 4 == 0
  {
    exists i :: 0 <= i < |curr| / 4 && Jump(f, prev, curr, i) > 64.0
  }

  // Element i of a texture matrix; a 2x4 one wraps its translation column.
  function LerpElement(f: FloatFormat, prev: seq<Byte>, curr: seq<Byte>, a: real, i: nat): real
    requires |prev| == |curr| && 4 * i + 4 <= |curr|
  {
    var p := FloatAt(f, prev, i);
    var d := FloatAt(f, curr, i) - p;
    var k := (d + 0.5).Floor;
    var wraps := |curr| == 32 && (i == 3 || i == 7) && Abs(d) > 0.5 && -8 <= k <= 8;
    Blend(p, p + (if wraps then d - k as real else d), a)
  }

  function TexMtxBytes(f: FloatFormat, prev: seq<Byte>, curr: seq<Byte>, a: real, i: nat): (r: seq<Byte>)
    requires f.Valid() && |prev| == |curr| && 4 * i <= |curr| && |curr| % 4 == 0
    ensures |r| == |curr|
    ensures forall j :: 0 <= j < i ==> Word(r, 4 * j) == f.encode(LerpElement(f, prev, curr, a, j))
    ensures r[4 * i..] == curr[4 * i..]
  {
    if i == 0 then curr
    else PutWord(TexMtxBytes(f, prev, curr, a, i - 1), 4 * (i - 1), f.encode(LerpElement(f, prev, curr, a, i - 1)))
  }

  lemma WordElsewhere(b: seq<Byte>, i: nat, w: nat, j: nat)
    requires i + 4 <= |b| && j + 4 <= |b| && (j + 4 <= i || i + 4 <= j) && w < 0x1_0000_0000
    ensures Word(PutWord(b, i, w), j) == Word(b, j)
  {}

  // The first two bytes of a word, from its value.
  lemma LeadingBytes(b: seq<Byte>, i: nat)
    requires i + 4 <= |b|
    ensures Word(b, i) / 0x1000000 == b[i] && (Word(b, i) / 0x10000) % 256 == b[i + 1]
  {
    ModUnique(Word(b, i), b[i], (b[i + 1] as int) * 0x10000 + (b[i + 2] as int) * 0x100 + b[i + 3], 0x1000000);
    ModUnique(Word(b, i), (b[i] as int) * 256 + b[i + 1], (b[i + 2] as int) * 0x100 + b[i + 3], 0x10000);
    ModUnique((b[i] as int) * 256 + b[i + 1], b[i], b[i + 1], 256);
  }

  function KonstBytes(prev: seq<Byte>, curr: seq<Byte>, a: real): (r: seq<Byte>)
    requires |prev| == |curr| == 10
    ensures |r| == 10 && r[0] == curr[0] && r[1] == curr[1] && r[5] == curr[5] && r[6] == curr[6] && r[2] >= 128
    ensures Low8(Word(r, 1)) == LerpU8(Low8(Word(prev, 1)), Low8(Word(curr, 1)), a)
    ensures High8(Word(r, 1)) == LerpU8(High8(Word(prev, 1)), High8(Word(curr, 1)), a)
    ensures Low8(Word(r, 6)) == LerpU8(Low8(Word(prev, 6)), Low8(Word(curr, 6)), a)
    ensures High8(Word(r, 6)) == LerpU8(High8(Word(prev, 6)), High8(Word(curr, 6)), a)
  {
    var w0p, w0c, w1p, w1c := Word(prev, 1), Word(curr, 1), Word(prev, 6), Word(curr, 6);
    var w0 := KonstWord(curr[1], LerpU8(High8(w0p), High8(w0c), a), LerpU8(Low8(w0p), Low8(w0c), a));
    var w1 := KonstWord(curr[6], LerpU8(High8(w1p), High8(w1c), a), LerpU8(Low8(w1p), Low8(w1c), a));
    var r0 := PutWord(curr, 1, w0);
    var r := PutWord(r0, 6, w1);
    WordElsewhere(r0, 6, w1, 1);
    LeadingBytes(r, 1);
    LeadingBytes(r, 6);
    r
  }

  // The second word of a TEV pair is written three times.
  function QuadTail(b: seq<Byte>, w: nat): (r: seq<Byte>)
    requires |b| == 20 && w < 0x1_0000_0000
    ensures |r| == 20 && Word(r, 1) == Word(b, 1) && Word(r, 6) == Word(r, 11) == Word(r, 16) == w
    ensures r[0] == b[0] && r[5] == b[5] && r[10] == b[10] && r[15] == b[15]
  {
    var r1 := PutWord(b, 6, w);
    var r2 := PutWord(r1, 11, w);
    WordElsewhere(b, 6, w, 1);
    WordElsewhere(r1, 11, w, 1);
    WordElsewhere(r1, 11, w, 6);
    WordElsewhere(r2, 16, w, 1);
    WordElsewhere(r2, 16, w, 6);
    WordElsewhere(r2, 16, w, 11);
    PutWord(r2, 16, w)
  }

  function TevBytes(prev: seq<Byte>, curr: seq<Byte>, a: real): (r: seq<Byte>)
    requires |prev| == |curr| == 20
    ensures |r| == 20 && r[2] < 128
    ensures r[0] == curr[0] && r[5] == curr[5] && r[10] == curr[10] && r[15] == curr[15]
    ensures r[1] == curr[1] && r[6] == r[11] == r[16] == curr[6]
    ensures Low11(Word(r, 1)) == Field11(LerpS11(Low11(Word(prev, 1)), Low11(Word(curr, 1)), a))
    ensures High11(Word(r, 1)) == Field11(LerpS11(High11(Word(prev, 1)), High11(Word(curr, 1)), a))
    ensures Low11(Word(r, 6)) == Field11(LerpS11(Low11(Word(prev, 6)), Low11(Word(curr, 6)), a))
    ensures High11(Word(r, 6)) == Field11(LerpS11(High11(Word(prev, 6)), High11(Word(curr, 6)), a))
    ensures Word(r, 6) == Word(r, 11) == Word(r, 16)
  {
    var w0p, w0c, w1p, w1c := Word(prev, 1), Word(curr, 1), Word(prev, 6), Word(curr, 6);
    var w0 :=
      TevWord(curr[1], Field11(LerpS11(High11(w0p), High11(w0c), a)), Field11(LerpS11(Low11(w0p), Low11(w0c), a)));
    var w1 :=
      TevWord(curr[6], Field11(LerpS11(High11(w1p), High11(w1c), a)), Field11(LerpS11(Low11(w1p), Low11(w1c), a)));
    var r0 := PutWord(curr, 1, w0);
    var r := QuadTail(r0, w1);
    WordElsewhere(curr, 1, w0, 1 + 5);
    LeadingBytes(r, 1);
    LeadingBytes(r, 6);
    LeadingBytes(r, 11);
    LeadingBytes(r, 16);
    r
  }

  // ta_build_lerp. Nothing changes when the two emissions are equal or when a
  // matrix element jumped; the slot is then left unpatched.
  ghost function BuildLerp(f: FloatFormat, s: Slot, prev: seq<Byte>, curr: seq<Byte>, a: real): (r: Built)
    requires f.Valid() && Spans(s, prev, curr)
    ensures |r.lerp| == s.nbytes && (!r.changed ==> r.lerp == curr)
  {
    if prev == curr then Built(false, curr)
    else
      match s.kind
      case TexMtx =>
        if Teleports(f, prev, curr) then Built(false, curr)
        else Built(true, TexMtxBytes(f, prev, curr, a, s.nbytes / 4))
      case XfCol2 => Built(true, seq(8, i requires 0 <= i < 8 => LerpU8(prev[i], curr[i], a)))
      case KCol2 => Built(true, KonstBytes(prev, curr, a))
      case Tev4 => Built(true, TevBytes(prev, curr, a))
  }

  lemma HeadsOf(r: seq<Byte>, c: seq<Byte>)
    requires |r| == |c| && (|r| == 10 || |r| == 20)
    requires r[0] == c[0] && r[1] == c[1] && r[5] == c[5] && r[6] == c[6]
    requires |r| == 20 ==> r[10] == c[10] && r[11] == c[11] && r[15] == c[15] && r[16] == c[16]
    ensures forall i :: 0 <= i < |r| && i % 5 < 2 ==> r[i] == c[i]
  {
    forall i | 0 <= i < |r| && i % 5 < 2 ensures r[i] == c[i] {
      assert i == 0 || i == 1 || i == 5 || i == 6 || i == 10 || i == 11 || i == 15 || i == 16;
    }
  }

  // What the structure of the stream needs of an interpolated span: command
  // heads kept, and konst still told from TEV.
  lemma LerpKeepsHeads(f: FloatFormat, s: Slot, prev: seq<Byte>, curr: seq<Byte>, a: real)
    requires f.Valid() && Spans(s, prev, curr) && !IsXf(s)
    requires s.kind == KCol2 ==> curr[2] >= 128
    requires s.kind == Tev4 ==> curr[2] < 128 && curr[11] == curr[6] && curr[16] == curr[6]
    ensures var r := BuildLerp(f, s, prev, curr, a).lerp;
      (forall i :: 0 <= i < s.nbytes && i % 5 < 2 ==> r[i] == curr[i]) && (r[2] >= 128 <==> curr[2] >= 128)
  {
    if prev != curr {
      if s.kind == KCol2 { HeadsOf(KonstBytes(prev, curr, a), curr); } else { HeadsOf(TevBytes(prev, curr, a), curr); }
    }
  }

  // Whatever colour was there, the written span has the slot's kind.
  lemma LerpForcesKind(f: FloatFormat, s: Slot, prev: seq<Byte>, curr: seq<Byte>, a: real)
    requires f.Valid() && Spans(s, prev, curr) && !IsXf(s) && BuildLerp(f, s, prev, curr, a).changed
    requires s.kind == Tev4 ==> curr[11] == curr[6] && curr[16] == curr[6]
    ensures var r := BuildLerp(f, s, prev, curr, a).lerp;
      (forall i :: 0 <= i < s.nbytes && i % 5 < 2 ==> r[i] == curr[i]) && (r[2] >= 128 <==> s.kind == KCol2)
  {
    if s.kind == KCol2 { HeadsOf(KonstBytes(prev, curr, a), curr); } else { HeadsOf(TevBytes(prev, curr, a), curr); }
  }
}

module DlPatch {
  import opened Bytes
  import opened GxParse
  import opened PayloadLerp

  ghost predicate WellPlaced(slots: seq<Slot>, size: nat) {
    && (forall k :: 0 <= k < |slots| ==> InBounds(slots[k], size))
    && (forall j, k :: 0 <= j < k < |slots| ==> slots[j].off + slots[j].nbytes <= Start(slots[k]))
  }

  lemma ParseIsWellPlaced(b: seq<Byte>, esize: nat)
    requires esize <= |b|
    ensures WellPlaced(Parse(b, esize, 0, 0), esize)
  {
    var p := Parse(b, esize, 0, 0);
    forall k | 0 <= k < |p| ensures InBounds(p[k], esize) { SlotsInBounds(b, esize, 0, 0, k); }
    forall j, k | 0 <= j < k < |p| ensures p[j].off + p[j].nbytes <= Start(p[k]) {
      SlotsDisjoint(b, esize, 0, 0, j, k);
    }
  }

  function Span(b: seq<Byte>, s: Slot): seq<Byte>
    requires s.off + s.nbytes <= |b|
  {
    b[s.off..s.off + s.nbytes]
  }

  predicate InSpan(s: Slot, i: int) { s.off <= i < s.off + s.nbytes }

  // ta_span_write: the opcode bytes of BP commands are not written.
  function SpanWrite(b: seq<Byte>, s: Slot, src: seq<Byte>): seq<Byte>
    requires s.off + s.nbytes <= |b| && |src| == s.nbytes
  {
    seq(|b|, i requires 0 <= i < |b| =>
      if InSpan(s, i) && (IsXf(s) || (i - s.off) % 5 != 0) then src[i - s.off] else b[i])
  }

  ghost predicate SameOpcodes(s: Slot, x: seq<Byte>, y: seq<Byte>) {
    |x| == |y| == s.nbytes && (IsXf(s) || forall i :: 0 <= i < s.nbytes && i % 5 == 0 ==> x[i] == y[i])
  }

  lemma BuildKeepsOpcodes(f: FloatFormat, s: Slot, prev: seq<Byte>, curr: seq<Byte>, a: real)
    requires f.Valid() && Spans(s, prev, curr)
    ensures SameOpcodes(s, curr, BuildLerp(f, s, prev, curr, a).lerp)
  {
    if s.kind == KCol2 {
      OpcodesOf(KonstBytes(prev, curr, a), curr);
    } else if s.kind == Tev4 {
      OpcodesOf(TevBytes(prev, curr, a), curr);
    }
  }

  lemma OpcodesOf(x: seq<Byte>, y: seq<Byte>)
    requires |x| == |y| && (|x| == 10 || |x| == 20)
    requires x[0] == y[0] && x[5] == y[5] && (|x| == 20 ==> x[10] == y[10] && x[15] == y[15])
    ensures forall i :: 0 <= i < |x| && i % 5 == 0 ==> x[i] == y[i]
  {
    forall i | 0 <= i < |x| && i % 5 == 0 ensures x[i] == y[i] { assert i == 0 || i == 5 || i == 10 || i == 15; }
  }

  // Writing one span replaces exactly that span.
  lemma SpanWriteEffect(b: seq<Byte>, slots: seq<Slot>, k: nat, src: seq<Byte>)
    requires WellPlaced(slots, |b|) && k < |slots| && SameOpcodes(slots[k], src, Span(b, slots[k]))
    ensures var c := SpanWrite(b, slots[k], src);
      && Span(c, slots[k]) == src
      && SameOutside(b, c, [slots[k]])
      && forall j :: 0 <= j < |slots| && j != k ==> Span(c, slots[j]) == Span(b, slots[j])
  {
    var s := slots[k];
    var c := SpanWrite(b, s, src);
    forall i | 0 <= i < s.nbytes ensures Span(c, s)[i] == src[i] {
      assert Span(b, s)[i] == b[s.off + i];
    }
    forall i | 0 <= i < |b| && b[i] != c[i] ensures InSpan([s][0], i) {}
    forall j | 0 <= j < |slots| && j != k ensures Span(c, slots[j]) == Span(b, slots[j]) {
      SpansApart(slots, |b|, j, k);
      forall i | InSpan(slots[j], i) ensures c[i] == b[i] {}
      SameSpan(b, c, slots[j]);
    }
  }

  lemma SameSpan(b: seq<Byte>, c: seq<Byte>, s: Slot)
    requires |b| == |c| && s.off + s.nbytes <= |b| && forall i :: InSpan(s, i) ==> c[i] == b[i]
    ensures Span(c, s) == Span(b, s)
  {}

  lemma SpansApart(slots: seq<Slot>, size: nat, j: nat, k: nat)
    requires WellPlaced(slots, size) && j < |slots| && k < |slots| && j != k
    ensures forall i :: !(InSpan(slots[j], i) && InSpan(slots[k], i))
  {
    if j < k {
      assert slots[j].off + slots[j].nbytes <= Start(slots[k]);
    } else {
      assert slots[k].off + slots[k].nbytes <= Start(slots[j]);
    }
  }

  ghost predicate SameOutside(b: seq<Byte>, c: seq<Byte>, slots: seq<Slot>) {
    && |b| == |c|
    && forall i :: 0 <= i < |b| && b[i] != c[i] ==> exists k :: 0 <= k < |slots| && InSpan(slots[k], i)
  }

  // c is b with the dirty slots' spans replaced: curr went out, lerp came in.
  ghost predicate PatchedBy(b: seq<Byte>, c: seq<Byte>, slots: seq<Slot>, curr: seq<seq<Byte>>, lerp: seq<seq<Byte>>,
                            dirty: seq<bool>)
    requires WellPlaced(slots, |b|) && |curr| == |lerp| == |dirty| == |slots|
  {
    && SameOutside(b, c, slots)
    && forall k {:trigger dirty[k]} :: 0 <= k < |slots| ==>
         if dirty[k] then Span(b, slots[k]) == curr[k] && Span(c, slots[k]) == lerp[k]
         else Span(c, slots[k]) == Span(b, slots[k])
  }

  // The scratch-compared restore: spans that still hold lerp get curr back,
  // all others are left as they are.
  ghost predicate RestoredFrom(c: seq<Byte>, d: seq<Byte>, slots: seq<Slot>, curr: seq<seq<Byte>>,
                               lerp: seq<seq<Byte>>, dirty: seq<bool>)
    requires WellPlaced(slots, |c|) && |curr| == |lerp| == |dirty| == |slots|
  {
    RestoredTo(c, d, slots, curr, lerp, dirty, |slots|)
  }

  // The same after the first n slots.
  ghost predicate RestoredTo(c: seq<Byte>, d: seq<Byte>, slots: seq<Slot>, curr: seq<seq<Byte>>, lerp: seq<seq<Byte>>,
                             dirty: seq<bool>, n: nat)
    requires WellPlaced(slots, |c|) && |curr| == |lerp| == |dirty| == |slots|
  {
    && SameOutside(c, d, slots)
    && forall k {:trigger dirty[k]} :: 0 <= k < |slots| ==>
         Span(d, slots[k]) == if k < n && dirty[k] && Span(c, slots[k]) == lerp[k] then curr[k] else Span(c, slots[k])
  }

  lemma RestoredNone(c: seq<Byte>, slots: seq<Slot>, curr: seq<seq<Byte>>, lerp: seq<seq<Byte>>, dirty: seq<bool>)
    requires WellPlaced(slots, |c|) && |curr| == |lerp| == |dirty| == |slots|
    ensures RestoredTo(c, c, slots, curr, lerp, dirty, 0)
    ensures (forall k :: 0 <= k < |dirty| ==> !dirty[k]) ==> RestoredTo(c, c, slots, curr, lerp, dirty, |slots|)
  {}

  lemma RestoreNext(c: seq<Byte>, d: seq<Byte>, e: seq<Byte>, slots: seq<Slot>, curr: seq<seq<Byte>>,
                    lerp: seq<seq<Byte>>, dirty: seq<bool>, n: nat)
    requires WellPlaced(slots, |c|) && |curr| == |lerp| == |dirty| == |slots| && n < |slots|
    requires RestoredTo(c, d, slots, curr, lerp, dirty, n) && SameOutside(d, e, [slots[n]])
    requires forall j :: 0 <= j < |slots| && j != n ==> Span(e, slots[j]) == Span(d, slots[j])
    requires Span(e, slots[n]) == if dirty[n] && Span(d, slots[n]) == lerp[n] then curr[n] else Span(d, slots[n])
    ensures RestoredTo(c, e, slots, curr, lerp, dirty, n + 1)
  {
    OutsideJoins(c, d, e, slots, n);
    hide SameOutside;
    forall k | 0 <= k < |slots|
      ensures Span(e, slots[k]) ==
        if k < n + 1 && dirty[k] && Span(c, slots[k]) == lerp[k] then curr[k] else Span(c, slots[k])
    {
      assert dirty[k] || !dirty[k];
    }
  }

  lemma OutsideJoins(b: seq<Byte>, c: seq<Byte>, d: seq<Byte>, slots: seq<Slot>, k: nat)
    requires SameOutside(b, c, slots) && k < |slots| && SameOutside(c, d, [slots[k]])
    ensures SameOutside(b, d, slots)
  {
    forall i | 0 <= i < |b| && b[i] != d[i] ensures exists j :: 0 <= j < |slots| && InSpan(slots[j], i) {
      if c[i] != d[i] { assert InSpan(slots[k], i); }
    }
  }

  lemma SpanAt(b: seq<Byte>, s: Slot, i: nat)
    requires s.off + s.nbytes <= |b| && InSpan(s, i)
    ensures Span(b, s)[i - s.off] == b[i]
  {}

  // Patch and restore give back exactly the emitted bytes.
  lemma PatchThenRestore(b: seq<Byte>, c: seq<Byte>, d: seq<Byte>, slots: seq<Slot>, curr: seq<seq<Byte>>,
                         lerp: seq<seq<Byte>>, dirty: seq<bool>)
    requires WellPlaced(slots, |b|) && |curr| == |lerp| == |dirty| == |slots|
    requires PatchedBy(b, c, slots, curr, lerp, dirty) && RestoredFrom(c, d, slots, curr, lerp, dirty)
    ensures d == b
  {
    forall i | 0 <= i < |b| ensures d[i] == b[i] {
      if k :| 0 <= k < |slots| && InSpan(slots[k], i) {
        var s := slots[k];
        assert dirty[k] || !dirty[k];
        assert Span(d, s) == Span(b, s);
        SpanAt(b, s, i);
        SpanAt(d, s, i);
      }
    }
  }

  // One more slot patched.
  lemma PatchOne(b: seq<Byte>, c: seq<Byte>, d: seq<Byte>, slots: seq<Slot>, curr: seq<seq<Byte>>, lerp: seq<seq<Byte>>,
                 dirty: seq<bool>, k: nat, l: seq<Byte>)
    requires |b| == |c| == |d| && WellPlaced(slots, |b|) && |curr| == |lerp| == |dirty| == |slots|
    requires PatchedBy(b, c, slots, curr, lerp, dirty) && k < |slots| && !dirty[k]
    requires Span(c, slots[k]) == curr[k] && Span(d, slots[k]) == l && SameOutside(c, d, [slots[k]])
    requires forall j :: 0 <= j < |slots| && j != k ==> Span(d, slots[j]) == Span(c, slots[j])
    ensures PatchedBy(b, d, slots, curr, lerp[k := l], dirty[k := true])
  {
    OutsideJoins(b, c, d, slots, k);
    forall j | 0 <= j < |slots|
      ensures if dirty[k := true][j] then Span(b, slots[j]) == curr[j] && Span(d, slots[j]) == lerp[k := l][j]
              else Span(d, slots[j]) == Span(b, slots[j])
    {
      assert dirty[j] || !dirty[j];
    }
  }

  ghost predicate LerpsBuilt(f: FloatFormat, slots: seq<Slot>, prev: seq<seq<Byte>>, curr: seq<seq<Byte>>,
                             lerp: seq<seq<Byte>>, dirty: seq<bool>)
    requires f.Valid() && |prev| == |curr| == |lerp| == |dirty| == |slots|
  {
    forall k {:trigger dirty[k]} :: 0 <= k < |slots| && dirty[k] ==>
      Spans(slots[k], prev[k], curr[k]) && exists a :: lerp[k] == BuildLerp(f, slots[k], prev[k], curr[k], a).lerp
  }

  // The slots an R-frame patches: the ones that have an earlier payload to
  // come from, would change, and still hold this tick's emission.
  ghost predicate Due(f: FloatFormat, s: Slot, hasPrev: bool, prev: seq<Byte>, curr: seq<Byte>, live: seq<Byte>,
                      alpha: real)
    requires f.Valid() && s.off + s.nbytes <= |live| && (hasPrev ==> Spans(s, prev, curr))
  {
    0.0 < alpha < 1.0 && hasPrev && BuildLerp(f, s, prev, curr, alpha).changed && Span(live, s) == curr
  }

  ghost predicate Pairs(slots: seq<Slot>, hasPrev: seq<bool>, prev: seq<seq<Byte>>, curr: seq<seq<Byte>>) {
    && |hasPrev| == |prev| == |curr| == |slots|
    && forall k :: 0 <= k < |slots| && hasPrev[k] ==> Spans(slots[k], prev[k], curr[k])
  }

  // Of the first n slots exactly the due ones are dirty, each with its
  // interpolation at this alpha; none of the others is.
  ghost predicate PatchedExactly(f: FloatFormat, slots: seq<Slot>, hasPrev: seq<bool>, prev: seq<seq<Byte>>,
                                 curr: seq<seq<Byte>>, live: seq<Byte>, alpha: real, lerp: seq<seq<Byte>>,
                                 dirty: seq<bool>, n: nat)
    requires f.Valid() && Pairs(slots, hasPrev, prev, curr) && WellPlaced(slots, |live|) && |lerp| == |dirty| == |slots|
  {
    forall k {:trigger dirty[k]} :: 0 <= k < |slots| ==>
      && (dirty[k] <==> k < n && Due(f, slots[k], hasPrev[k], prev[k], curr[k], live, alpha))
      && (dirty[k] ==> lerp[k] == BuildLerp(f, slots[k], prev[k], curr[k], alpha).lerp)
  }

  lemma ExactIsBuilt(f: FloatFormat, slots: seq<Slot>, hasPrev: seq<bool>, prev: seq<seq<Byte>>, curr: seq<seq<Byte>>,
                     live: seq<Byte>, alpha: real, lerp: seq<seq<Byte>>, dirty: seq<bool>, n: nat)
    requires f.Valid() && Pairs(slots, hasPrev, prev, curr) && WellPlaced(slots, |live|) && |lerp| == |dirty| == |slots|
    requires PatchedExactly(f, slots, hasPrev, prev, curr, live, alpha, lerp, dirty, n)
    ensures LerpsBuilt(f, slots, prev, curr, lerp, dirty)
  {
    hide BuildLerp;
  }

  // A slot as the parser leaves it.
  ghost predicate Tracked(b: seq<Byte>, esize: nat, s: Slot) {
    && esize <= |b| && InBounds(s, esize) && SigOk(b, s)
    && (!IsXf(s) ==> (b[s.off + 2] >= 128 <==> s.kind == KCol2))
  }

  lemma LerpedSpanKeepsHeads(f: FloatFormat, b: seq<Byte>, esize: nat, s: Slot, prev: seq<Byte>, a: real)
    requires f.Valid() && Tracked(b, esize, s) && Spans(s, prev, Span(b, s)) && !IsXf(s)
    ensures var r := BuildLerp(f, s, prev, Span(b, s), a).lerp;
      && (forall i :: 0 <= i < s.nbytes && i % 5 < 2 ==> r[i] == Span(b, s)[i])
      && (r[2] >= 128 <==> Span(b, s)[2] >= 128)
  {
    var curr := Span(b, s);
    assert curr[2] == b[s.off + 2];
    if s.kind == Tev4 {
      assert curr[6] == b[s.off + 6] && curr[11] == b[s.off + 11] && curr[16] == b[s.off + 16];
    }
    LerpKeepsHeads(f, s, prev, curr, a);
  }

  lemma HeadsKept(b: seq<Byte>, c: seq<Byte>, esize: nat, s: Slot)
    requires Tracked(b, esize, s) && |b| == |c| && !IsXf(s)
    requires forall i :: 0 <= i < s.nbytes && i % 5 < 2 ==> Span(c, s)[i] == Span(b, s)[i]
    requires Span(c, s)[2] >= 128 <==> Span(b, s)[2] >= 128
    ensures b[s.off + 2] >= 128 <==> c[s.off + 2] >= 128
    ensures forall i :: s.off <= i < s.off + s.nbytes && b[i] != c[i] ==> PayloadAt(s, i)
  {
    assert Span(c, s)[2] == c[s.off + 2] && Span(b, s)[2] == b[s.off + 2];
    forall i | s.off <= i < s.off + s.nbytes && b[i] != c[i] ensures PayloadAt(s, i) {
      assert Span(c, s)[i - s.off] == c[i] && Span(b, s)[i - s.off] == b[i];
    }
  }

  lemma PatchIsSameShape(f: FloatFormat, b: seq<Byte>, c: seq<Byte>, esize: nat, slots: seq<Slot>,
                         prev: seq<seq<Byte>>, curr: seq<seq<Byte>>, lerp: seq<seq<Byte>>, dirty: seq<bool>)
    requires f.Valid() && esize <= |b| && WellPlaced(slots, |b|)
    requires |prev| == |curr| == |lerp| == |dirty| == |slots|
    requires forall k :: 0 <= k < |slots| ==> Tracked(b, esize, slots[k])
    requires PatchedBy(b, c, slots, curr, lerp, dirty) && LerpsBuilt(f, slots, prev, curr, lerp, dirty)
    ensures SameShape(b, c, esize, slots)
  {
    hide BuildLerp;
    forall k | 0 <= k < |slots| && !IsXf(slots[k])
      ensures b[slots[k].off + 2] >= 128 <==> c[slots[k].off + 2] >= 128
      ensures forall i :: slots[k].off <= i < slots[k].off + slots[k].nbytes && b[i] != c[i] ==> PayloadAt(slots[k], i)
    {
      if dirty[k] {
        var a :| lerp[k] == BuildLerp(f, slots[k], prev[k], curr[k], a).lerp;
        LerpedSpanKeepsHeads(f, b, esize, slots[k], prev[k], a);
      }
      HeadsKept(b, c, esize, slots[k]);
    }
    forall i | 0 <= i < esize && b[i] != c[i] ensures Covered(slots, i) {
      var k :| 0 <= k < |slots| && InSpan(slots[k], i);
      assert PayloadAt(slots[k], i);
    }
  }

  // The main result: patching the slots of a stream with whatever earlier
  // payloads and at whatever alpha leaves a stream that parses to the same
  // slots, every one of them with its signature.
  lemma PatchKeepsStructure(f: FloatFormat, b: seq<Byte>, c: seq<Byte>, esize: nat, slots: seq<Slot>,
                            prev: seq<seq<Byte>>, curr: seq<seq<Byte>>, lerp: seq<seq<Byte>>, dirty: seq<bool>)
    requires f.Valid() && esize <= |b| && slots == Parse(b, esize, 0, 0) && WellPlaced(slots, |b|)
    requires |prev| == |curr| == |lerp| == |dirty| == |slots|
    requires PatchedBy(b, c, slots, curr, lerp, dirty) && LerpsBuilt(f, slots, prev, curr, lerp, dirty)
    ensures Parse(c, esize, 0, 0) == slots
    ensures forall k :: 0 <= k < |slots| ==> Tracked(c, esize, slots[k])
  {
    ParseIsTracked(b, esize, slots);
    PatchIsSameShape(f, b, c, esize, slots, prev, curr, lerp, dirty);
    ParseIgnoresPayload(b, c, esize, 0, 0);
    ParseIsTracked(c, esize, slots);
  }

  lemma ParseIsTracked(b: seq<Byte>, esize: nat, slots: seq<Slot>)
    requires esize <= |b| && slots == Parse(b, esize, 0, 0)
    ensures forall k :: 0 <= k < |slots| ==> Tracked(b, esize, slots[k])
  {
    forall k | 0 <= k < |slots| ensures Tracked(b, esize, slots[k]) { SlotsInBounds(b, esize, 0, 0, k); }
  }
}

// Slots that are kept from one emission to the next: what the signature check
// settles, and what it leaves open.
module DlKept {
  import opened Wrappers
  import opened Bytes
  import opened GxParse
  import opened PayloadLerp
  import opened DlPatch

  // Slots as a parser makes them.
  predicate Legit(s: Slot) {
    match s.kind
    case TexMtx => s.off >= 5 && (s.nbytes == 32 || s.nbytes == 48) && IsTexMtxCmd(s.cmd, s.nbytes / 4)
    case XfCol2 => s.off >= 5 && s.nbytes == 8 && (s.cmd == 0x100C || s.cmd == 0x100A)
    case KCol2 => s.nbytes == 10 && s.cmd < 256 && IsTevReg(s.cmd)
    case Tev4 => s.nbytes == 20 && s.cmd < 256 && IsTevReg(s.cmd)
  }

  ghost predicate AllLegit(slots: seq<Slot>) { forall k :: 0 <= k < |slots| ==> Legit(slots[k]) }

  lemma {:induction false} ParsedIsLegit(b: seq<Byte>, esize: nat, o: nat, n: nat)
    requires o <= esize <= |b|
    ensures AllLegit(Parse(b, esize, o, n)) && n + |Parse(b, esize, o, n)| <= (if n > MAX_SLOTS then n else MAX_SLOTS)
    decreases esize - o
  {
    hide Parse;
    if o == esize || n >= MAX_SLOTS {
      ParseEnd(b, esize, o, n);
    } else {
      ParseStep(b, esize, o, n);
      match CommandAt(b, esize, o)
      case Stop =>
      case Skip(len) => ParsedIsLegit(b, esize, o + len, n);
      case Emit(s, len) =>
        ParsedIsLegit(b, esize, o + len, n + 1);
        assert Legit(s);
    }
  }

  // The bit that tells a konst colour from a TEV colour; no signature has it.
  predicate KindHolds(b: seq<Byte>, s: Slot)
    requires s.off + s.nbytes <= |b| && s.nbytes >= 8
  {
    IsXf(s) || (b[s.off + 2] >= 128 <==> s.kind == KCol2)
  }

  function End(s: Slot): nat { s.off + s.nbytes }

  // A command of this slot stands here exactly if signature and kind hold.
  lemma EmitIff(b: seq<Byte>, esize: nat, s: Slot)
    requires esize <= |b| && Legit(s) && InBounds(s, esize)
    ensures CommandAt(b, esize, Start(s)) == Emit(s, End(s) - Start(s)) <==> SigOk(b, s) && KindHolds(b, s)
  {}

  // From o the commands up to `to` carry no slot.
  predicate Skips(b: seq<Byte>, esize: nat, o: nat, to: nat)
    requires o <= esize <= |b|
    decreases esize - o
  {
    o == to ||
    (o < to && o < esize && CommandAt(b, esize, o).Skip? && Skips(b, esize, o + CommandAt(b, esize, o).len, to))
  }

  // From o on no slot is found; sixteen are never exceeded.
  predicate NoMore(b: seq<Byte>, esize: nat, o: nat, n: nat)
    requires o <= esize <= |b|
    decreases esize - o
  {
    o == esize || n >= MAX_SLOTS || CommandAt(b, esize, o).Stop? ||
    (CommandAt(b, esize, o).Skip? && NoMore(b, esize, o + CommandAt(b, esize, o).len, n))
  }

  ghost predicate PlacedFrom(slots: seq<Slot>, o: nat, esize: nat) {
    && (forall k :: 0 <= k < |slots| ==> InBounds(slots[k], esize) && o <= Start(slots[k]))
    && (forall j, k :: 0 <= j < k < |slots| ==> End(slots[j]) <= Start(slots[k]))
  }

  // Between the slots the stream steps from one to the next, and finds no
  // other slot behind the last.
  ghost predicate GapsIdle(b: seq<Byte>, esize: nat, o: nat, n: nat, slots: seq<Slot>)
    requires o <= esize <= |b| && PlacedFrom(slots, o, esize)
    decreases |slots|
  {
    if slots == [] then NoMore(b, esize, o, n)
    else Skips(b, esize, o, Start(slots[0])) && GapsIdle(b, esize, End(slots[0]), n + 1, slots[1..])
  }

  ghost predicate AllIn(slots: seq<Slot>, esize: nat) {
    forall k {:trigger slots[k]} :: 0 <= k < |slots| ==> InBounds(slots[k], esize)
  }

  ghost predicate AllHold(b: seq<Byte>, slots: seq<Slot>, esize: nat)
    requires esize <= |b| && AllIn(slots, esize)
  {
    forall k :: 0 <= k < |slots| ==> SigOk(b, slots[k]) && KindHolds(b, slots[k])
  }

  lemma {:induction false} SkipsLead(b: seq<Byte>, esize: nat, o: nat, to: nat, n: nat)
    requires o <= to <= esize <= |b| && n < MAX_SLOTS && Skips(b, esize, o, to)
    ensures Parse(b, esize, o, n) == Parse(b, esize, to, n)
    decreases esize - o
  {
    hide CommandAt;
    hide Parse;
    if o < to {
      ParseStep(b, esize, o, n);
      SkipsEnd(b, esize, o + CommandAt(b, esize, o).len, to);
      SkipsLead(b, esize, o + CommandAt(b, esize, o).len, to, n);
    }
  }

  lemma SkipsEnd(b: seq<Byte>, esize: nat, o: nat, to: nat)
    requires o <= esize <= |b| && Skips(b, esize, o, to)
    ensures o <= to
  {
    hide CommandAt;
  }

  // The first slot of a parse, and the commands before it.
  lemma {:induction false} FirstSlot(b: seq<Byte>, esize: nat, o: nat, n: nat)
    requires o <= esize <= |b| && Parse(b, esize, o, n) != []
    ensures n < MAX_SLOTS
    ensures var s := Parse(b, esize, o, n)[0];
      && InBounds(s, esize) && o <= Start(s) && Skips(b, esize, o, Start(s))
      && CommandAt(b, esize, Start(s)) == Emit(s, End(s) - Start(s))
      && Parse(b, esize, o, n)[1..] == Parse(b, esize, End(s), n + 1)
    decreases esize - o
  {
    SlotsInBounds(b, esize, o, n, 0);
    ParseMore(b, esize, o, n, 0);
    hide Parse;
    hide CommandAt;
    if CommandAt(b, esize, o).Skip? { FirstSlot(b, esize, o + CommandAt(b, esize, o).len, n); }
  }

  lemma {:induction false} NoMoreIff(b: seq<Byte>, esize: nat, o: nat, n: nat)
    requires o <= esize <= |b|
    ensures NoMore(b, esize, o, n) <==> Parse(b, esize, o, n) == []
    decreases esize - o
  {
    hide CommandAt;
    hide Parse;
    if o == esize || n >= MAX_SLOTS {
      ParseEnd(b, esize, o, n);
    } else {
      ParseStep(b, esize, o, n);
      if CommandAt(b, esize, o).Skip? { NoMoreIff(b, esize, o + CommandAt(b, esize, o).len, n); }
    }
  }

  lemma PlacedRest(slots: seq<Slot>, o: nat, esize: nat)
    requires PlacedFrom(slots, o, esize) && slots != [] && AllLegit(slots)
    ensures End(slots[0]) <= esize && PlacedFrom(slots[1..], End(slots[0]), esize) && AllLegit(slots[1..])
  {
    assert forall k :: 0 <= k < |slots[1..]| ==> slots[1..][k] == slots[k + 1];
  }

  lemma AllHoldCons(b: seq<Byte>, slots: seq<Slot>, esize: nat)
    requires esize <= |b| && slots != [] && AllIn(slots, esize)
    ensures AllIn(slots[1..], esize)
    ensures AllHold(b, slots, esize) <==> SigOk(b, slots[0]) && KindHolds(b, slots[0]) && AllHold(b, slots[1..], esize)
  {
    assert forall k :: 0 <= k < |slots[1..]| ==> slots[1..][k] == slots[k + 1];
    if SigOk(b, slots[0]) && KindHolds(b, slots[0]) && AllHold(b, slots[1..], esize) {
      forall k | 0 <= k < |slots| ensures SigOk(b, slots[k]) && KindHolds(b, slots[k]) {
        if k > 0 { assert SigOk(b, slots[1..][k - 1]) && KindHolds(b, slots[1..][k - 1]); }
      }
    }
  }

  // The exact condition on a new emission: kept slots are its parse if and
  // only if every signature holds, every kind bit is the slot's, and the
  // commands between them carry no slot.
  lemma {:induction false} KeptSlotsParseIff(b: seq<Byte>, esize: nat, o: nat, n: nat, slots: seq<Slot>)
    requires o <= esize <= |b| && PlacedFrom(slots, o, esize) && AllLegit(slots) && n + |slots| <= MAX_SLOTS
    ensures AllIn(slots, esize)
    ensures Parse(b, esize, o, n) == slots <==> AllHold(b, slots, esize) && GapsIdle(b, esize, o, n, slots)
    decreases |slots|
  {
    if slots == [] {
      NoMoreIff(b, esize, o, n);
    } else {
      PlacedRest(slots, o, esize);
      AllHoldCons(b, slots, esize);
      KeptSlotsParseIff(b, esize, End(slots[0]), n + 1, slots[1..]);
      FirstKept(b, esize, o, n, slots);
      hide *;
      GapsIdleCons(b, esize, o, n, slots);
    }
  }

  lemma GapsIdleCons(b: seq<Byte>, esize: nat, o: nat, n: nat, slots: seq<Slot>)
    requires o <= esize <= |b| && PlacedFrom(slots, o, esize) && slots != [] && AllLegit(slots)
    ensures End(slots[0]) <= esize && PlacedFrom(slots[1..], End(slots[0]), esize) && Start(slots[0]) >= 0
    ensures GapsIdle(b, esize, o, n, slots) <==>
      Skips(b, esize, o, Start(slots[0])) && GapsIdle(b, esize, End(slots[0]), n + 1, slots[1..])
  {
    hide Skips;
    PlacedRest(slots, o, esize);
  }

  // The same for the first slot and whatever parses behind it.
  lemma FirstKept(b: seq<Byte>, esize: nat, o: nat, n: nat, slots: seq<Slot>)
    requires o <= esize <= |b| && PlacedFrom(slots, o, esize) && AllLegit(slots) && n + |slots| <= MAX_SLOTS
    requires slots != []
    ensures InBounds(slots[0], esize) && Start(slots[0]) >= 0
    ensures Parse(b, esize, o, n) == slots <==>
      && SigOk(b, slots[0]) && KindHolds(b, slots[0]) && Skips(b, esize, o, Start(slots[0]))
      && Parse(b, esize, End(slots[0]), n + 1) == slots[1..]
  {
    var s := slots[0];
    EmitIff(b, esize, s);
    hide CommandAt;
    hide Parse;
    hide SigOk;
    hide KindHolds;
    if Parse(b, esize, o, n) == slots { FirstSlot(b, esize, o, n); }
    if Skips(b, esize, o, Start(s)) && SigOk(b, s) && KindHolds(b, s) && Parse(b, esize, End(s), n + 1) == slots[1..] {
      SkipsLead(b, esize, o, Start(s), n);
      ParseStep(b, esize, Start(s), n);
      assert slots == [s] + slots[1..];
    }
  }

  // --- An emission that differs in slots only ----------------------------------

  // Outside the slots' commands nothing changed that a parse reads.
  ghost predicate SameGaps(b: seq<Byte>, c: seq<Byte>, esize: nat) {
    && |b| == |c| && esize <= |b|
    && forall i :: 0 <= i < esize && b[i] != c[i] ==>
         InCommands(Parse(b, esize, 0, 0), i) || InBody(b, esize, 0, 0, i)
  }

  ghost predicate InCommands(slots: seq<Slot>, i: int) {
    exists k :: 0 <= k < |slots| && Start(slots[k]) <= i < End(slots[k])
  }

  ghost predicate AllSigned(b: seq<Byte>, slots: seq<Slot>, esize: nat)
    requires esize <= |b| && AllIn(slots, esize)
  {
    forall k :: 0 <= k < |slots| ==> SigOk(b, slots[k])
  }

  lemma SignedHeadIsSame(b: seq<Byte>, c: seq<Byte>, esize: nat, s: Slot, i: nat)
    requires esize <= |b| == |c| && Legit(s) && InBounds(s, esize) && SigOk(b, s) && SigOk(c, s)
    requires Start(s) <= i < End(s) && b[i] != c[i]
    ensures PayloadAt(s, i)
  {
    if IsXf(s) {
      if i < s.off {
        assert i == s.off - 5 || i == s.off - 4 || i == s.off - 3 || i == s.off - 2 || i == s.off - 1;
        SameU16(b, c, s.off - 4);
        SameU16(b, c, s.off - 2);
      }
    } else {
      var j := i - s.off;
      assert j % 5 < 2 ==> j == 0 || j == 1 || j == 5 || j == 6 || j == 10 || j == 11 || j == 15 || j == 16;
    }
  }

  lemma SameU16(b: seq<Byte>, c: seq<Byte>, i: nat)
    requires i + 2 <= |b| && i + 2 <= |c|
    ensures U16(b, i) == U16(c, i) ==> b[i] == c[i] && b[i + 1] == c[i + 1]
  {}

  // Where the signatures hold in both, payload is all that differs.
  lemma SignedGapsArePlaces(b: seq<Byte>, c: seq<Byte>, esize: nat)
    requires SameGaps(b, c, esize)
    ensures AllIn(Parse(b, esize, 0, 0), esize)
    ensures AllSigned(c, Parse(b, esize, 0, 0), esize) ==> SamePlaces(b, c, esize, 0, 0)
  {
    hide InBody;
    hide SigOk;
    var slots := Parse(b, esize, 0, 0);
    ParsedIsLegit(b, esize, 0, 0);
    ParseIsTracked(b, esize, slots);
    if AllSigned(c, slots, esize) {
      forall i | 0 <= i < esize && b[i] != c[i] ensures Covered(slots, i) || InBody(b, esize, 0, 0, i) {
        if InCommands(slots, i) {
          var k :| 0 <= k < |slots| && Start(slots[k]) <= i < End(slots[k]);
          SignedHeadIsSame(b, c, esize, slots[k], i);
        }
      }
    }
  }

  // For such an emission whose signatures hold, the kind bits decide: the kept
  // slots are its parse if and only if every one of them is unchanged.
  lemma KindBitsDecide(b: seq<Byte>, c: seq<Byte>, esize: nat, slots: seq<Slot>)
    requires esize <= |b| == |c| && slots == Parse(b, esize, 0, 0) && SameGaps(b, c, esize)
    requires AllIn(slots, esize) && AllSigned(c, slots, esize)
    ensures Parse(c, esize, 0, 0) == slots <==> forall k :: 0 <= k < |slots| ==> KindHolds(c, slots[k])
  {
    hide SigOk;
    ParseIsTracked(b, esize, slots);
    SignedGapsArePlaces(b, c, esize);
    if Parse(c, esize, 0, 0) == slots { ParseIsTracked(c, esize, slots); }
    if forall k :: 0 <= k < |slots| ==> KindHolds(c, slots[k]) {
      assert SameKinds(b, c, slots);
      ParseIgnoresPayload(b, c, esize, 0, 0);
    }
  }

  // --- Slots of the right kind are parsed whatever the others are --------------

  // Behind a TEV quad whose bit is set: the pair is one slot, and the other two
  // commands are none.
  lemma QuadReadAsPair(c: seq<Byte>, esize: nat, s: Slot, m: nat)
    requires esize <= |c| && Legit(s) && s.kind == Tev4 && InBounds(s, esize) && SigOk(c, s) && !KindHolds(c, s)
    requires m + 1 < MAX_SLOTS
    ensures Parse(c, esize, s.off, m) == [Slot(s.off, s.cmd, 10, KCol2)] + Parse(c, esize, s.off + 20, m + 1)
  {
    hide Parse;
    ParseStep(c, esize, s.off, m);
    OddRegisterIsSkipped(c, esize, s.off + 10, m + 1, c[s.off + 1]);
    OddRegisterIsSkipped(c, esize, s.off + 15, m + 1, c[s.off + 1]);
  }

  // Behind a konst pair whose bit is clear: no slot, or a TEV quad over the two
  // commands behind it.
  lemma PairReadAsTev(c: seq<Byte>, esize: nat, s: Slot, m: nat)
    requires esize <= |c| && Legit(s) && s.kind == KCol2 && InBounds(s, esize) && SigOk(c, s) && !KindHolds(c, s)
    requires m < MAX_SLOTS
    ensures Parse(c, esize, s.off, m) ==
      if QuadAt(c, esize, s) then [Slot(s.off, s.cmd, 20, Tev4)] + Parse(c, esize, s.off + 20, m + 1)
      else Parse(c, esize, s.off + 10, m)
  {
    hide Parse;
    ParseStep(c, esize, s.off, m);
    if !QuadAt(c, esize, s) { OddRegisterIsSkipped(c, esize, s.off + 5, m, c[s.off + 1]); }
  }

  predicate QuadAt(c: seq<Byte>, esize: nat, s: Slot)
    requires esize <= |c|
  {
    s.off + 20 <= esize && BpAt(c, s.off + 10, s.cmd + 1) && BpAt(c, s.off + 15, s.cmd + 1)
  }

  // The same two commands carry no slot where the pair is a slot.
  lemma QuadTailIsSkipped(b: seq<Byte>, c: seq<Byte>, esize: nat, s: Slot, n: nat)
    requires esize <= |b| == |c| && Legit(s) && s.kind == KCol2 && QuadAt(c, esize, s) && n < MAX_SLOTS
    requires SamePlaces(b, c, esize, s.off + 10, n)
    ensures Parse(b, esize, s.off + 10, n) == Parse(b, esize, s.off + 20, n)
    ensures SamePlaces(b, c, esize, s.off + 20, n)
  {
    hide CommandAt;
    hide Parse;
    hide SamePlaces;
    var o := s.off + 10;
    var reg: Byte := s.cmd;
    HeadIsSame(b, c, esize, o, n);
    OddRegisterIsSkipped(b, esize, o, n, reg);
    PlacesOfRest(b, c, esize, o, n);
    HeadIsSame(b, c, esize, o + 5, n);
    OddRegisterIsSkipped(b, esize, o + 5, n, reg);
    PlacesOfRest(b, c, esize, o + 5, n);
  }

  // A slot of the old parse whose kind bit is right is a slot of the new one.
  lemma {:induction false} HeldSlotIsParsed(b: seq<Byte>, c: seq<Byte>, esize: nat, o: nat, n: nat, m: nat, s: Slot)
    requires o <= esize <= |b| && m <= n && SamePlaces(b, c, esize, o, n)
    requires AllIn(Parse(b, esize, o, n), esize) && AllSigned(c, Parse(b, esize, o, n), esize)
    requires s in Parse(b, esize, o, n) && KindHolds(c, s)
    ensures s in Parse(c, esize, o, m)
    decreases esize - o
  {
    hide CommandAt;
    hide Parse;
    hide SigOk;
    hide KindHolds;
    hide SamePlaces;
    hide AllSigned;
    hide QuadAt;
    var k :| 0 <= k < |Parse(b, esize, o, n)| && Parse(b, esize, o, n)[k] == s;
    ParseMore(b, esize, o, n, k);
    ParseStep(b, esize, o, n);
    SameLength(b, c, esize, o, n);
    ParseStep(c, esize, o, m);
    PlacesOfRest(b, c, esize, o, n);
    match CommandAt(b, esize, o)
    case Stop =>
    case Skip(len) =>
      SkippedCommand(b, c, esize, o, n);
      HeldSlotIsParsed(b, c, esize, o + len, n, m, s);
    case Emit(t, len) =>
      var rest := Parse(b, esize, o + len, n + 1);
      AllSignedCons(c, t, rest, esize);
      EmittedIsLegit(b, esize, o);
      if KindHolds(c, t) {
        EmitIff(c, esize, t);
        if s != t { HeldSlotIsParsed(b, c, esize, o + len, n + 1, m + 1, s); }
      } else {
        HeldBehindMisread(b, c, esize, t, n, m, s);
        if t.kind == Tev4 {
          HeldSlotIsParsed(b, c, esize, o + 20, n + 1, m + 1, s);
        } else if QuadAt(c, esize, t) {
          HeldSlotIsParsed(b, c, esize, o + 20, n + 1, m + 1, s);
        } else {
          HeldSlotIsParsed(b, c, esize, o + 10, n + 1, m, s);
        }
      }
  }

  lemma SameLength(b: seq<Byte>, c: seq<Byte>, esize: nat, o: nat, n: nat)
    requires o <= esize <= |b| && SamePlaces(b, c, esize, o, n)
    ensures |b| == |c|
  {}

  lemma EmittedIsLegit(b: seq<Byte>, esize: nat, o: nat)
    requires o < esize <= |b| && CommandAt(b, esize, o).Emit?
    ensures var Emit(s, len) := CommandAt(b, esize, o);
      && Legit(s) && InBounds(s, esize) && Start(s) == o && End(s) == o + len
  {}

  lemma AllSignedCons(c: seq<Byte>, s: Slot, rest: seq<Slot>, esize: nat)
    requires esize <= |c| && AllIn([s] + rest, esize) && AllSigned(c, [s] + rest, esize)
    ensures InBounds(s, esize) && AllIn(rest, esize) && SigOk(c, s) && AllSigned(c, rest, esize)
  {
    hide SigOk;
    var p := [s] + rest;
    assert p[0] == s && forall k :: 0 <= k < |rest| ==> p[k + 1] == rest[k];
  }

  // Where the parses go on behind a slot that is read as another kind.
  lemma HeldBehindMisread(b: seq<Byte>, c: seq<Byte>, esize: nat, t: Slot, n: nat, m: nat, s: Slot)
    requires esize <= |b| == |c| && Legit(t) && InBounds(t, esize) && SigOk(c, t) && !KindHolds(c, t)
    requires m <= n < MAX_SLOTS && SamePlaces(b, c, esize, End(t), n + 1) && s in Parse(b, esize, End(t), n + 1)
    ensures t.kind == Tev4 || t.kind == KCol2
    ensures t.kind == Tev4 || QuadAt(c, esize, t) ==>
      && t.off + 20 <= esize && SamePlaces(b, c, esize, t.off + 20, n + 1)
      && Parse(b, esize, t.off + 20, n + 1) == Parse(b, esize, End(t), n + 1)
      && Parse(c, esize, t.off, m)[1..] == Parse(c, esize, t.off + 20, m + 1) && Parse(c, esize, t.off, m) != []
    ensures t.kind == KCol2 && !QuadAt(c, esize, t) ==>
      Parse(c, esize, t.off, m) == Parse(c, esize, t.off + 10, m)
  {
    hide Parse;
    hide SigOk;
    hide SamePlaces;
    assert n + 1 < MAX_SLOTS by { if n + 1 >= MAX_SLOTS { ParseEnd(b, esize, End(t), n + 1); } }
    if t.kind == Tev4 {
      QuadReadAsPair(c, esize, t, m);
    } else {
      PairReadAsTev(c, esize, t, m);
      if QuadAt(c, esize, t) { QuadTailIsSkipped(b, c, esize, t, n + 1); }
    }
  }

  // --- A kind bit that changed -------------------------------------------------

  // A konst pair is followed by a TEV quad of the same registers, emitted at
  // the same size: the signature holds, the slot is kept, and at any alpha its
  // patch turns the TEV colour into a konst colour.
  const KONST_PAIR: seq<Byte> :=
    [0x61, 0xE0, 0x80, 0, 1, 0x61, 0xE1, 0x80, 0, 0, 0, 0, 0, 0, 0, 0, 0, 0, 0, 0]
  const TEV_QUAD: seq<Byte> :=
    [0x61, 0xE0, 0, 0, 2, 0x61, 0xE1, 0, 0, 0, 0x61, 0xE1, 0, 0, 0, 0x61, 0xE1, 0, 0, 0]
  const KEPT := Slot(0, 0xE0, 10, KCol2)

  lemma {:induction false} NopsParseToNothing(b: seq<Byte>, esize: nat, o: nat, n: nat)
    requires o <= esize <= |b| && forall i :: o <= i < esize ==> b[i] == NOP
    ensures Parse(b, esize, o, n) == []
    decreases esize - o
  {
    hide Parse;
    if o == esize || n >= MAX_SLOTS {
      ParseEnd(b, esize, o, n);
    } else {
      ParseStep(b, esize, o, n);
      NopsParseToNothing(b, esize, o + 1, n);
    }
  }

  lemma FirstCommands()
    ensures CommandAt(KONST_PAIR, 20, 0) == Emit(KEPT, 10)
    ensures CommandAt(TEV_QUAD, 20, 0) == Emit(Slot(0, 0xE0, 20, Tev4), 20)
    ensures SigOk(KONST_PAIR, KEPT) && SigOk(TEV_QUAD, KEPT) && !KindHolds(TEV_QUAD, KEPT)
  {}

  lemma WitnessParses()
    ensures Parse(KONST_PAIR, 20, 0, 0) == [KEPT] && Parse(TEV_QUAD, 20, 0, 0) == [Slot(0, 0xE0, 20, Tev4)]
  {
    FirstCommands();
    assert forall i :: 10 <= i < 20 ==> KONST_PAIR[i] == NOP;
    hide CommandAt;
    NopsParseToNothing(KONST_PAIR, 20, 10, 1);
    ParseEnd(TEV_QUAD, 20, 20, 1);
    hide Parse;
    ParseStep(KONST_PAIR, 20, 0, 0);
    ParseStep(TEV_QUAD, 20, 0, 0);
  }

  lemma FirstDecidesParse(b: seq<Byte>)
    requires |b| == 20 && CommandAt(b, 20, 0) == Emit(KEPT, 10)
    ensures Parse(b, 20, 0, 0) != [Slot(0, 0xE0, 20, Tev4)]
  {
    hide CommandAt;
    hide Parse;
    ParseStep(b, 20, 0, 0);
    assert Parse(b, 20, 0, 0)[0] == KEPT;
  }

  lemma PatchMakesKonst(r: seq<Byte>)
    requires |r| == 10 && r[1] == 0xE0 && r[2] >= 128 && r[6] == 0xE1
    ensures CommandAt(SpanWrite(TEV_QUAD, KEPT, r), 20, 0) == Emit(KEPT, 10)
  {
    var patched := SpanWrite(TEV_QUAD, KEPT, r);
    assert patched[0] == 0x61 && patched[1] == 0xE0 && patched[2] == r[2] && patched[5] == 0x61 && patched[6] == 0xE1;
  }

  lemma SignaturesMissKind(alpha: real)
    ensures Parse(KONST_PAIR, 20, 0, 0) == [KEPT] && SigOk(TEV_QUAD, KEPT)
    ensures Parse(TEV_QUAD, 20, 0, 0) == [Slot(0, 0xE0, 20, Tev4)]
    ensures Span(KONST_PAIR, KEPT) != Span(TEV_QUAD, KEPT)
    ensures var patched := SpanWrite(TEV_QUAD, KEPT, KonstBytes(Span(KONST_PAIR, KEPT), Span(TEV_QUAD, KEPT), alpha));
      Parse(patched, 20, 0, 0) != Parse(TEV_QUAD, 20, 0, 0)
  {
    hide CommandAt;
    hide Parse;
    FirstCommands();
    WitnessParses();
    var prev, curr := Span(KONST_PAIR, KEPT), Span(TEV_QUAD, KEPT);
    assert prev[4] == 1 && curr[4] == 2 && curr[1] == 0xE0 && curr[6] == 0xE1;
    var r := KonstBytes(prev, curr, alpha);
    PatchMakesKonst(r);
    FirstDecidesParse(SpanWrite(TEV_QUAD, KEPT, r));
  }

  // --- What a record knows of its display list ---------------------------------

  // One emission: the buffer's bytes, how many of them were written, and the
  // capacity of the display-list object.
  datatype Emission = Emission(bytes: seq<Byte>, size: nat, capacity: nat)

  datatype Known = Known(slots: seq<Slot>, esize: nat, limit: nat)

  ghost predicate Fit(k: Known) {
    k.limit <= k.esize && WellPlaced(k.slots, k.limit) && AllLegit(k.slots) && |k.slots| <= MAX_SLOTS
  }

  // Same size and every signature in place.
  ghost predicate Keeps(k: Known, e: Emission)
    requires Fit(k) && e.size <= |e.bytes|
  {
    k.esize == e.size && forall j :: 0 <= j < |k.slots| ==> SigOk(e.bytes, k.slots[j])
  }

  ghost function See(k: Known, e: Emission): (r: Known)
    requires Fit(k) && e.size <= |e.bytes|
    ensures Fit(r) && r.limit <= |e.bytes|
  {
    if Keeps(k, e) then k
    else
      var limit := ParseLimit(|e.bytes|, e.size, e.capacity);
      ParseIsWellPlaced(e.bytes, limit);
      ParsedIsLegit(e.bytes, limit, 0, 0);
      Known(Parse(e.bytes, limit, 0, 0), e.size, limit)
  }

  // The spans of one emission.
  ghost predicate SpansOf(b: seq<Byte>, slots: seq<Slot>, spans: seq<seq<Byte>>)
    requires WellPlaced(slots, |b|)
  {
    |spans| == |slots| && forall k :: 0 <= k < |slots| ==> spans[k] == Span(b, slots[k])
  }

  // What a repaint shows: the emission with every slot interpolated from the
  // emission before, or the plain emission where there is none to come from.
  ghost predicate ShownAs(f: FloatFormat, slots: seq<Slot>, kept: bool, last: seq<Byte>, now: seq<Byte>, alpha: real,
                          shown: seq<Byte>)
    requires f.Valid() && WellPlaced(slots, |now|) && (kept ==> WellPlaced(slots, |last|))
  {
    && SameOutside(now, shown, slots)
    && forall k {:trigger slots[k]} :: 0 <= k < |slots| ==>
         Span(shown, slots[k]) ==
           if kept && 0.0 < alpha < 1.0 then
             BuildLerp(f, slots[k], Span(last, slots[k]), Span(now, slots[k]), alpha).lerp
           else Span(now, slots[k])
  }

  lemma PatchShows(f: FloatFormat, slots: seq<Slot>, kept: bool, last: seq<Byte>, now: seq<Byte>, alpha: real,
                   shown: seq<Byte>, hasPrev: seq<bool>, prev: seq<seq<Byte>>, curr: seq<seq<Byte>>,
                   lerp: seq<seq<Byte>>, dirty: seq<bool>)
    requires f.Valid() && Pairs(slots, hasPrev, prev, curr) && WellPlaced(slots, |now|) && |lerp| == |dirty| == |slots|
    requires SpansOf(now, slots, curr) && forall k :: 0 <= k < |slots| ==> hasPrev[k] == kept
    requires kept ==> WellPlaced(slots, |last|) && SpansOf(last, slots, prev)
    requires PatchedBy(now, shown, slots, curr, lerp, dirty)
    requires PatchedExactly(f, slots, hasPrev, prev, curr, now, alpha, lerp, dirty, |slots|)
    ensures ShownAs(f, slots, kept, last, now, alpha, shown)
  {
    forall k | 0 <= k < |slots|
      ensures Span(shown, slots[k]) ==
        if kept && 0.0 < alpha < 1.0 then
          BuildLerp(f, slots[k], Span(last, slots[k]), Span(now, slots[k]), alpha).lerp
        else Span(now, slots[k])
    {
      assert dirty[k] || !dirty[k];
    }
  }

  // --- Which repaints keep the structure of a list -------------------------------

  // Does a repaint write this slot?
  ghost predicate Patches(f: FloatFormat, s: Slot, kept: bool, last: seq<Byte>, now: seq<Byte>, alpha: real)
    requires f.Valid() && InBounds(s, |now|) && (kept ==> InBounds(s, |last|))
  {
    kept && 0.0 < alpha < 1.0 && BuildLerp(f, s, Span(last, s), Span(now, s), alpha).changed
  }

  // The same bytes in a span are the same bytes in the list.
  lemma SpanByte(b: seq<Byte>, c: seq<Byte>, s: Slot, i: nat)
    requires |b| == |c| && s.off + s.nbytes <= |b| && InSpan(s, i)
    ensures Span(b, s)[i - s.off] == Span(c, s)[i - s.off] <==> b[i] == c[i]
  {
    SpanAt(b, s, i);
    SpanAt(c, s, i);
  }

  // The word before a span belongs to no other span.
  lemma HeaderIsKept(b: seq<Byte>, c: seq<Byte>, slots: seq<Slot>, k: nat, i: nat)
    requires WellPlaced(slots, |b|) && SameOutside(b, c, slots) && k < |slots| && Start(slots[k]) <= i < slots[k].off
    ensures b[i] == c[i]
  {
    forall j | 0 <= j < |slots| ensures !InSpan(slots[j], i) {
      if j < k {
        assert slots[j].off + slots[j].nbytes <= Start(slots[k]);
      } else if k < j {
        assert slots[k].off + slots[k].nbytes <= Start(slots[j]);
      }
    }
  }

  // What a repaint does to one slot: its signature stays, a patched slot has
  // its kind, and only the payload of a patched slot changes.
  lemma ShownSlot(f: FloatFormat, slots: seq<Slot>, kept: bool, last: seq<Byte>, now: seq<Byte>, alpha: real,
                  shown: seq<Byte>, k: nat)
    requires f.Valid() && WellPlaced(slots, |now|) && (kept ==> WellPlaced(slots, |last|)) && k < |slots|
    requires ShownAs(f, slots, kept, last, now, alpha, shown) && SigOk(now, slots[k])
    ensures |shown| == |now| && InBounds(slots[k], |now|) && (kept ==> InBounds(slots[k], |last|))
    ensures SigOk(shown, slots[k])
    ensures var s := slots[k];
      && (Patches(f, s, kept, last, now, alpha) ==> KindHolds(shown, s))
      && forall i :: InSpan(s, i) && now[i] != shown[i] ==> Patches(f, s, kept, last, now, alpha) && PayloadAt(s, i)
  {
    var s := slots[k];
    if IsXf(s) {
      forall i | Start(s) <= i < s.off ensures now[i] == shown[i] { HeaderIsKept(now, shown, slots, k, i); }
      assert Span(shown, s) != Span(now, s) ==> Patches(f, s, kept, last, now, alpha);
      forall i | InSpan(s, i) && now[i] != shown[i] ensures Patches(f, s, kept, last, now, alpha) {
        SpanByte(now, shown, s, i);
      }
    } else if Patches(f, s, kept, last, now, alpha) {
      PatchedCommands(f, s, Span(last, s), now, alpha, shown);
    } else {
      assert Span(shown, s) == Span(now, s);
      forall i | InSpan(s, i) ensures now[i] == shown[i] { SpanByte(now, shown, s, i); }
    }
  }

  lemma PatchedCommands(f: FloatFormat, s: Slot, prev: seq<Byte>, now: seq<Byte>, alpha: real, shown: seq<Byte>)
    requires f.Valid() && InBounds(s, |now|) && |shown| == |now| && !IsXf(s) && |prev| == s.nbytes && SigOk(now, s)
    requires BuildLerp(f, s, prev, Span(now, s), alpha).changed
    requires Span(shown, s) == BuildLerp(f, s, prev, Span(now, s), alpha).lerp
    ensures SigOk(shown, s) && KindHolds(shown, s)
    ensures forall i :: InSpan(s, i) && now[i] != shown[i] ==> PayloadAt(s, i)
  {
    hide SigOk;
    hide BuildLerp;
    QuadRegisters(now, s);
    LerpForcesKind(f, s, prev, Span(now, s), alpha);
    hide Spans;
    forall i | InSpan(s, i) && (i - s.off) % 5 < 2 ensures now[i] == shown[i] { SpanByte(now, shown, s, i); }
    SpanAt(shown, s, s.off + 2);
    HeadsSign(now, shown, s);
  }

  lemma QuadRegisters(b: seq<Byte>, s: Slot)
    requires InBounds(s, |b|) && SigOk(b, s)
    ensures s.kind == Tev4 ==> Span(b, s)[11] == Span(b, s)[6] && Span(b, s)[16] == Span(b, s)[6]
  {
    if s.kind == Tev4 {
      SpanAt(b, s, s.off + 6);
      SpanAt(b, s, s.off + 11);
      SpanAt(b, s, s.off + 16);
    }
  }

  lemma HeadsSign(b: seq<Byte>, c: seq<Byte>, s: Slot)
    requires InBounds(s, |b|) && |c| == |b| && !IsXf(s) && SigOk(b, s)
    requires forall i :: InSpan(s, i) && (i - s.off) % 5 < 2 ==> b[i] == c[i]
    ensures SigOk(c, s)
  {
    var o := s.off;
    assert b[o] == c[o] && b[o + 1] == c[o + 1] && b[o + 5] == c[o + 5] && b[o + 6] == c[o + 6];
    if s.kind == Tev4 {
      assert b[o + 10] == c[o + 10] && b[o + 11] == c[o + 11] && b[o + 15] == c[o + 15] && b[o + 16] == c[o + 16];
    }
  }

  ghost predicate PatchedHold(f: FloatFormat, slots: seq<Slot>, kept: bool, last: seq<Byte>, now: seq<Byte>,
                              alpha: real)
    requires f.Valid() && AllIn(slots, |now|) && (kept ==> AllIn(slots, |last|))
  {
    forall k :: 0 <= k < |slots| && Patches(f, slots[k], kept, last, now, alpha) ==> KindHolds(now, slots[k])
  }

  // Slots that were the parse of some emission, a later one that changed in
  // their commands alone, and a repaint of it.
  datatype Repaint = Repaint(slots: seq<Slot>, limit: nat, parsed: seq<Byte>, kept: bool, last: seq<Byte>,
                             now: seq<Byte>, alpha: real, shown: seq<Byte>) {
    ghost predicate Valid(f: FloatFormat)
      requires f.Valid()
    {
      && SameGaps(parsed, now, limit) && slots == Parse(parsed, limit, 0, 0) && WellPlaced(slots, limit)
      && AllIn(slots, limit) && AllSigned(now, slots, limit) && (kept ==> limit <= |last|)
      && ShownAs(f, slots, kept, last, now, alpha, shown)
    }
  }

  // A repaint keeps the parse of its emission if and only if every slot it
  // patches has its kind bit.
  lemma RepaintKeepsParseIff(f: FloatFormat, r: Repaint)
    requires f.Valid() && r.Valid(f)
    ensures |r.shown| == |r.now| && AllIn(r.slots, |r.now|) && (r.kept ==> AllIn(r.slots, |r.last|))
    ensures Parse(r.shown, r.limit, 0, 0) == Parse(r.now, r.limit, 0, 0)
       <==> PatchedHold(f, r.slots, r.kept, r.last, r.now, r.alpha)
  {
    RepaintIsSigned(f, r);
    if PatchedHold(f, r.slots, r.kept, r.last, r.now, r.alpha) {
      hide *;
      HoldingRepaintKeepsParse(f, r);
    } else {
      var k := FirstMisread(f, r);
      hide *;
      MisreadRepaintChangesParse(f, r, k);
    }
  }

  lemma RepaintIsSigned(f: FloatFormat, r: Repaint)
    requires f.Valid() && r.Valid(f)
    ensures |r.shown| == |r.now| && AllSigned(r.shown, r.slots, r.limit)
    ensures AllIn(r.slots, |r.now|) && (r.kept ==> AllIn(r.slots, |r.last|))
  {
    hide SigOk;
    hide BuildLerp;
    assert r.limit <= |r.now|;
    hide SameGaps;
    forall k | 0 <= k < |r.slots| ensures SigOk(r.shown, r.slots[k]) {
      ShownSlot(f, r.slots, r.kept, r.last, r.now, r.alpha, r.shown, k);
    }
  }

  // A patched slot of the wrong kind.
  ghost predicate Misread(f: FloatFormat, r: Repaint, k: int)
    requires f.Valid() && r.Valid(f)
  {
    RepaintIsSigned(f, r);
    && 0 <= k < |r.slots| && Patches(f, r.slots[k], r.kept, r.last, r.now, r.alpha) && !KindHolds(r.now, r.slots[k])
  }

  lemma FirstMisread(f: FloatFormat, r: Repaint) returns (k: nat)
    requires f.Valid() && r.Valid(f) && AllIn(r.slots, |r.now|) && (r.kept ==> AllIn(r.slots, |r.last|))
    requires !PatchedHold(f, r.slots, r.kept, r.last, r.now, r.alpha)
    ensures Misread(f, r, k)
  {
    hide Patches;
    hide KindHolds;
    hide SameGaps;
    hide ShownAs;
    k :| 0 <= k < |r.slots| && Patches(f, r.slots[k], r.kept, r.last, r.now, r.alpha)
         && !KindHolds(r.now, r.slots[k]);
  }

  // It is a slot of the repaint and of nothing that was emitted.
  lemma MisreadRepaintChangesParse(f: FloatFormat, r: Repaint, k: nat)
    requires f.Valid() && r.Valid(f) && Misread(f, r, k)
    ensures |r.shown| == |r.now| && Parse(r.shown, r.limit, 0, 0) != Parse(r.now, r.limit, 0, 0)
  {
    RepaintIsSigned(f, r);
    RepaintKeepsGaps(f, r);
    MisreadIsShown(f, r, k);
    var s := r.slots[k];
    hide *;
    SignedGapsArePlaces(r.parsed, r.shown, r.limit);
    HeldSlotIsParsed(r.parsed, r.shown, r.limit, 0, 0, 0, s);
    if s in Parse(r.now, r.limit, 0, 0) { ParsedHolds(r.now, r.limit, s); }
  }

  lemma MisreadIsShown(f: FloatFormat, r: Repaint, k: nat)
    requires f.Valid() && r.Valid(f) && Misread(f, r, k)
    ensures k < |r.slots| && r.slots[k] in Parse(r.parsed, r.limit, 0, 0) && InBounds(r.slots[k], r.limit)
    ensures |r.shown| == |r.now| && r.limit <= |r.now| && AllIn(Parse(r.parsed, r.limit, 0, 0), r.limit)
    ensures KindHolds(r.shown, r.slots[k]) && !KindHolds(r.now, r.slots[k])
    ensures AllSigned(r.shown, Parse(r.parsed, r.limit, 0, 0), r.limit)
  {
    hide SigOk;
    hide BuildLerp;
    RepaintIsSigned(f, r);
    ShownSlot(f, r.slots, r.kept, r.last, r.now, r.alpha, r.shown, k);
  }

  lemma ParsedHolds(b: seq<Byte>, limit: nat, s: Slot)
    requires limit <= |b| && s in Parse(b, limit, 0, 0)
    ensures InBounds(s, limit) && KindHolds(b, s)
  {
    hide Parse;
    ParseIsTracked(b, limit, Parse(b, limit, 0, 0));
  }

  lemma RepaintKeepsGaps(f: FloatFormat, r: Repaint)
    requires f.Valid() && r.Valid(f)
    ensures r.limit <= |r.parsed| && SameGaps(r.parsed, r.shown, r.limit)
  {
    hide BuildLerp;
    hide InBody;
    hide AllSigned;
    forall i | 0 <= i < r.limit && r.parsed[i] != r.shown[i]
      ensures InCommands(r.slots, i) || InBody(r.parsed, r.limit, 0, 0, i)
    {
      if r.now[i] != r.shown[i] {
        var k :| 0 <= k < |r.slots| && InSpan(r.slots[k], i);
        assert Start(r.slots[k]) <= i < End(r.slots[k]);
      }
    }
  }

  lemma HoldingRepaintKeepsParse(f: FloatFormat, r: Repaint)
    requires f.Valid() && r.Valid(f) && AllIn(r.slots, |r.now|) && (r.kept ==> AllIn(r.slots, |r.last|))
    requires PatchedHold(f, r.slots, r.kept, r.last, r.now, r.alpha) && |r.shown| == |r.now|
    ensures r.limit <= |r.now| && Parse(r.shown, r.limit, 0, 0) == Parse(r.now, r.limit, 0, 0)
  {
    assert r.limit <= |r.now|;
    var p := Parse(r.now, r.limit, 0, 0);
    hide *;
    forall i: nat | i < r.limit && r.now[i] != r.shown[i]
      ensures exists j :: 0 <= j < |p| && ChangedIn(p, r.now, r.shown, j, i)
    {
      var j := ByteOfHeldSlot(f, r, i);
    }
    ChangedInSlotsOnly(r.now, r.shown, r.limit);
  }

  lemma ByteOfHeldSlot(f: FloatFormat, r: Repaint, i: nat) returns (j: nat)
    requires f.Valid() && r.Valid(f) && AllIn(r.slots, |r.now|) && (r.kept ==> AllIn(r.slots, |r.last|))
    requires PatchedHold(f, r.slots, r.kept, r.last, r.now, r.alpha) && |r.shown| == |r.now|
    requires i < r.limit <= |r.now| && r.now[i] != r.shown[i]
    ensures j < |Parse(r.now, r.limit, 0, 0)| && ChangedIn(Parse(r.now, r.limit, 0, 0), r.now, r.shown, j, i)
  {
    var s := HeldSlotOf(f, r, i);
    GapsOf(f, r);
    hide *;
    SignedGapsArePlaces(r.parsed, r.now, r.limit);
    HeldSlotIsParsed(r.parsed, r.now, r.limit, 0, 0, 0, s);
    j := PlaceOf(Parse(r.now, r.limit, 0, 0), s, r.now, r.shown, i);
  }

  lemma GapsOf(f: FloatFormat, r: Repaint)
    requires f.Valid() && r.Valid(f)
    ensures SameGaps(r.parsed, r.now, r.limit) && AllIn(Parse(r.parsed, r.limit, 0, 0), r.limit)
    ensures AllSigned(r.now, Parse(r.parsed, r.limit, 0, 0), r.limit)
  {
    hide SameGaps;
    hide ShownAs;
    hide Parse;
  }

  lemma PlaceOf(p: seq<Slot>, s: Slot, b: seq<Byte>, c: seq<Byte>, i: nat) returns (j: nat)
    requires s in p && ChangedIn([s], b, c, 0, i)
    ensures j < |p| && ChangedIn(p, b, c, j, i)
  {
    j :| 0 <= j < |p| && p[j] == s;
  }

  // The slot that a changed byte is payload of.
  lemma HeldSlotOf(f: FloatFormat, r: Repaint, i: nat) returns (s: Slot)
    requires f.Valid() && r.Valid(f) && AllIn(r.slots, |r.now|) && (r.kept ==> AllIn(r.slots, |r.last|))
    requires PatchedHold(f, r.slots, r.kept, r.last, r.now, r.alpha) && |r.shown| == |r.now|
    requires i < r.limit <= |r.now| && r.now[i] != r.shown[i]
    ensures s in Parse(r.parsed, r.limit, 0, 0) && InBounds(s, r.limit) && KindHolds(r.now, s)
    ensures ChangedIn([s], r.now, r.shown, 0, i)
  {
    hide SigOk;
    hide Parse;
    hide BuildLerp;
    hide SameGaps;
    var k := SlotWithByte(r.slots, r.now, r.shown, i);
    ShownSlot(f, r.slots, r.kept, r.last, r.now, r.alpha, r.shown, k);
    s := r.slots[k];
  }

  lemma SlotWithByte(slots: seq<Slot>, b: seq<Byte>, c: seq<Byte>, i: nat) returns (k: nat)
    requires SameOutside(b, c, slots) && i < |b| && b[i] != c[i]
    ensures k < |slots| && InSpan(slots[k], i)
  {
    k :| 0 <= k < |slots| && InSpan(slots[k], i);
  }

  // Byte i changed as payload of slot j, which keeps its kind bit.
  ghost predicate ChangedIn(p: seq<Slot>, b: seq<Byte>, c: seq<Byte>, j: int, i: int)
    requires 0 <= j < |p|
  {
    PayloadAt(p[j], i) && (IsXf(p[j]) || p[j].off + 2 >= |b| || p[j].off + 2 >= |c|
                           || (b[p[j].off + 2] >= 128 <==> c[p[j].off + 2] >= 128))
  }

  lemma ChangedInSlotsOnly(b: seq<Byte>, c: seq<Byte>, limit: nat)
    requires limit <= |b| == |c|
    requires var p := Parse(b, limit, 0, 0);
      forall i :: 0 <= i < limit && b[i] != c[i] ==> exists j :: 0 <= j < |p| && ChangedIn(p, b, c, j, i)
    ensures Parse(c, limit, 0, 0) == Parse(b, limit, 0, 0)
  {
    hide Parse;
    var p := Parse(b, limit, 0, 0);
    forall i | 0 <= i < limit && b[i] != c[i] ensures Covered(p, i) {
      var j :| 0 <= j < |p| && ChangedIn(p, b, c, j, i);
    }
    forall k | 0 <= k < |p| && !IsXf(p[k]) && p[k].off + 2 < |b|
      ensures b[p[k].off + 2] >= 128 <==> c[p[k].off + 2] >= 128
    {
      SlotsInBounds(b, limit, 0, 0, k);
      var i := p[k].off + 2;
      if b[i] != c[i] {
        var j :| 0 <= j < |p| && ChangedIn(p, b, c, j, i);
        if j < k { SlotsDisjoint(b, limit, 0, 0, j, k); }
        if k < j { SlotsDisjoint(b, limit, 0, 0, k, j); }
      }
    }
    ParseIgnoresPayload(b, c, limit, 0, 0);
  }

  // What the signatures leave open.
  ghost predicate Faithful(k: Known, b: seq<Byte>)
    requires Fit(k) && k.limit <= |b|
  {
    && (forall j :: 0 <= j < |k.slots| ==> KindHolds(b, k.slots[j]))
    && GapsIdle(b, k.limit, 0, 0, k.slots)
  }

  // After a sighting the slots are the parse of the emission if and only if
  // the emission is faithful to them; after a fresh parse it always is.
  lemma SeenIsParseIff(k: Known, e: Emission)
    requires Fit(k) && e.size <= |e.bytes|
    ensures var r := See(k, e);
      && (r.slots == Parse(e.bytes, r.limit, 0, 0) <==> Faithful(r, e.bytes))
      && (!Keeps(k, e) ==> Faithful(r, e.bytes))
  {
    var r := See(k, e);
    KeptSlotsParseIff(e.bytes, r.limit, 0, 0, r.slots);
    if !Keeps(k, e) { ParseIsTracked(e.bytes, r.limit, r.slots); }
  }

  lemma SeenIsSigned(k: Known, e: Emission)
    requires Fit(k) && e.size <= |e.bytes|
    ensures var r := See(k, e); forall j :: 0 <= j < |r.slots| ==> SigOk(e.bytes, r.slots[j])
  {
    hide SigOk;
    hide Parse;
    var r := See(k, e);
    if !Keeps(k, e) { ParseIsTracked(e.bytes, r.limit, r.slots); }
  }

  lemma FaithfulHolds(k: Known, b: seq<Byte>)
    requires Fit(k) && k.limit <= |b| && forall j :: 0 <= j < |k.slots| ==> SigOk(b, k.slots[j])
    ensures AllIn(k.slots, k.limit) && (Faithful(k, b) ==> AllHold(b, k.slots, k.limit))
  {
    hide SigOk;
    hide GapsIdle;
  }

  // From one emission to the next: where the slots were the parse of the last
  // one and only their own commands changed, the kind bits decide.
  lemma StaysFaithfulIff(k: Known, last: seq<Byte>, e: Emission)
    requires Fit(k) && e.size <= |e.bytes| && Keeps(k, e) && k.limit <= |last| == |e.bytes|
    requires k.slots == Parse(last, k.limit, 0, 0) && SameGaps(last, e.bytes, k.limit)
    ensures Faithful(k, e.bytes) <==> forall j :: 0 <= j < |k.slots| ==> KindHolds(e.bytes, k.slots[j])
  {
    hide Parse;
    hide GapsIdle;
    hide SigOk;
    SeenIsParseIff(k, e);
    assert AllIn(k.slots, k.limit);
    KindBitsDecide(last, e.bytes, k.limit, k.slots);
  }

  // --- A run of ticks ----------------------------------------------------------

  // One logic tick: the emission that was sighted, if there was one; the buffer
  // it went to; whether the list stands in another buffer by the time of the
  // repaints; and the repaints.
  datatype Tick = Tick(e: Option<Emission>, second: bool, swapped: bool, alphas: seq<real>)

  // Does the record describe what the repaints of this tick draw?
  predicate Live(t: Tick) { t.e.Some? && !t.swapped }

  ghost predicate Sized(ticks: seq<Tick>) {
    forall i :: 0 <= i < |ticks| && ticks[i].e.Some? ==> ticks[i].e.value.size <= |ticks[i].e.value.bytes|
  }

  const NOTHING := Known([], 0, 0)

  // The latest emission of the first i ticks.
  function Before(ticks: seq<Tick>, i: nat): seq<Byte>
    requires i <= |ticks|
  {
    if i == 0 then [] else if ticks[i - 1].e.Some? then ticks[i - 1].e.value.bytes else Before(ticks, i - 1)
  }

  ghost function SeeTick(k: Known, t: Tick): (r: Known)
    requires Fit(k) && (t.e.Some? ==> t.e.value.size <= |t.e.value.bytes|)
    ensures Fit(r)
  {
    if t.e.Some? then See(k, t.e.value) else k
  }

  // What is known after the first i ticks.
  ghost function KnownAt(ticks: seq<Tick>, i: nat): (k: Known)
    requires Sized(ticks) && i <= |ticks|
    ensures Fit(k) && k.limit <= |Before(ticks, i)| && (i == 0 ==> k == NOTHING)
  {
    if i == 0 then NOTHING else SeeTick(KnownAt(ticks, i - 1), ticks[i - 1])
  }

  ghost predicate KeepsTick(k: Known, t: Tick)
    requires Fit(k) && (t.e.Some? ==> t.e.value.size <= |t.e.value.bytes|)
  {
    t.e.Some? && Keeps(k, t.e.value)
  }

  // Every repaint of a live tick shows this emission on its way from the one
  // before and, if the emission is faithful, has exactly its slots. In any
  // other tick the record's buffer is left as it was emitted.
  ghost predicate TickShown(f: FloatFormat, ticks: seq<Tick>, i: nat, frames: seq<seq<Byte>>)
    requires f.Valid() && Sized(ticks) && i < |ticks|
  {
    && |frames| == |ticks[i].alphas|
    && forall j :: 0 <= j < |frames| ==>
         if Live(ticks[i]) then
           RepaintShown(f, KnownAt(ticks, i + 1), KeepsTick(KnownAt(ticks, i), ticks[i]), Before(ticks, i),
                        Before(ticks, i + 1), ticks[i].alphas[j], frames[j])
         else frames[j] == Before(ticks, i + 1)
  }

  ghost predicate RunShown(f: FloatFormat, ticks: seq<Tick>, frames: seq<seq<seq<Byte>>>)
    requires f.Valid() && Sized(ticks)
  {
    |frames| <= |ticks| && forall i :: 0 <= i < |frames| ==> TickShown(f, ticks, i, frames[i])
  }

  // Tick i leaves the slots alone, is parsed afresh, or changes its slots' own
  // commands only and leaves their kind bits alone.
  ghost predicate Steady(ticks: seq<Tick>, i: nat)
    requires Sized(ticks) && i < |ticks|
  {
    var k := KnownAt(ticks, i);
    i > 0 && KeepsTick(k, ticks[i]) ==>
      var bytes := ticks[i].e.value.bytes;
      && |Before(ticks, i)| == |bytes| && SameGaps(Before(ticks, i), bytes, k.limit)
      && forall j :: 0 <= j < |k.slots| ==> KindHolds(bytes, k.slots[j])
  }

  lemma {:induction false} SteadyIsFaithful(ticks: seq<Tick>, i: nat)
    requires Sized(ticks) && i <= |ticks| && forall m :: 0 <= m < i ==> Steady(ticks, m)
    ensures Faithful(KnownAt(ticks, i), Before(ticks, i))
  {
    hide SigOk;
    hide SameGaps;
    if i > 0 {
      SteadyIsFaithful(ticks, i - 1);
      var k, t := KnownAt(ticks, i - 1), ticks[i - 1];
      if t.e.Some? {
        SeenIsParseIff(k, t.e.value);
        if i == 1 {
          NothingIsFaithful(t.e.value.bytes);
        } else if Keeps(k, t.e.value) {
          KnownIsParse(ticks, i - 1);
          hide Faithful;
          assert Steady(ticks, i - 1);
          StaysFaithfulIff(k, Before(ticks, i - 1), t.e.value);
        }
      }
    } else {
      NothingIsFaithful([]);
    }
  }

  lemma NothingIsFaithful(b: seq<Byte>)
    ensures Fit(NOTHING) && Faithful(NOTHING, b)
  {}

  // Slots that are faithful to the latest emission are its parse.
  lemma KnownIsParse(ticks: seq<Tick>, i: nat)
    requires Sized(ticks) && i <= |ticks| && Faithful(KnownAt(ticks, i), Before(ticks, i))
    ensures KnownAt(ticks, i).slots == Parse(Before(ticks, i), KnownAt(ticks, i).limit, 0, 0)
    decreases i
  {
    hide Faithful;
    hide Keeps;
    hide See;
    hide Parse;
    if i == 0 {
      ParseEnd([], 0, 0, 0);
    } else if ticks[i - 1].e.Some? {
      SeenIsParseIff(KnownAt(ticks, i - 1), ticks[i - 1].e.value);
    } else {
      KnownIsParse(ticks, i - 1);
    }
  }

  // Over a steady run every repaint has exactly the slots of its emission.
  lemma SteadyRunKeepsStructure(f: FloatFormat, ticks: seq<Tick>, frames: seq<seq<seq<Byte>>>, i: nat, j: nat)
    requires f.Valid() && Sized(ticks) && RunShown(f, ticks, frames) && i < |frames| && j < |frames[i]|
    requires forall m :: 0 <= m <= i ==> Steady(ticks, m)
    ensures |frames[i][j]| == |Before(ticks, i + 1)|
    ensures var limit := KnownAt(ticks, i + 1).limit;
      Parse(frames[i][j], limit, 0, 0) == Parse(Before(ticks, i + 1), limit, 0, 0)
  {
    SteadyIsFaithful(ticks, i + 1);
    hide KnownAt;
    hide Before;
    hide KeepsTick;
    hide Faithful;
    hide Steady;
    hide Parse;
    assert TickShown(f, ticks, i, frames[i]);
  }

  // The emission that was parsed last.
  ghost function ParsedAt(ticks: seq<Tick>, i: nat): seq<Byte>
    requires Sized(ticks) && i <= |ticks|
  {
    if i == 0 then []
    else if ticks[i - 1].e.Some? && !Keeps(KnownAt(ticks, i - 1), ticks[i - 1].e.value) then
      ticks[i - 1].e.value.bytes
    else ParsedAt(ticks, i - 1)
  }

  lemma {:induction false} KnownIsOfParsed(ticks: seq<Tick>, i: nat)
    requires Sized(ticks) && i <= |ticks|
    ensures var k := KnownAt(ticks, i);
      k.limit <= |ParsedAt(ticks, i)| && k.slots == Parse(ParsedAt(ticks, i), k.limit, 0, 0)
  {
    hide Parse;
    hide Keeps;
    if i == 0 { ParseEnd([], 0, 0, 0); } else { KnownIsOfParsed(ticks, i - 1); }
  }

  // The main result on structure: in any run, where an emission differs from
  // the one its slots were parsed from in slot commands and unread bytes alone,
  // a repaint keeps its parse if and only if every slot it patches has its
  // kind bit.
  lemma RunKeepsParseIff(f: FloatFormat, ticks: seq<Tick>, frames: seq<seq<seq<Byte>>>, i: nat, j: nat)
    requires f.Valid() && Sized(ticks) && RunShown(f, ticks, frames) && i < |frames| && j < |frames[i]|
    requires Live(ticks[i]) && SameGaps(ParsedAt(ticks, i + 1), Before(ticks, i + 1), KnownAt(ticks, i + 1).limit)
    ensures var k, kept := KnownAt(ticks, i + 1), KeepsTick(KnownAt(ticks, i), ticks[i]);
      && |frames[i][j]| == |Before(ticks, i + 1)|
      && AllIn(k.slots, |Before(ticks, i + 1)|) && (kept ==> AllIn(k.slots, |Before(ticks, i)|))
      && (Parse(frames[i][j], k.limit, 0, 0) == Parse(Before(ticks, i + 1), k.limit, 0, 0)
          <==> PatchedHold(f, k.slots, kept, Before(ticks, i), Before(ticks, i + 1), ticks[i].alphas[j]))
  {
    var r := RepaintOf(f, ticks, frames, i, j);
    hide *;
    RepaintKeepsParseIff(f, r);
  }

  lemma RepaintOf(f: FloatFormat, ticks: seq<Tick>, frames: seq<seq<seq<Byte>>>, i: nat, j: nat) returns (r: Repaint)
    requires f.Valid() && Sized(ticks) && RunShown(f, ticks, frames) && i < |frames| && j < |frames[i]|
    requires Live(ticks[i]) && SameGaps(ParsedAt(ticks, i + 1), Before(ticks, i + 1), KnownAt(ticks, i + 1).limit)
    ensures r.Valid(f) && j < |ticks[i].alphas|
    ensures r == Repaint(KnownAt(ticks, i + 1).slots, KnownAt(ticks, i + 1).limit, ParsedAt(ticks, i + 1),
                         KeepsTick(KnownAt(ticks, i), ticks[i]), Before(ticks, i), Before(ticks, i + 1),
                         ticks[i].alphas[j], frames[i][j])
  {
    hide Parse;
    hide ParsedAt;
    hide SameGaps;
    hide ShownAs;
    hide Faithful;
    KnownIsOfParsed(ticks, i + 1);
    LiveIsSigned(ticks, i);
    assert TickShown(f, ticks, i, frames[i]);
    hide KeepsTick;
    var k := KnownAt(ticks, i + 1);
    r := Repaint(k.slots, k.limit, ParsedAt(ticks, i + 1), KeepsTick(KnownAt(ticks, i), ticks[i]),
                 Before(ticks, i), Before(ticks, i + 1), ticks[i].alphas[j], frames[i][j]);
    hide KnownAt;
    hide Before;
  }

  lemma LiveIsSigned(ticks: seq<Tick>, i: nat)
    requires Sized(ticks) && i < |ticks| && Live(ticks[i])
    ensures var k := KnownAt(ticks, i + 1);
      AllIn(k.slots, k.limit) && AllSigned(Before(ticks, i + 1), k.slots, k.limit)
  {
    hide SigOk;
    hide Keeps;
    hide See;
    SeenIsSigned(KnownAt(ticks, i), ticks[i].e.value);
  }

  ghost predicate RepaintShown(f: FloatFormat, r: Known, kept: bool, last: seq<Byte>, now: seq<Byte>, alpha: real,
                               shown: seq<Byte>)
    requires f.Valid() && Fit(r) && r.limit <= |now|
  {
    && (kept ==> r.limit <= |last|)
    && ShownAs(f, r.slots, kept, last, now, alpha, shown)
    && (Faithful(r, now) ==> r.slots == Parse(now, r.limit, 0, 0) == Parse(shown, r.limit, 0, 0))
  }
}

module DlTracker {
  import opened Wrappers
  import opened Bytes
  import opened Sequences
  import opened GxParse
  import opened PayloadLerp
  import opened DlPatch
  import opened DlKept

  // The parse loop.
  method TaParse(base: array<Byte>, emitted: nat, capacity: nat) returns (slots: seq<Slot>)
    ensures var limit := ParseLimit(base.Length, emitted, capacity);
      slots == Parse(base[..], limit, 0, 0) && |slots| <= MAX_SLOTS
  {
    hide CommandAt;
    hide Parse;
    var esize := ParseLimit(base.Length, emitted, capacity);
    var b := base[..];
    var o := 0;
    slots := [];
    while o < esize && |slots| < MAX_SLOTS
      invariant o <= esize && |slots| <= MAX_SLOTS
      invariant slots + Parse(b, esize, o, |slots|) == Parse(b, esize, 0, 0)
      decreases esize - o
    {
      var command := CommandAt(b, esize, o);
      ParseStep(b, esize, o, |slots|);
      if command.Stop? { return; }
      if command.Emit? {
        ghost var rest := Parse(b, esize, o + command.len, |slots| + 1);
        Assoc(slots, [command.slot], rest);
        slots := slots + [command.slot];
      }
      o := o + command.len;
    }
    ParseEnd(b, esize, o, |slots|);
  }

  // In-place write of one span, a word at a time.
  method TaSpanWrite(base: array<Byte>, s: Slot, src: seq<Byte>)
    requires InBounds(s, base.Length) && |src| == s.nbytes
    modifies base
    ensures base[..] == SpanWrite(old(base[..]), s, src)
  {
    if IsXf(s) { WriteWords(base, s, src); } else { WriteCommands(base, s, src); }
  }

  method WriteWords(base: array<Byte>, s: Slot, src: seq<Byte>)
    requires InBounds(s, base.Length) && |src| == s.nbytes && IsXf(s)
    modifies base
    ensures base[..] == SpanWrite(old(base[..]), s, src)
  {
    var i := 0;
    while i < s.nbytes
      invariant 0 <= i <= s.nbytes && i % 4 == 0
      invariant forall j :: 0 <= j < base.Length ==>
        base[j] == if s.off <= j < s.off + i then src[j - s.off] else old(base[j])
    {
      var a := s.off + i;
      base[a], base[a + 1], base[a + 2], base[a + 3] := src[i], src[i + 1], src[i + 2], src[i + 3];
      i := i + 4;
    }
  }

  // The words behind the opcodes of a run of BP commands.
  method WriteCommands(base: array<Byte>, s: Slot, src: seq<Byte>)
    requires InBounds(s, base.Length) && |src| == s.nbytes && !IsXf(s)
    modifies base
    ensures base[..] == SpanWrite(old(base[..]), s, src)
  {
    var n := if s.kind == Tev4 then 4 else 2;
    for i := 0 to n
      invariant forall j :: 0 <= j < base.Length ==>
        base[j] == if s.off <= j < s.off + i * 5 && (j - s.off) % 5 != 0 then src[j - s.off] else old(base[j])
    {
      var k := i * 5 + 1;
      var a := s.off + k;
      base[a], base[a + 1], base[a + 2], base[a + 3] := src[k], src[k + 1], src[k + 2], src[k + 3];
    }
  }

  method TaLargestJump(f: FloatFormat, prev: seq<Byte>, curr: seq<Byte>) returns (maxd: real)
    requires |prev| == |curr| && |curr| % 4 == 0
    ensures Teleports(f, prev, curr) <==> maxd > 64.0
  {
    maxd := 0.0;
    var i := 0;
    while i < |curr| / 4
      invariant 0 <= i <= |curr| / 4
      invariant forall j :: 0 <= j < i ==> Jump(f, prev, curr, j) <= maxd
      invariant maxd == 0.0 || exists j :: 0 <= j < i && Jump(f, prev, curr, j) == maxd
    {
      var ad := Jump(f, prev, curr, i);
      if ad > maxd { maxd := ad; }
      i := i + 1;
    }
  }

  method TaLerpMatrix(f: FloatFormat, prev: seq<Byte>, curr: seq<Byte>, alpha: real) returns (lerp: seq<Byte>)
    requires f.Valid() && |prev| == |curr| && |curr| % 4 == 0
    ensures lerp == TexMtxBytes(f, prev, curr, alpha, |curr| / 4)
  {
    lerp := curr;
    var i := 0;
    while i < |curr| / 4
      invariant 0 <= i <= |curr| / 4
      invariant lerp == TexMtxBytes(f, prev, curr, alpha, i)
    {
      ghost var before := lerp;
      lerp := PutWord(lerp, 4 * i, f.encode(LerpElement(f, prev, curr, alpha, i)));
      i := i + 1;
      assert TexMtxBytes(f, prev, curr, alpha, i)
          == PutWord(before, 4 * (i - 1), f.encode(LerpElement(f, prev, curr, alpha, i - 1)));
    }
  }

  method TaLerpColours(prev: seq<Byte>, curr: seq<Byte>, alpha: real) returns (lerp: seq<Byte>)
    requires |prev| == |curr| == 8
    ensures lerp == seq(8, i requires 0 <= i < 8 => LerpU8(prev[i], curr[i], alpha))
  {
    lerp := [];
    while |lerp| < 8
      invariant |lerp| <= 8
      invariant forall j :: 0 <= j < |lerp| ==> lerp[j] == LerpU8(prev[j], curr[j], alpha)
    {
      lerp := lerp + [LerpU8(prev[|lerp|], curr[|lerp|], alpha)];
    }
  }

  // Builds the interpolated span of one slot.
  method TaBuildLerp(f: FloatFormat, s: Slot, prev: seq<Byte>, curr: seq<Byte>, alpha: real)
    returns (changed: bool, lerp: seq<Byte>)
    requires f.Valid() && Spans(s, prev, curr)
    ensures Built(changed, lerp) == BuildLerp(f, s, prev, curr, alpha)
  {
    if prev == curr { return false, curr; }
    match s.kind {
      case TexMtx =>
        var jump := TaLargestJump(f, prev, curr);
        if jump > 64.0 { return false, curr; }
        lerp := TaLerpMatrix(f, prev, curr, alpha);
        changed := true;
      case XfCol2 =>
        lerp := TaLerpColours(prev, curr, alpha);
        changed := true;
      case KCol2 => changed, lerp := true, KonstBytes(prev, curr, alpha);
      case Tev4 => changed, lerp := true, TevBytes(prev, curr, alpha);
    }
  }

  method ReadSpans(buffer: array<Byte>, slots: seq<Slot>) returns (spans: seq<seq<Byte>>)
    requires forall k :: 0 <= k < |slots| ==> slots[k].off + slots[k].nbytes <= buffer.Length
    ensures |spans| == |slots|
    ensures forall k :: 0 <= k < |slots| ==> spans[k] == Span(buffer[..], slots[k])
  {
    spans := [];
    while |spans| < |slots|
      invariant |spans| <= |slots|
      invariant forall k :: 0 <= k < |spans| ==> spans[k] == Span(buffer[..], slots[k])
    {
      spans := spans + [Span(buffer[..], slots[|spans|])];
    }
  }

  ghost predicate AllSpans(slots: seq<Slot>, x: seq<seq<Byte>>, y: seq<seq<Byte>>) {
    |x| == |y| == |slots| && forall k :: 0 <= k < |slots| ==> Spans(slots[k], x[k], y[k])
  }

  lemma SpansOfPlaced(slots: seq<Slot>, spans: seq<seq<Byte>>, b: seq<Byte>, limit: nat)
    requires limit <= |b| && WellPlaced(slots, limit) && |spans| == |slots|
    requires forall k :: 0 <= k < |slots| ==> spans[k] == Span(b, slots[k])
    ensures AllSpans(slots, spans, spans)
  {}

  lemma FitPlaced(k: Known, size: nat)
    requires Fit(k) && k.limit <= size
    ensures WellPlaced(k.slots, size)
  {}

  lemma FitInside(k: Known, size: nat)
    requires Fit(k) && k.limit <= size
    ensures forall j :: 0 <= j < |k.slots| ==> k.slots[j].off + k.slots[j].nbytes <= size
  {}

  lemma SpansMeet(slots: seq<Slot>, x: seq<seq<Byte>>, y: seq<seq<Byte>>)
    requires AllSpans(slots, x, x) && AllSpans(slots, y, y)
    ensures AllSpans(slots, x, y)
  {}

  lemma SpansOfSecond(slots: seq<Slot>, x: seq<seq<Byte>>, y: seq<seq<Byte>>)
    requires AllSpans(slots, x, y)
    ensures AllSpans(slots, y, y)
  {}

  lemma SpansArePairs(slots: seq<Slot>, hasPrev: seq<bool>, x: seq<seq<Byte>>, y: seq<seq<Byte>>)
    requires AllSpans(slots, x, y) && |hasPrev| == |slots|
    ensures Pairs(slots, hasPrev, x, y)
  {}

  ghost predicate AllTracked(hasPrev: seq<bool>) { forall k :: 0 <= k < |hasPrev| ==> hasPrev[k] }

  // Do all stored signatures hold in a new emission?
  method SigsHold(buffer: array<Byte>, slots: seq<Slot>) returns (same: bool)
    requires WellPlaced(slots, buffer.Length)
    ensures same <==> forall k :: 0 <= k < |slots| ==> SigOk(buffer[..], slots[k])
  {
    same := true;
    var k := 0;
    while k < |slots| && same
      invariant 0 <= k <= |slots|
      invariant same ==> forall j :: 0 <= j < k ==> SigOk(buffer[..], slots[j])
      invariant !same ==> exists j :: 0 <= j < |slots| && !SigOk(buffer[..], slots[j])
    {
      same := SigOk(buffer[..], slots[k]);
      k := k + 1;
    }
  }

  // One tracked display list: the buffer the last emission went to, its
  // slots, and the three payload copies of each.
  class TaRecord {
    var base: array<Byte>
    var seenGen: nat
    var esize: nat
    var limit: nat
    var slots: seq<Slot>
    var hasPrev: seq<bool>
    var dirty: seq<bool>
    var prev: seq<seq<Byte>>
    var curr: seq<seq<Byte>>
    var lerp: seq<seq<Byte>>
    var injected: bool

    ghost predicate Valid()
      reads this, base
    {
      && limit <= base.Length && Fit(Value())
      && |hasPrev| == |dirty| == |prev| == |curr| == |lerp| == |slots|
      && AllSpans(slots, curr, curr) && AllSpans(slots, curr, lerp)
      && Pairs(slots, hasPrev, prev, curr)
      && (forall k :: 0 <= k < |slots| && dirty[k] ==> SameOpcodes(slots[k], curr[k], lerp[k]))
      && (!injected ==> Clean())
    }

    ghost function Value(): Known
      reads this
    {
      Known(slots, esize, limit)
    }

    ghost predicate Clean()
      reads this
    {
      forall k :: 0 <= k < |dirty| ==> !dirty[k]
    }

    constructor (buffer: array<Byte>)
      ensures Valid() && base == buffer && slots == [] && !injected && Value() == NOTHING && seenGen == 0
    {
      base, esize, limit, seenGen := buffer, 0, 0, 0;
      slots, hasPrev, dirty, prev, curr, lerp, injected := [], [], [], [], [], [], false;
    }

    // Parse of a freshly emitted list: first endpoints, no previous ones.
    method Reparse(buffer: array<Byte>, emitted: nat, capacity: nat)
      modifies this
      ensures Valid() && base == buffer && Clean() && !injected
      ensures limit == ParseLimit(buffer.Length, emitted, capacity) && esize == emitted
      ensures slots == Parse(base[..], limit, 0, 0)
      ensures forall k :: 0 <= k < |slots| ==> curr[k] == Span(base[..], slots[k]) && !hasPrev[k]
    {
      hide Parse;
      hide Legit;
      var found := TaParse(buffer, emitted, capacity);
      ghost var l := ParseLimit(buffer.Length, emitted, capacity);
      ParseIsWellPlaced(buffer[..], l);
      ParsedIsLegit(buffer[..], l, 0, 0);
      var spans := ReadSpans(buffer, found);
      SpansOfPlaced(found, spans, buffer[..], l);
      assert Fit(Known(found, emitted, l));
      hide Fit;
      hide AllSpans;
      hide ParseLimit;
      base, esize, limit, slots := buffer, emitted, ParseLimit(buffer.Length, emitted, capacity), found;
      prev, curr, lerp := spans, spans, spans;
      hasPrev, dirty := seq(|found|, _ => false), seq(|found|, _ => false);
      injected := false;
    }

    // A later emission. Same size and every signature in place: the slots are
    // kept and the endpoint pair moves on by one; otherwise parse afresh. The
    // slots are then the parse of the emission exactly if it is faithful.
    method Sight(buffer: array<Byte>, emitted: nat, capacity: nat, gen: nat)
      requires Valid() && emitted <= buffer.Length
      modifies this
      ensures Valid() && Clean() && !injected && base == buffer && seenGen == gen
      ensures var e := Emission(buffer[..], emitted, capacity);
        && Value() == See(old(Value()), e)
        && (if Keeps(old(Value()), e) then prev == old(curr) && AllTracked(hasPrev)
            else forall k :: 0 <= k < |slots| ==> !hasPrev[k])
      ensures forall k :: 0 <= k < |slots| ==> curr[k] == Span(base[..], slots[k])
      ensures slots == Parse(base[..], limit, 0, 0) <==> Faithful(Value(), base[..])
    {
      ghost var e := Emission(buffer[..], emitted, capacity);
      SeenIsParseIff(Value(), e);
      var same := esize == emitted;
      if same { same := SigsHold(buffer, slots); }
      assert same == Keeps(Value(), e);
      hide Keeps;
      hide Faithful;
      hide Parse;
      hide SigOk;
      if same { Advance(buffer); } else { Reparse(buffer, emitted, capacity); }
      seenGen := gen;
    }

    method Advance(buffer: array<Byte>)
      requires Valid() && limit <= buffer.Length
      modifies this
      ensures Valid() && Clean() && !injected && base == buffer && Value() == old(Value())
      ensures prev == old(curr) && AllTracked(hasPrev)
      ensures forall k :: 0 <= k < |slots| ==> curr[k] == Span(base[..], slots[k])
    {
      hide AllLegit;
      FitInside(Value(), buffer.Length);
      var spans := ReadSpans(buffer, slots);
      SpansOfPlaced(slots, spans, buffer[..], limit);
      SpansMeet(slots, curr, spans);
      SpansOfSecond(slots, curr, lerp);
      SpansMeet(slots, spans, lerp);
      SpansArePairs(slots, seq(|slots|, _ => true), curr, spans);
      hide Fit;
      hide AllSpans;
      hide Pairs;
      base := buffer;
      prev, curr := curr, spans;
      hasPrev, dirty := seq(|slots|, _ => true), seq(|slots|, _ => false);
      injected := false;
    }

    // Was the list sighted in this generation, and is the buffer it stands in
    // still the one that was sighted?
    predicate Current(gen: nat, current: array<Byte>)
      reads this
    {
      seenGen == gen && base == current
    }

    // R-frame: write the interpolated span of every slot whose bytes are
    // still this tick's emission, and of no other. A record that is not of
    // this generation or of the list's buffer is left alone.
    method RFrame(f: FloatFormat, alpha: real, gen: nat, current: array<Byte>)
      requires Valid() && Clean() && f.Valid()
      modifies this`lerp, this`dirty, this`injected, base
      ensures Valid()
      ensures PatchedBy(old(base[..]), base[..], slots, curr, lerp, dirty)
      ensures Current(gen, current) ==>
        PatchedExactly(f, slots, hasPrev, prev, curr, old(base[..]), alpha, lerp, dirty, |slots|)
      ensures !Current(gen, current) ==> Clean() && base[..] == old(base[..]) && injected == old(injected)
      ensures Faithful(Value(), old(base[..])) && AllHold(old(base[..]), slots, limit) ==>
        && slots == Parse(old(base[..]), limit, 0, 0) == Parse(base[..], limit, 0, 0)
        && AllHold(base[..], slots, limit)
    {
      ghost var before := base[..];
      if seenGen != gen || base != current {
        KeptSlotsParseIff(before, limit, 0, 0, slots);
        return;
      }
      PatchSlots(f, alpha);
      KeptSlotsParseIff(before, limit, 0, 0, slots);
      ExactIsBuilt(f, slots, hasPrev, prev, curr, before, alpha, lerp, dirty, |slots|);
      if slots == Parse(before, limit, 0, 0) {
        PatchKeepsStructure(f, before, base[..], limit, slots, prev, curr, lerp, dirty);
        KeptSlotsParseIff(base[..], limit, 0, 0, slots);
      }
    }

    method PatchSlots(f: FloatFormat, alpha: real)
      requires Valid() && Clean() && f.Valid()
      modifies this`lerp, this`dirty, this`injected, base
      ensures Valid()
      ensures PatchedBy(old(base[..]), base[..], slots, curr, lerp, dirty)
      ensures PatchedExactly(f, slots, hasPrev, prev, curr, old(base[..]), alpha, lerp, dirty, |slots|)
    {
      hide BuildLerp;
      hide AllLegit;
      ghost var before := base[..];
      if alpha <= 0.0 || alpha >= 1.0 { return; }
      var k := 0;
      while k < |slots|
        invariant 0 <= k <= |slots| && Valid()
        invariant PatchedBy(before, base[..], slots, curr, lerp, dirty)
        invariant PatchedExactly(f, slots, hasPrev, prev, curr, before, alpha, lerp, dirty, k)
      {
        PatchSlot(f, k, alpha, before);
        k := k + 1;
      }
    }

    method PatchSlot(f: FloatFormat, k: nat, alpha: real, ghost before: seq<Byte>)
      requires Valid() && f.Valid() && k < |slots| && |before| == base.Length && 0.0 < alpha < 1.0
      requires PatchedBy(before, base[..], slots, curr, lerp, dirty)
      requires PatchedExactly(f, slots, hasPrev, prev, curr, before, alpha, lerp, dirty, k)
      modifies this`lerp, this`dirty, this`injected, base
      ensures Valid()
      ensures PatchedBy(before, base[..], slots, curr, lerp, dirty)
      ensures PatchedExactly(f, slots, hasPrev, prev, curr, before, alpha, lerp, dirty, k + 1)
    {
      hide BuildLerp;
      assert !dirty[k] && Span(base[..], slots[k]) == Span(before, slots[k]);
      hide PatchedBy;
      if !hasPrev[k] { return; }
      var changed, l := TaBuildLerp(f, slots[k], prev[k], curr[k], alpha);
      if changed && Span(base[..], slots[k]) == curr[k] {
        BuildKeepsOpcodes(f, slots[k], prev[k], curr[k], alpha);
        InstallSlot(k, l, before);
      }
    }

    method InstallSlot(k: nat, l: seq<Byte>, ghost before: seq<Byte>)
      requires Valid() && k < |slots| && !dirty[k] && |before| == base.Length
      requires PatchedBy(before, base[..], slots, curr, lerp, dirty)
      requires Span(base[..], slots[k]) == curr[k] && SameOpcodes(slots[k], curr[k], l)
      modifies this`lerp, this`dirty, this`injected, base
      ensures Valid() && lerp == old(lerp)[k := l] && dirty == old(dirty)[k := true]
      ensures PatchedBy(before, base[..], slots, curr, lerp, dirty)
    {
      FitPlaced(Value(), base.Length);
      ghost var live := base[..];
      TaSpanWrite(base, slots[k], l);
      SpanWriteEffect(live, slots, k, l);
      PatchOne(before, live, base[..], slots, curr, lerp, dirty, k, l);
      hide Fit;
      hide WellPlaced;
      hide PatchedBy;
      hide SameOutside;
      hide SpanWrite;
      lerp := lerp[k := l];
      dirty := dirty[k := true];
      injected := true;
    }

    // Put back every span that still holds what was written into it.
    method Restore()
      requires Valid()
      modifies this, base
      ensures Valid() && Clean() && !injected && base == old(base) && Value() == old(Value()) && seenGen == old(seenGen)
      ensures hasPrev == old(hasPrev) && prev == old(prev) && curr == old(curr)
      ensures RestoredFrom(old(base[..]), base[..], slots, curr, old(lerp), old(dirty))
    {
      RestoredNone(base[..], slots, curr, lerp, dirty);
      if !injected { return; }
      RestoreSlots();
      injected := false;
    }

    method RestoreSlots()
      requires Valid() && injected
      modifies this`dirty, base
      ensures Valid() && Clean()
      ensures RestoredFrom(old(base[..]), base[..], slots, curr, lerp, old(dirty))
    {
      hide RestoredTo;
      ghost var before, dirty0 := base[..], dirty;
      RestoredNone(before, slots, curr, lerp, dirty);
      var k := 0;
      while k < |slots|
        invariant 0 <= k <= |slots| && Valid()
        invariant forall j :: 0 <= j < k ==> !dirty[j]
        invariant dirty[k..] == dirty0[k..]
        invariant RestoredTo(before, base[..], slots, curr, lerp, dirty0, k)
      {
        RestoreStep(k, before, dirty0);
        k := k + 1;
      }
    }

    method RestoreStep(k: nat, ghost before: seq<Byte>, ghost dirty0: seq<bool>)
      requires Valid() && injected && k < |slots| && |before| == base.Length && |dirty0| == |slots|
      requires dirty[k] == dirty0[k]
      requires RestoredTo(before, base[..], slots, curr, lerp, dirty0, k)
      modifies this`dirty, base
      ensures Valid() && dirty == old(dirty)[k := false]
      ensures RestoredTo(before, base[..], slots, curr, lerp, dirty0, k + 1)
    {
      ghost var live := base[..];
      RestoreSlot(k);
      RestoreNext(before, live, base[..], slots, curr, lerp, dirty0, k);
    }

    method RestoreSlot(k: nat)
      requires Valid() && injected && k < |slots|
      modifies this`dirty, base
      ensures Valid() && dirty == old(dirty)[k := false]
      ensures SameOutside(old(base[..]), base[..], [slots[k]])
      ensures forall j :: 0 <= j < |slots| && j != k ==> Span(base[..], slots[j]) == Span(old(base[..]), slots[j])
      ensures Span(base[..], slots[k]) ==
        if old(dirty[k]) && Span(old(base[..]), slots[k]) == lerp[k] then curr[k] else Span(old(base[..]), slots[k])
    {
      if !dirty[k] { return; }
      dirty := dirty[k := false];
      ghost var live := base[..];
      if Span(base[..], slots[k]) == lerp[k] {
        TaSpanWrite(base, slots[k], curr[k]);
        SpanWriteEffect(live, slots, k, curr[k]);
      }
    }

    // What a repaint of this tick's emission relies on: the endpoints are the
    // emission's, and, if slots were kept, the last one's.
    ghost predicate Ready(kept: bool, last: seq<Byte>)
      reads this, base
    {
      && Valid() && Clean() && SpansOf(base[..], slots, curr)
      && (forall k :: 0 <= k < |slots| ==> hasPrev[k] == kept)
      && (kept ==> limit <= |last| && SpansOf(last, slots, prev))
      && (forall k :: 0 <= k < |slots| ==> SigOk(base[..], slots[k]))
    }

    // One R-frame repaint and the Painter entry after it: the repaint shows
    // the emission on its way from the one before, and then the display list
    // has exactly the bytes it was emitted with.
    method RepaintOnce(f: FloatFormat, alpha: real, gen: nat, current: array<Byte>, ghost kept: bool,
                       ghost last: seq<Byte>)
      returns (shown: seq<Byte>)
      requires Ready(kept, last) && f.Valid() && Current(gen, current)
      modifies this, base
      ensures Ready(kept, last) && !injected && base == old(base) && base[..] == old(base[..])
      ensures Value() == old(Value()) && seenGen == old(seenGen)
      ensures RepaintShown(f, Value(), kept, last, base[..], alpha, shown)
    {
      ghost var emitted := base[..];
      shown := DrawList(f, alpha, gen, current, kept, last);
      ghost var l, d := lerp, dirty;
      hide SigOk;
      hide RepaintShown;
      hide Fit;
      Restore();
      PatchThenRestore(emitted, shown, base[..], slots, curr, l, d);
    }

    method DrawList(f: FloatFormat, alpha: real, gen: nat, current: array<Byte>, ghost kept: bool,
                    ghost last: seq<Byte>)
      returns (shown: seq<Byte>)
      requires Ready(kept, last) && f.Valid() && Current(gen, current)
      modifies this`lerp, this`dirty, this`injected, base
      ensures Valid() && shown == base[..]
      ensures PatchedBy(old(base[..]), shown, slots, curr, lerp, dirty)
      ensures RepaintShown(f, Value(), kept, last, old(base[..]), alpha, shown)
    {
      hide GapsIdle;
      hide SigOk;
      hide KindHolds;
      hide Parse;
      FaithfulHolds(Value(), base[..]);
      ghost var emitted := base[..];
      RFrame(f, alpha, gen, current);
      shown := base[..];
      PatchShows(f, slots, kept, last, emitted, alpha, shown, hasPrev, prev, curr, lerp, dirty);
      hide Valid;
      hide PatchedExactly;
    }

    method Repaints(f: FloatFormat, alphas: seq<real>, gen: nat, current: array<Byte>, ghost kept: bool,
                    ghost last: seq<Byte>)
      returns (frames: seq<seq<Byte>>)
      requires Ready(kept, last) && f.Valid() && Current(gen, current)
      modifies this, base
      ensures Ready(kept, last) && base == old(base) && base[..] == old(base[..])
      ensures Value() == old(Value()) && seenGen == old(seenGen) && |frames| == |alphas|
      ensures forall j :: 0 <= j < |frames| ==> RepaintShown(f, Value(), kept, last, base[..], alphas[j], frames[j])
    {
      hide RepaintShown;
      hide SigOk;
      frames := [];
      while |frames| < |alphas|
        invariant |frames| <= |alphas| && Ready(kept, last) && base == old(base) && base[..] == old(base[..])
        invariant Value() == old(Value()) && seenGen == old(seenGen)
        invariant forall j :: 0 <= j < |frames| ==> RepaintShown(f, Value(), kept, last, base[..], alphas[j], frames[j])
      {
        var shown := RepaintOnce(f, alphas[|frames|], gen, current, kept, last);
        frames := frames + [shown];
      }
    }

    // Repaints that the record does not describe: its buffer stays as it is.
    method IdleRepaints(f: FloatFormat, alphas: seq<real>, gen: nat, current: array<Byte>)
      returns (frames: seq<seq<Byte>>)
      requires Valid() && Clean() && f.Valid() && !Current(gen, current)
      modifies this, base
      ensures Valid() && Clean() && base == old(base) && base[..] == old(base[..])
      ensures Value() == old(Value()) && curr == old(curr) && seenGen == old(seenGen)
      ensures |frames| == |alphas| && forall j :: 0 <= j < |frames| ==> frames[j] == base[..]
    {
      frames := [];
      while |frames| < |alphas|
        invariant |frames| <= |alphas| && Valid() && Clean() && base == old(base) && base[..] == old(base[..])
        invariant Value() == old(Value()) && curr == old(curr) && seenGen == old(seenGen)
        invariant forall j :: 0 <= j < |frames| ==> frames[j] == base[..]
      {
        var shown := IdleOnce(f, alphas[|frames|], gen, current);
        frames := frames + [shown];
      }
    }

    method IdleOnce(f: FloatFormat, alpha: real, gen: nat, current: array<Byte>) returns (shown: seq<Byte>)
      requires Valid() && Clean() && f.Valid() && !Current(gen, current)
      modifies this, base
      ensures Valid() && Clean() && base == old(base) && base[..] == old(base[..]) && shown == base[..]
      ensures Value() == old(Value()) && curr == old(curr) && seenGen == old(seenGen)
    {
      ghost var emitted := base[..];
      RFrame(f, alpha, gen, current);
      shown := base[..];
      ghost var l, d := lerp, dirty;
      Restore();
      PatchThenRestore(emitted, shown, base[..], slots, curr, l, d);
    }

    // The game writes its emission into a buffer, and the hook sights it.
    method Emit(buffer: array<Byte>, e: Emission, gen: nat, ghost last: seq<Byte>) returns (ghost kept: bool)
      requires Valid() && |e.bytes| == buffer.Length && e.size <= buffer.Length
      requires limit <= |last| && SpansOf(last, slots, curr)
      modifies this, buffer
      ensures kept == Keeps(old(Value()), e) && Ready(kept, last)
      ensures base == buffer && buffer[..] == e.bytes && seenGen == gen && Value() == See(old(Value()), e)
    {
      forall i | 0 <= i < buffer.Length { buffer[i] := e.bytes[i]; }
      assert buffer[..] == e.bytes;
      kept := Keeps(Value(), e);
      SeenIsSigned(Value(), e);
      Sight(buffer, e.size, e.capacity, gen);
    }

    // One logic tick: the emission is sighted, and any number of repaints
    // follow.
    method LogicTick(f: FloatFormat, buffer: array<Byte>, e: Emission, alphas: seq<real>, gen: nat,
                     ghost last: seq<Byte>)
      returns (frames: seq<seq<Byte>>)
      requires Valid() && f.Valid() && |e.bytes| == buffer.Length && e.size <= buffer.Length
      requires limit <= |last| && SpansOf(last, slots, curr)
      modifies this, buffer
      ensures Valid() && Clean() && base == buffer && buffer[..] == e.bytes && seenGen == gen
      ensures Value() == See(old(Value()), e) && SpansOf(buffer[..], slots, curr)
      ensures |frames| == |alphas|
      ensures forall j :: 0 <= j < |frames| ==>
        RepaintShown(f, Value(), Keeps(old(Value()), e), last, e.bytes, alphas[j], frames[j])
    {
      hide RepaintShown;
      hide Keeps;
      ghost var kept := Emit(buffer, e, gen, last);
      frames := Repaints(f, alphas, gen, buffer, kept, last);
    }

    // After the first i ticks: the slots are the ones the emissions leave, the
    // endpoints are the latest emission's, and its buffer is as it was written.
    ghost predicate At(ticks: seq<Tick>, i: nat)
      requires Sized(ticks) && i <= |ticks|
      reads this, base
    {
      && Valid() && Clean() && Value() == KnownAt(ticks, i) && seenGen <= i
      && (i > 0 ==> base[..] == Before(ticks, i))
      && limit <= |Before(ticks, i)| && SpansOf(Before(ticks, i), slots, curr)
    }

    lemma AtStart(ticks: seq<Tick>)
      requires Valid() && Clean() && Sized(ticks) && Value() == NOTHING && seenGen == 0
      ensures At(ticks, 0)
    {}

    // Tick i is generation i + 1. `elsewhere` is what the list stands in when
    // it was swapped away.
    method FollowTick(f: FloatFormat, buffer: array<Byte>, elsewhere: array<Byte>, ticks: seq<Tick>, i: nat)
      returns (frames: seq<seq<Byte>>)
      requires f.Valid() && Sized(ticks) && i < |ticks| && At(ticks, i) && elsewhere != buffer
      requires if ticks[i].e.Some? then |ticks[i].e.value.bytes| == buffer.Length else i > 0
      modifies this, buffer, base
      ensures At(ticks, i + 1) && TickShown(f, ticks, i, frames)
      ensures base == if ticks[i].e.Some? then buffer else old(base)
    {
      hide RepaintShown;
      hide Keeps;
      hide See;
      hide Faithful;
      var t := ticks[i];
      if t.e.None? {
        frames := IdleRepaints(f, t.alphas, i + 1, base);
      } else if t.swapped {
        ghost var kept := Emit(buffer, t.e.value, i + 1, Before(ticks, i));
        frames := IdleRepaints(f, t.alphas, i + 1, elsewhere);
      } else {
        frames := LogicTick(f, buffer, t.e.value, t.alphas, i + 1, Before(ticks, i));
      }
    }

    // The main result for a run: ticks that emit to either of two buffers, and
    // ticks that do not. Every repaint of a live tick shows its emission on its
    // way from the one before, with its slots wherever it is faithful; the
    // repaints of every other tick leave the list alone; and every emission is
    // left in its buffer as the game wrote it. The record starts with the
    // first tick's sighting.
    method FollowTicks(f: FloatFormat, buffers: (array<Byte>, array<Byte>), elsewhere: array<Byte>, ticks: seq<Tick>)
      returns (frames: seq<seq<seq<Byte>>>)
      requires Valid() && Clean() && f.Valid() && Sized(ticks) && Value() == NOTHING && seenGen == 0
      requires ticks != [] ==> ticks[0].e.Some?
      requires forall i :: 0 <= i < |ticks| && ticks[i].e.Some? ==>
        |ticks[i].e.value.bytes| == if ticks[i].second then buffers.1.Length else buffers.0.Length
      requires base == buffers.0 && elsewhere != buffers.0 && elsewhere != buffers.1
      modifies this, buffers.0, buffers.1
      ensures At(ticks, |ticks|) && |frames| == |ticks| && RunShown(f, ticks, frames)
    {
      hide TickShown;
      hide At;
      hide Valid;
      frames := [];
      var i := 0;
      AtStart(ticks);
      while i < |ticks|
        invariant 0 <= i <= |ticks| && |frames| == i && At(ticks, i) && RunShown(f, ticks, frames)
        invariant base == buffers.0 || base == buffers.1
      {
        var buffer := if ticks[i].second then buffers.1 else buffers.0;
        var shown := FollowTick(f, buffer, elsewhere, ticks, i);
        frames := frames + [shown];
        i := i + 1;
      }
    }
  }
}
