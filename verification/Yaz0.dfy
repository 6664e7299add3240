// The bounded Yaz0 reader. `Yaz0Spec` is a Lempel-Ziv code: a list of
// literals and back-references, what it expands to, and how it is written in
// groups of eight under a flag byte. The reader is proved against the byte
// machine `Machine`, and the machine against the code.

module Yaz0Spec {
  import opened Wrappers
  import opened Bytes
  import opened ModArith

  const MAX_SIZE: nat := 64 * 1024 * 1024

  datatype Error =
    | TruncatedHeader | InvalidSize | TruncatedStream | TruncatedBlock
    | TruncatedReference | TruncatedLength | InvalidReference

  datatype Token = Literal(b: Byte) | Copy(distance: nat, count: nat)

  predicate Encodable(t: Token) {
    t.Copy? ==> 1 <= t.distance <= 4096 && 3 <= t.count <= 273
  }

  // --- What a token list means --------------------------------------------

  function CopyBack(out: seq<Byte>, distance: nat, count: nat): (r: seq<Byte>)
    requires 1 <= distance <= |out|
    ensures |r| == |out| + count && out <= r
  {
    if count == 0 then out
    else var r := CopyBack(out, distance, count - 1); r + [r[|r| - distance]]
  }

  lemma {:induction false} CopyAt(out: seq<Byte>, distance: nat, count: nat, k: nat)
    requires 1 <= distance <= |out| && k < count
    ensures CopyBack(out, distance, count)[|out| + k] == out[|out| - distance + Phase(k, distance)]
  {
    if k < count - 1 {
      CopyAt(out, distance, count - 1, k);
    } else if k >= distance {
      CopyAt(out, distance, count - 1, k - distance);
    }
  }

  // An overlapping copy repeats the last `distance` bytes periodically.
  lemma CopyIsPeriodic(out: seq<Byte>, distance: nat, count: nat, k: nat)
    requires 1 <= distance <= |out| && k < count
    ensures CopyBack(out, distance, count)[|out| + k] == out[|out| - distance + k % distance]
  {
    CopyAt(out, distance, count, k);
    PhaseIsRemainder(k, distance);
  }

  predicate Fits(t: Token, produced: nat, size: nat) {
    produced < size && (t.Copy? ==> 1 <= t.distance <= produced && t.count <= size - produced)
  }

  function Append(out: seq<Byte>, t: Token): (r: seq<Byte>)
    requires t.Copy? ==> 1 <= t.distance <= |out|
    ensures out <= r
  {
    match t
    case Literal(b) => out + [b]
    case Copy(d, c) => CopyBack(out, d, c)
  }

  // tokens extend out to exactly x.
  ghost predicate Codes(tokens: seq<Token>, out: seq<Byte>, x: seq<Byte>) {
    if tokens == [] then out == x
    else Encodable(tokens[0]) && Fits(tokens[0], |out|, |x|) && Codes(tokens[1..], Append(out, tokens[0]), x)
  }

  // --- How a token list is written ----------------------------------------

  function TokenBytes(t: Token): seq<Byte>
    requires Encodable(t)
  {
    match t
    case Literal(b) => [b]
    case Copy(d, c) =>
      if c <= 17 then [(c - 2) * 16 + (d - 1) / 256, (d - 1) % 256]
      else [(d - 1) / 256, (d - 1) % 256, c - 18]
  }

  // The flag bits of up to k tokens, most significant first.
  function Flags(g: seq<Token>, k: nat): (f: nat)
    requires |g| <= k
    ensures f < Pow2(k)
  {
    if g == [] then 0
    else (if g[0].Literal? then Pow2(k - 1) else 0) + Flags(g[1..], k - 1)
  }

  ghost predicate AllEncodable(ts: seq<Token>) { forall i :: 0 <= i < |ts| ==> Encodable(ts[i]) }

  ghost function GroupBytes(g: seq<Token>): seq<Byte>
    requires AllEncodable(g)
  {
    if g == [] then [] else TokenBytes(g[0]) + GroupBytes(g[1..])
  }

  ghost function Serialize(ts: seq<Token>): seq<Byte>
    requires AllEncodable(ts)
  {
    if ts == [] then []
    else
      var n := if |ts| < 8 then |ts| else 8;
      assert Flags(ts[..n], 8) < 256 by { assert Pow2(8) == 256; }
      [Flags(ts[..n], 8)] + GroupBytes(ts[..n]) + Serialize(ts[n..])
  }

  const MAGIC: seq<Byte> := [0x59, 0x61, 0x7A, 0x30]

  function BigEndian(n: nat): seq<Byte>
    requires n < 0x1_0000_0000
  {
    [n / 256 / 256 / 256, n / 256 / 256 % 256, n / 256 % 256, n % 256]
  }

  // MAGIC, size, eight reserved bytes of any value.
  ghost predicate IsHeader(h: seq<Byte>, size: nat) {
    |h| == 16 && h[..4] == MAGIC && size < 0x1_0000_0000 && h[4..8] == BigEndian(size)
  }

  // --- The byte machine ---------------------------------------------------

  function NextToken(data: seq<Byte>, pos: nat, literal: bool): (r: Result<(Token, nat), Error>)
    requires pos < |data|
    ensures r.Ok? ==> pos < r.value.1 <= |data| && Encodable(r.value.0) && r.value.0.Literal? == literal
  {
    if literal then Ok((Literal(data[pos]), pos + 1))
    else if pos + 2 > |data| then Err(TruncatedReference)
    else
      var first, second: Byte := data[pos], data[pos + 1];
      var distance := (first % 16) * 256 + second + 1;
      if first / 16 != 0 then Ok((Copy(distance, first / 16 + 2), pos + 2))
      else if pos + 2 >= |data| then Err(TruncatedLength)
      else Ok((Copy(distance, (data[pos + 2] as int) + 18), pos + 3))
  }

  // code & (1 << bit)
  predicate BitSet(code: nat, bit: nat) { if bit == 0 then code % 2 == 1 else BitSet(code / 2, bit - 1) }

  // k flag bits of code are left; 0 means that a flag byte comes next. The
  // result carries the position behind the last byte read.
  function Machine(data: seq<Byte>, size: nat, pos: nat, out: seq<Byte>, code: Byte, k: nat)
    : Result<(seq<Byte>, nat), Error>
    requires pos <= |data| && |out| <= size && k <= 8
    decreases |data| - pos
  {
    if |out| == size then Ok((out, pos))
    else if pos >= |data| then Err(if k == 0 then TruncatedStream else TruncatedBlock)
    else if k == 0 then Machine(data, size, pos + 1, out, data[pos], 8)
    else
      match NextToken(data, pos, BitSet(code, k - 1))
      case Err(e) => Err(e)
      case Ok((t, pos')) =>
        if !Fits(t, |out|, size) then Err(InvalidReference)
        else Machine(data, size, pos', Append(out, t), code, k - 1)
  }

  function Decode(data: seq<Byte>): Result<(seq<Byte>, nat), Error> {
    if |data| < 4 || data[..4] != MAGIC then Ok((data, |data|))
    else if |data| < 8 then Err(TruncatedHeader)
    else
      var size := Word(data, 4);
      if size > MAX_SIZE || |data| < 16 then Err(InvalidSize)
      else Machine(data, size, 16, [], 0, 0)
  }

  // --- Properties of the reader -------------------------------------------

  // A success has exactly the declared size.
  lemma {:induction false} MachineFillsSize(data: seq<Byte>, size: nat, pos: nat, out: seq<Byte>, code: Byte, k: nat)
    requires pos <= |data| && |out| <= size && k <= 8
    ensures var r := Machine(data, size, pos, out, code, k);
      r.Ok? ==> |r.value.0| == size && out <= r.value.0 && pos <= r.value.1 <= |data|
    decreases |data| - pos
  {
    if |out| < size && pos < |data| {
      if k == 0 {
        MachineFillsSize(data, size, pos + 1, out, data[pos], 8);
      } else {
        var n := NextToken(data, pos, BitSet(code, k - 1));
        if n.Ok? && Fits(n.value.0, |out|, size) {
          MachineFillsSize(data, size, n.value.1, Append(out, n.value.0), code, k - 1);
        }
      }
    }
  }

  lemma TokenIgnoresTail(data: seq<Byte>, tail: seq<Byte>, pos: nat, literal: bool)
    requires pos < |data| && NextToken(data, pos, literal).Ok?
    ensures NextToken(data + tail, pos, literal) == NextToken(data, pos, literal)
  {}

  // What follows the consumed bytes does not matter.
  lemma {:induction false} MachineIgnoresTail(data: seq<Byte>, tail: seq<Byte>, size: nat, pos: nat, out: seq<Byte>,
                                              code: Byte, k: nat)
    requires pos <= |data| && |out| <= size && k <= 8 && Machine(data, size, pos, out, code, k).Ok?
    ensures Machine(data + tail, size, pos, out, code, k) == Machine(data, size, pos, out, code, k)
    decreases |data| - pos
  {
    if |out| < size {
      assert (data + tail)[pos] == data[pos];
      if k == 0 {
        MachineIgnoresTail(data, tail, size, pos + 1, out, data[pos], 8);
      } else {
        var n := NextToken(data, pos, BitSet(code, k - 1));
        TokenIgnoresTail(data, tail, pos, BitSet(code, k - 1));
        MachineIgnoresTail(data, tail, size, n.value.1, Append(out, n.value.0), code, k - 1);
      }
    }
  }

  // A token that was read does not fit into anything shorter.
  lemma CutToken(data: seq<Byte>, n: nat, pos: nat, literal: bool)
    requires pos < n <= |data| && NextToken(data, pos, literal).Ok?
    ensures var t := NextToken(data, pos, literal);
      if t.value.1 <= n then NextToken(data[..n], pos, literal) == t else NextToken(data[..n], pos, literal).Err?
  {}

  // Every proper prefix of the consumed bytes is rejected.
  lemma {:induction false} MachineRejectsPrefix(data: seq<Byte>, n: nat, size: nat, pos: nat, out: seq<Byte>,
                                                code: Byte, k: nat)
    requires pos <= n <= |data| && |out| <= size && k <= 8
    requires Machine(data, size, pos, out, code, k).Ok? && n < Machine(data, size, pos, out, code, k).value.1
    ensures Machine(data[..n], size, pos, out, code, k).Err?
    decreases |data| - pos
  {
    if |out| < size && pos < n {
      assert data[..n][pos] == data[pos];
      if k == 0 {
        MachineRejectsPrefix(data, n, size, pos + 1, out, data[pos], 8);
      } else {
        var t := NextToken(data, pos, BitSet(code, k - 1));
        CutToken(data, n, pos, BitSet(code, k - 1));
        if t.value.1 <= n {
          MachineRejectsPrefix(data, n, size, t.value.1, Append(out, t.value.0), code, k - 1);
        }
      }
    }
  }

  lemma DecodeIsPrefixDetermined(data: seq<Byte>, tail: seq<Byte>, n: nat)
    requires |data| >= 4 && data[..4] == MAGIC && Decode(data).Ok?
    ensures |Decode(data).value.0| == Word(data, 4) && 16 <= Decode(data).value.1 <= |data|
    ensures Decode(data + tail) == Decode(data)
    ensures 4 <= n < Decode(data).value.1 ==> Decode(data[..n]).Err?
  {
    var size := Word(data, 4);
    MachineFillsSize(data, size, 16, [], 0, 0);
    MachineIgnoresTail(data, tail, size, 16, [], 0, 0);
    assert (data + tail)[..4] == data[..4];
    if 4 <= n < Decode(data).value.1 {
      assert data[..n][..4] == data[..4];
      if n >= 16 { MachineRejectsPrefix(data, n, size, 16, [], 0, 0); }
    }
  }

  // --- The reader decodes the code ----------------------------------------

  lemma Doubled(q: nat, p: nat) returns (m: nat)
    ensures m == q * p && q * (2 * p) == 2 * m
  {
    m := q * p;
  }

  lemma {:induction false} BitSetIs(q: nat, bit: nat, r: nat)
    requires r < Pow2(bit)
    ensures BitSet(q * Pow2(bit) + r, bit) <==> q % 2 == 1
  {
    if bit > 0 {
      var p := Pow2(bit - 1);
      var m := Doubled(q, p);
      assert q * Pow2(bit) + r == 2 * m + r && (2 * m + r) / 2 == m + r / 2;
      BitSetIs(q, bit - 1, r / 2);
    }
  }

  ghost predicate FlagsMatch(code: nat, k: nat, g: seq<Token>) {
    |g| <= k && forall i :: 0 <= i < |g| ==> (BitSet(code, k - 1 - i) <==> g[i].Literal?)
  }

  // Every token of a group finds its own bit in the flag byte.
  lemma {:induction false} FlagsAreReadBack(g: seq<Token>, k: nat, high: nat)
    requires |g| <= k
    ensures FlagsMatch(high * Pow2(k) + Flags(g, k), k, g)
  {
    if g != [] {
      var p, bit := Pow2(k - 1), if g[0].Literal? then 1 else 0;
      var code := high * Pow2(k) + Flags(g, k);
      Shifted(high, bit, p);
      assert code == (2 * high + bit) * p + Flags(g[1..], k - 1);
      hide Pow2;
      hide Flags;
      BitSetIs(2 * high + bit, k - 1, Flags(g[1..], k - 1));
      FlagsAreReadBack(g[1..], k - 1, 2 * high + bit);
      hide BitSet;
      FlagsMatchCons(code, k, g);
    }
  }

  lemma FlagsMatchCons(code: nat, k: nat, g: seq<Token>)
    requires 0 < |g| <= k && FlagsMatch(code, k - 1, g[1..]) && (BitSet(code, k - 1) <==> g[0].Literal?)
    ensures FlagsMatch(code, k, g)
  {
    hide BitSet;
    forall i | 0 <= i < |g| ensures BitSet(code, k - 1 - i) <==> g[i].Literal? {
      if i > 0 { assert g[1..][i - 1] == g[i] && (k - 1) - 1 - (i - 1) == k - 1 - i; }
    }
  }

  lemma Shifted(high: nat, bit: nat, p: nat)
    requires bit <= 1
    ensures high * (2 * p) + (if bit == 1 then p else 0) == (2 * high + bit) * p
  {
    assert (2 * high + bit) * p == (2 * high) * p + bit * p;
  }

  // The two bytes of a back-reference, taken apart again.
  lemma ReferenceBytes(d: nat, high: nat)
    requires 1 <= d <= 4096 && high <= 15
    ensures var first := high * 16 + (d - 1) / 256;
      first < 256 && first / 16 == high && (first % 16) * 256 + (d - 1) % 256 + 1 == d
  {}

  lemma ReadsToken(data: seq<Byte>, pos: nat, t: Token)
    requires Encodable(t) && pos + |TokenBytes(t)| <= |data| && data[pos..pos + |TokenBytes(t)|] == TokenBytes(t)
    ensures NextToken(data, pos, t.Literal?) == Ok((t, pos + |TokenBytes(t)|))
  {
    var b := TokenBytes(t);
    forall i | 0 <= i < |b| ensures data[pos + i] == b[i] { assert data[pos..pos + |b|][i] == b[i]; }
    assert data[pos + 0] == b[0];
    if t.Copy? {
      ReferenceBytes(t.distance, if t.count <= 17 then t.count - 2 else 0);
      assert data[pos + 1] == b[1];
      if t.count > 17 { assert data[pos + 2] == b[2]; }
    }
  }

  // The bytes from pos to end, read under the flags in hand, are these tokens.
  ghost predicate Reads(data: seq<Byte>, pos: nat, code: Byte, k: nat, ts: seq<Token>, end: nat)
    decreases |data| - pos
  {
    if ts == [] then pos == end
    else
      && pos < |data|
      && if k == 0 then Reads(data, pos + 1, data[pos], 8, ts, end)
         else
           var n := NextToken(data, pos, BitSet(code, k - 1));
           n.Ok? && n.value.0 == ts[0] && Reads(data, n.value.1, code, k - 1, ts[1..], end)
  }

  lemma {:induction false} MachineExpands(data: seq<Byte>, pos: nat, out: seq<Byte>, code: Byte, k: nat,
                                          ts: seq<Token>, end: nat, x: seq<Byte>)
    requires pos <= |data| && |out| <= |x| && k <= 8
    requires Reads(data, pos, code, k, ts, end) && Codes(ts, out, x)
    ensures Machine(data, |x|, pos, out, code, k) == Ok((x, end))
    decreases |data| - pos
  {
    hide NextToken;
    hide BitSet;
    hide Append;
    if ts != [] {
      if k == 0 {
        MachineExpands(data, pos + 1, out, data[pos], 8, ts, end, x);
      } else {
        var n := NextToken(data, pos, BitSet(code, k - 1));
        MachineExpands(data, n.value.1, Append(out, ts[0]), code, k - 1, ts[1..], end, x);
      }
    }
  }

  // Conversely, whatever the reader accepts is the expansion of the tokens
  // that stand in the bytes it consumed.
  lemma {:induction false} SuccessHasTokens(data: seq<Byte>, size: nat, pos: nat, out: seq<Byte>, code: Byte, k: nat)
    returns (ts: seq<Token>)
    requires pos <= |data| && |out| <= size && k <= 8 && Machine(data, size, pos, out, code, k).Ok?
    ensures var (x, end) := Machine(data, size, pos, out, code, k).value;
      Reads(data, pos, code, k, ts, end) && Codes(ts, out, x)
    decreases |data| - pos
  {
    if |out| == size {
      ts := [];
    } else if k == 0 {
      MachineFillsSize(data, size, pos + 1, out, data[pos], 8);
      ts := SuccessHasTokens(data, size, pos + 1, out, data[pos], 8);
    } else {
      var (t, next) := NextToken(data, pos, BitSet(code, k - 1)).value;
      MachineFillsSize(data, size, next, Append(out, t), code, k - 1);
      var rest := SuccessHasTokens(data, size, next, Append(out, t), code, k - 1);
      ts := [t] + rest;
      assert ts[1..] == rest;
    }
  }

  lemma Slice(data: seq<Byte>, pos: nat, a: seq<Byte>, b: seq<Byte>)
    requires pos <= |data| && data[pos..] == a + b
    ensures pos + |a| <= |data| && data[pos..pos + |a|] == a && data[pos + |a|..] == b
  {
    assert data[pos..pos + |a|] == data[pos..][..|a|];
    assert data[pos + |a|..] == data[pos..][|a|..];
  }

  lemma GroupHead(g: seq<Token>, more: seq<Byte>)
    requires g != [] && AllEncodable(g)
    ensures AllEncodable(g[1..]) && Encodable(g[0])
    ensures GroupBytes(g) + more == TokenBytes(g[0]) + (GroupBytes(g[1..]) + more)
  {}

  lemma SerializeHead(ts: seq<Token>, tail: seq<Byte>) returns (n: nat)
    requires ts != [] && AllEncodable(ts)
    ensures n == (if |ts| < 8 then |ts| else 8) && AllEncodable(ts[..n]) && AllEncodable(ts[n..])
    ensures Flags(ts[..n], 8) < 256
    ensures Serialize(ts) + tail == [Flags(ts[..n], 8)] + (GroupBytes(ts[..n]) + (Serialize(ts[n..]) + tail))
  {
    n := if |ts| < 8 then |ts| else 8;
    assert Pow2(8) == 256;
  }

  lemma TokenIsSome(t: Token)
    requires Encodable(t)
    ensures TokenBytes(t) != []
  {}

  lemma ReadsNothing(data: seq<Byte>, pos: nat, code: Byte, k: nat, tail: seq<Byte>)
    requires pos <= |data| && data[pos..] == Serialize([]) + tail
    ensures Reads(data, pos, code, k, [], |data| - |tail|)
  {
    assert |data[pos..]| == |tail|;
  }

  lemma ReadsOne(data: seq<Byte>, pos: nat, code: Byte, k: nat, ts: seq<Token>, end: nat)
    requires ts != [] && pos < |data| && 0 < k && NextToken(data, pos, BitSet(code, k - 1)).Ok?
    requires var (t, next) := NextToken(data, pos, BitSet(code, k - 1)).value;
      t == ts[0] && Reads(data, next, code, k - 1, ts[1..], end)
    ensures Reads(data, pos, code, k, ts, end)
  {
    hide NextToken;
    hide BitSet;
  }

  // In the middle of a group: g is what is left of it, rest the later groups.
  lemma {:induction false} ReadsGroup(data: seq<Byte>, pos: nat, code: Byte, k: nat, g: seq<Token>, rest: seq<Token>,
                                      tail: seq<Byte>)
    requires pos <= |data| && |g| <= k <= 8 && (|g| < k ==> rest == [])
    requires AllEncodable(g) && AllEncodable(rest) && FlagsMatch(code, k, g)
    requires data[pos..] == GroupBytes(g) + (Serialize(rest) + tail)
    ensures Reads(data, pos, code, k, g + rest, |data| - |tail|)
    decreases |data| - pos, 1
  {
    hide Reads;
    hide NextToken;
    hide Serialize;
    hide TokenBytes;
    hide FlagsMatch;
    if g == [] {
      assert g + rest == rest;
      assert data[pos..] == Serialize(rest) + tail;
      if rest != [] { ReadsRest(data, pos, code, rest, tail); } else { ReadsNothing(data, pos, code, k, tail); }
    } else {
      var t, b, more := g[0], TokenBytes(g[0]), Serialize(rest) + tail;
      FlagsOfRest(code, k, g);
      GroupHead(g, more);
      Slice(data, pos, b, GroupBytes(g[1..]) + more);
      ReadsToken(data, pos, t);
      TokenIsSome(t);
      ReadsGroup(data, pos + |b|, code, k - 1, g[1..], rest, tail);
      assert (g + rest)[1..] == g[1..] + rest;
      ReadsOne(data, pos, code, k, g + rest, |data| - |tail|);
    }
  }

  lemma FlagsOfRest(code: nat, k: nat, g: seq<Token>)
    requires g != [] && FlagsMatch(code, k, g)
    ensures FlagsMatch(code, k - 1, g[1..]) && (BitSet(code, k - 1) <==> g[0].Literal?)
  {
    forall i | 0 <= i < |g[1..]| ensures BitSet(code, k - 1 - 1 - i) <==> g[1..][i].Literal? {
      assert k - 1 - (i + 1) == k - 1 - 1 - i;
    }
  }

  // At a flag byte.
  lemma {:induction false} ReadsRest(data: seq<Byte>, pos: nat, code: Byte, ts: seq<Token>, tail: seq<Byte>)
    requires pos <= |data| && ts != [] && AllEncodable(ts) && data[pos..] == Serialize(ts) + tail
    ensures Reads(data, pos, code, 0, ts, |data| - |tail|)
    decreases |data| - pos, 0
  {
    hide Serialize;
    hide GroupBytes;
    hide FlagsMatch;
    hide Flags;
    var n := SerializeHead(ts, tail);
    var g, rest := ts[..n], ts[n..];
    assert ts == g + rest;
    Slice(data, pos, [Flags(g, 8)], GroupBytes(g) + (Serialize(rest) + tail));
    assert data[pos] == data[pos..pos + 1][0];
    FlagsAreReadBack(g, 8, 0);
    ReadsGroup(data, pos + 1, data[pos], 8, g, rest, tail);
  }

  lemma HeaderIsRead(header: seq<Byte>, size: nat, body: seq<Byte>)
    requires IsHeader(header, size)
    ensures (header + body)[..4] == MAGIC && Word(header + body, 4) == size
  {
    var data := header + body;
    assert data[..4] == header[..4];
    assert forall i :: 4 <= i < 8 ==> data[i] == header[4..8][i - 4];
  }

  // The round trip: whatever token list codes x, its serialization under any
  // header for |x| decodes to x, and no byte behind it is consumed.
  lemma DecodesEverySerialization(header: seq<Byte>, ts: seq<Token>, x: seq<Byte>, tail: seq<Byte>)
    requires |x| <= MAX_SIZE && IsHeader(header, |x|) && AllEncodable(ts) && Codes(ts, [], x)
    ensures Decode(header + (Serialize(ts) + tail)) == Ok((x, 16 + |Serialize(ts)|))
  {
    var data := header + (Serialize(ts) + tail);
    HeaderIsRead(header, |x|, Serialize(ts) + tail);
    assert data[16..] == Serialize(ts) + tail;
    if ts != [] { ReadsRest(data, 16, 0, ts, tail); }
    MachineExpands(data, 16, [], 0, 0, ts, |data| - |tail|, x);
  }
}

module Yaz0Reader {
  import opened Wrappers
  import opened Bytes
  import opened Yaz0Spec

  // A byte-by-byte copy out of the bytes written so far.
  method CopyLoop(out: seq<Byte>, distance: nat, count: nat) returns (result: seq<Byte>)
    requires 1 <= distance <= |out|
    ensures result == CopyBack(out, distance, count)
  {
    result := out;
    var i := 0;
    while i < count
      invariant 0 <= i <= count && result == CopyBack(out, distance, i)
    {
      result := result + [result[|result| - distance]];
      i := i + 1;
    }
  }

  method Yaz0(data: seq<Byte>) returns (r: Result<seq<Byte>, Error>)
    ensures r == match Decode(data) case Ok(v) => Ok(v.0) case Err(e) => Err(e)
  {
    if |data| < 4 || data[..4] != MAGIC { return Ok(data); }
    if |data| < 8 { return Err(TruncatedHeader); }
    var size := Word(data, 4);
    if size > MAX_SIZE || |data| < 16 { return Err(InvalidSize); }
    r := Blocks(data, size);
  }

  // The body of the inner loop: one flag bit and what it announces.
  method OneBit(data: seq<Byte>, size: nat, pos: nat, out: seq<Byte>, code: Byte, bit: nat)
    returns (r: Result<(seq<Byte>, nat), Error>)
    requires pos <= |data| && |out| < size && 0 < bit <= 8
    ensures match r
      case Err(e) => Machine(data, size, pos, out, code, bit) == Err(e)
      case Ok((out', pos')) =>
        && pos < pos' <= |data| && |out'| <= size
        && Machine(data, size, pos, out, code, bit) == Machine(data, size, pos', out', code, bit - 1)
  {
    if pos >= |data| { return Err(TruncatedBlock); }
    var next := NextToken(data, pos, BitSet(code, bit - 1));
    if next.Err? { return Err(next.error); }
    var (t, pos') := next.value;
    if !Fits(t, |out|, size) { return Err(InvalidReference); }
    var result;
    if t.Literal? { result := out + [t.b]; } else { result := CopyLoop(out, t.distance, t.count); }
    assert result == Append(out, t);
    return Ok((result, pos'));
  }

  // The inner loop: the eight bits of one flag byte, or fewer at the end.
  method EightBits(data: seq<Byte>, size: nat, start: nat, out: seq<Byte>, code: Byte)
    returns (r: Result<(seq<Byte>, nat), Error>)
    requires start <= |data| && |out| < size
    ensures match r
      case Err(e) => Machine(data, size, start, out, code, 8) == Err(e)
      case Ok((out', pos')) =>
        && start < pos' <= |data| && |out'| <= size
        && Machine(data, size, start, out, code, 8) == Machine(data, size, pos', out', code, 0)
  {
    hide Machine;
    ghost var goal := Machine(data, size, start, out, code, 8);
    var result, pos: nat, bit := out, start, 8;
    while bit > 0 && |result| < size
      invariant 0 <= bit <= 8 && start <= pos <= |data| && |result| <= size
      invariant if bit == 8 then result == out else start < pos
      invariant goal == Machine(data, size, pos, result, code, bit)
    {
      var step := OneBit(data, size, pos, result, code, bit);
      if step.Err? { return Err(step.error); }
      result, pos := step.value.0, step.value.1;
      bit := bit - 1;
    }
    if |result| == size { MachineDone(data, size, pos, result, code, bit); }
    return Ok((result, pos));
  }

  lemma MachineDone(data: seq<Byte>, size: nat, pos: nat, out: seq<Byte>, code: Byte, k: nat)
    requires pos <= |data| && |out| == size && k <= 8
    ensures Machine(data, size, pos, out, code, k) == Machine(data, size, pos, out, code, 0)
  {}

  // The outer loop: one flag byte after the other.
  method Blocks(data: seq<Byte>, size: nat) returns (r: Result<seq<Byte>, Error>)
    requires |data| >= 16
    ensures r == match Machine(data, size, 16, [], 0, 0) case Ok(v) => Ok(v.0) case Err(e) => Err(e)
  {
    ghost var goal := Machine(data, size, 16, [], 0, 0);
    var result: seq<Byte>, pos: nat := [], 16;
    var code: Byte := 0;
    while |result| < size
      invariant pos <= |data| && |result| <= size
      invariant goal == Machine(data, size, pos, result, code, 0)
      decreases |data| - pos
    {
      if pos >= |data| { return Err(TruncatedStream); }
      code := data[pos];
      var group := EightBits(data, size, pos + 1, result, code);
      if group.Err? { return Err(group.error); }
      result, pos := group.value.0, group.value.1;
    }
    return Ok(result);
  }
}
