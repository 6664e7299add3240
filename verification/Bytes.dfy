// Byte strings and the big-endian words inside them.
module Bytes {
  type Byte = x: int | 0 <= x < 256

  function U16(b: seq<Byte>, i: nat): nat
    requires i + 2 <= |b|
  {
    (b[i] as int) * 256 + b[i + 1]
  }

  // Big-endian 32-bit words inside a byte string.
  function Word(b: seq<Byte>, i: nat): nat
    requires i + 4 <= |b|
  {
    (b[i] as int) * 0x1000000 + (b[i + 1] as int) * 0x10000 + (b[i + 2] as int) * 0x100 + b[i + 3]
  }

  function PutWord(b: seq<Byte>, i: nat, w: nat): (r: seq<Byte>)
    requires i + 4 <= |b| && w < 0x1_0000_0000
    ensures |r| == |b| && Word(r, i) == w
    ensures forall k :: 0 <= k < |b| && !(i <= k < i + 4) ==> r[k] == b[k]
  {
    b[i := w / 256 / 256 / 256][i + 1 := w / 256 / 256 % 256][i + 2 := w / 256 % 256][i + 3 := w % 256]
  }
}
