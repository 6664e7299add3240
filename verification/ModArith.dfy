// Division and remainder by a variable, in the few shapes the other modules need.
module ModArith {
  import opened Words

  function Pow2(k: nat): (p: nat)
    ensures p >= 1
  {
    if k == 0 then 1 else 2 * Pow2(k - 1)
  }

  lemma {:induction false} Pow2Splits(i: nat, j: nat)
    ensures Pow2(i + j) == Pow2(i) * Pow2(j)
  {
    if i > 0 { Pow2Splits(i - 1, j); }
  }

  lemma Pow2Of64()
    ensures Pow2(64) == TWO_64
  {
    assert Pow2(4) == 16;
    hide Pow2;
    Pow2Splits(4, 4);
    assert Pow2(8) == 0x100;
    Pow2Splits(8, 8);
    assert Pow2(16) == 0x1_0000;
    Pow2Splits(16, 16);
    assert Pow2(32) == TWO_32;
    Pow2Splits(32, 32);
  }

  // Modulo a power of two every odd number has an inverse.
  lemma {:induction false} OddInverse(m: nat, k: nat) returns (v: nat, q: int)
    requires m % 2 == 1
    ensures v * m == 1 + q * Pow2(k)
  {
    if k == 0 {
      v, q := 0, -1;
    } else {
      v, q := OddInverse(m, k - 1);
      v, q := NextInverse(m, v, q, Pow2(k - 1));
    }
  }

  lemma NextInverse(m: nat, v: nat, q: int, p: nat) returns (v': nat, q': int)
    requires m % 2 == 1 && v * m == 1 + q * p
    ensures v' * m == 1 + q' * (2 * p)
  {
    if q % 2 == 0 {
      v', q' := v, q / 2;
      Doubled(q', p);
    } else {
      v', q' := v + p, (q + m) / 2;
      Doubled(q', p);
      assert (v + p) * m == v * m + p * m;
      assert (q + m) * p == q * p + m * p;
    }
  }

  lemma Doubled(x: int, p: nat)
    ensures x * (2 * p) == (2 * x) * p
  {}

  lemma MultipleMod(q: int, m: int)
    requires m > 0
    ensures (q * m) % m == 0
  {
    ModUnique(q * m, q, 0, m);
  }

  lemma ModUnique(x: int, q: int, r: int, m: int)
    requires m > 0 && 0 <= r < m && x == q * m + r
    ensures x % m == r && x / m == q
  {
    var d := x / m - q;
    assert x == (x / m) * m + x % m;
    assert d * m == r - x % m by { assert d * m == (x / m) * m - q * m; }
    MulAtLeast(d, m);
  }

  lemma MulAtLeast(d: int, m: int)
    requires m > 0
    ensures d >= 1 ==> d * m >= m
    ensures d <= -1 ==> d * m <= -m
  {}

  // The remainder by repeated subtraction.
  function Phase(k: nat, d: nat): (r: nat)
    requires d > 0
    ensures r < d && r <= k
  {
    if k < d then k else Phase(k - d, d)
  }

  lemma {:induction false} PhaseIsRemainder(k: nat, d: nat)
    requires d > 0
    ensures Phase(k, d) == k % d
  {
    ModOfLess(k, d);
    if k >= d { PhaseIsRemainder(k - d, d); }
  }

  lemma ModOfLess(k: nat, d: nat)
    requires d > 0
    ensures k < d ==> k % d == k
    ensures k >= d ==> (k - d) % d == k % d
  {
    if k < d {
      ModUnique(k, 0, k, d);
    } else {
      var q, r := k / d, k % d;
      assert k == q * d + r;
      assert (q - 1) * d == q * d - d;
      ModUnique(k - d, q - 1, r, d);
    }
  }

  lemma ModOfMod(x: int, m: int, w: int)
    requires m > 0 && w > 0 && w % m == 0
    ensures (x % w) % m == x % m
  {
    var q := w / m;
    assert w == q * m;
    var y := x % w;
    var k := x / w;
    assert x == k * w + y;
    assert k * w == (k * q) * m;
    var a := y / m;
    assert y == a * m + y % m;
    assert x == (k * q + a) * m + y % m by { assert (k * q + a) * m == (k * q) * m + a * m; }
    ModUnique(x, k * q + a, y % m, m);
  }

  function Abs(x: real): real { if x < 0.0 then -x else x }

  // (int32_t) of a real: truncation toward zero.
  function Trunc(x: real): int { if x >= 0.0 then x.Floor else -((-x).Floor) }

  // Part of the way from one number to another.
  function Blend(a: real, b: real, alpha: real): real { a + (b - a) * alpha }

  // A fraction of a difference lies between nothing and all of it.
  lemma FractionOf(e: real, alpha: real) returns (s: real)
    requires 0.0 <= alpha <= 1.0
    ensures s == e * alpha
    ensures if e >= 0.0 then 0.0 <= s <= e else e <= s <= 0.0
  {
    s := e * alpha;
    if e >= 0.0 {
      Nonnegative(e, alpha);
      Nonnegative(e, 1.0 - alpha);
      assert e * (1.0 - alpha) == e - s;
    } else {
      Nonnegative(-e, alpha);
      Nonnegative(-e, 1.0 - alpha);
      assert (-e) * alpha == -s && (-e) * (1.0 - alpha) == -e + s;
    }
  }

  lemma Nonnegative(x: real, y: real)
    requires x >= 0.0 && y >= 0.0
    ensures x * y >= 0.0
  {}

  // Two numbers less than m apart have different remainders.
  lemma LessThanOneLap(j: nat, k: nat, m: nat)
    requires m > 0 && j < k < j + m
    ensures j % m != k % m
  {
    var d := k / m - j / m;
    assert k - j == d * m + (k % m - j % m) by {
      assert k == (k / m) * m + k % m;
      assert j == (j / m) * m + j % m;
    }
    MulAtLeast(d, m);
  }
}
