/**
 * The integer bit operations the class-of-device decoder uses, on Python's
 * unbounded non-negative integers.
 */
module BitOps {

  /** 2 to the power k. */
  function Pow2(k: nat): (p: nat)
    ensures p >= 1
  {
    if k == 0 then 1 else 2 * Pow2(k - 1)
  }

  /** Python's `x >> k` on a non-negative integer: floor division by 2^k. */
  function ShiftRight(x: nat, k: nat): nat
  {
    x / Pow2(k)
  }

  /** Python's `a & b` on non-negative integers, taken bit by bit from the least significant end. */
  function BitAnd(a: nat, b: nat): (r: nat)
    ensures r <= a && r <= b
    decreases a
  {
    if a == 0 || b == 0 then 0
    else 2 * BitAnd(a / 2, b / 2) + (if a % 2 == 1 && b % 2 == 1 then 1 else 0)
  }

  /** Division with remainder has exactly one quotient and one remainder. */
  lemma DivModUnique(a: int, n: int, t: int, r: int)
    requires n > 0 && 0 <= r < n && a == n * t + r
    ensures a / n == t && a % n == r
  {
    var q, s := a / n, a % n;
    var d := q - t;
    assert n * d == r - s by {
      assert n * q + s == n * t + r;
      assert n * d == n * q - n * t;
    }
    if d > 0 {
      MulAtLeast(n, d);
    } else if d < 0 {
      MulAtLeast(n, -d);
    }
  }

  lemma MulAtLeast(n: int, d: int)
    requires n > 0 && d >= 1
    ensures n * d >= n
  {
    assert n * d == n + n * (d - 1);
  }

  /** Dropping the lowest bit first and then dividing by m is dividing by 2m. */
  lemma HalveThenDivide(a: nat, m: nat)
    requires m > 0
    ensures a / (2 * m) == (a / 2) / m
    ensures a % (2 * m) == 2 * ((a / 2) % m) + a % 2
  {
    var t, s, r := (a / 2) / m, (a / 2) % m, a % 2;
    assert a / 2 == m * t + s;
    assert a == (2 * m) * t + (2 * s + r);
    DivModUnique(a, 2 * m, t, 2 * s + r);
  }

  /** Masking with k low one-bits, `a & (2^k - 1)`, keeps the remainder modulo 2^k. */
  lemma {:induction false} MaskIsMod(a: nat, k: nat)
    ensures BitAnd(a, Pow2(k) - 1) == a % Pow2(k)
  {
    if a == 0 {
      DivModUnique(0, Pow2(k), 0, 0);
    } else if k > 0 {
      var m := Pow2(k - 1);
      var b := Pow2(k) - 1;
      assert Pow2(k) == 2 * m;
      DivModUnique(b, 2, m - 1, 1);
      assert BitAnd(a, b) == 2 * BitAnd(a / 2, m - 1) + a % 2;
      MaskIsMod(a / 2, k - 1);
      HalveThenDivide(a, m);
    }
  }

  /** `a & 2^k` is non-zero exactly when bit k of a is set. */
  lemma {:induction false} BitTest(a: nat, k: nat)
    ensures BitAnd(a, Pow2(k)) != 0 <==> (a / Pow2(k)) % 2 == 1
  {
    if a == 0 {
      DivModUnique(0, Pow2(k), 0, 0);
    } else if k > 0 {
      var m := Pow2(k - 1);
      DivModUnique(Pow2(k), 2, m, 0);
      BitTest(a / 2, k - 1);
      HalveThenDivide(a, m);
    }
  }
}
