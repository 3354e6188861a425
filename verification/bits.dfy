/**
 * The bitwise operators the tokenizer applies to non-negative integers
 * (`&`, `|`, `<<`, `>>` on Python's unbounded `int`).  `And` and `Or` work
 * bit by bit from the least significant end; a left shift multiplies by a
 * power of two and a right shift drops the lowest bit k times, which is what
 * they do on values that are not negative.  The lemmas turn the patterns the
 * tokenizer uses into arithmetic: a right shift by k is floor division by 2^k,
 * masking with 2^k - 1 keeps the remainder modulo 2^k, and OR-ing a multiple
 * of 2^k with a value below 2^k adds them.
 */
module Bits {

  function Pow2(k: nat): (p: nat)
    ensures p >= 1
  {
    if k == 0 then 1 else 2 * Pow2(k - 1)
  }

  /** x << k */
  function Shl(x: nat, k: nat): nat {
    x * Pow2(k)
  }

  /** x >> k: the lowest bit dropped k times; never larger than x. */
  function Shr(x: nat, k: nat): (r: nat)
    ensures r <= x
  {
    if k == 0 then x else Shr(x / 2, k - 1)
  }

  /** x & y: a bit is set when it is set in both operands. */
  function And(x: nat, y: nat): (r: nat)
    ensures r <= x && r <= y
  {
    if x == 0 || y == 0 then 0
    else 2 * And(x / 2, y / 2) + (if x % 2 == 1 && y % 2 == 1 then 1 else 0)
  }

  /** x | y: a bit is set when it is set in either operand. */
  function Or(x: nat, y: nat): (r: nat)
    ensures x <= r && y <= r && r <= x + y
    decreases x + y
  {
    if x == 0 then y
    else if y == 0 then x
    else 2 * Or(x / 2, y / 2) + (if x % 2 == 1 || y % 2 == 1 then 1 else 0)
  }

  lemma {:induction false} OrCommutes(x: nat, y: nat)
    ensures Or(x, y) == Or(y, x)
    decreases x + y
  {
    if x != 0 && y != 0 {
      OrCommutes(x / 2, y / 2);
    }
  }

  /** A positive factor does not shrink a product. */
  lemma {:induction false} MulAtLeast(d: nat, a: nat)
    requires a >= 1
    ensures d * a >= d
  {
    if a > 1 {
      MulAtLeast(d, a - 1);
      assert d * a == d * (a - 1) + d;
    }
  }

  /** Euclidean division is unique: a quotient and a remainder in range are the ones `/` and `%` give. */
  lemma DivModUnique(x: int, d: int, q: int, r: int)
    requires d > 0 && 0 <= r < d && x == d * q + r
    ensures x / d == q && x % d == r
  {
    var q', r' := x / d, x % d;
    assert x == d * q' + r';
    assert d * (q - q') == r' - r by {
      assert d * (q - q') == d * q - d * q';
    }
    if q > q' {
      MulAtLeast(d, q - q');
    } else if q < q' {
      MulAtLeast(d, q' - q);
    }
  }

  /** Dividing twice is dividing by the product. */
  lemma DivDiv(x: nat, a: nat, b: nat)
    requires a > 0 && b > 0
    ensures (x / a) / b == x / (a * b)
  {
    var q, r := x / a, x % a;
    var q2, r2 := q / b, q % b;
    var ab := a * b;
    assert a * q == ab * q2 + a * r2 by {
      assert q == b * q2 + r2;
      assert a * (b * q2) == ab * q2;
    }
    assert a * r2 + r < ab by {
      var t := b - 1 - r2;
      assert a * t >= 0;
      assert a * t == ab - a - a * r2;
    }
    DivModUnique(x, ab, q2, a * r2 + r);
  }

  /** x >> k is floor division by 2^k, as it is on non-negative Python integers. */
  lemma {:induction false} ShrIsDiv(x: nat, k: nat)
    ensures Shr(x, k) == x / Pow2(k)
  {
    if k > 0 {
      ShrIsDiv(x / 2, k - 1);
      DivDiv(x, 2, Pow2(k - 1));
    }
  }

  /** Peeling the lowest bit off a remainder modulo 2p. */
  lemma ModTwice(x: nat, p: nat)
    requires p >= 1
    ensures x % (2 * p) == 2 * ((x / 2) % p) + x % 2
  {
    var q, r := x / 2, x % 2;
    var q2, r2 := q / p, q % p;
    assert x == (2 * p) * q2 + (2 * r2 + r) by {
      assert x == 2 * q + r;
      assert q == p * q2 + r2;
    }
    DivModUnique(x, 2 * p, q2, 2 * r2 + r);
  }

  /** x & (2^k - 1) keeps the k low bits of x. */
  lemma {:induction false} AndLowMask(x: nat, k: nat)
    ensures And(x, Pow2(k) - 1) == x % Pow2(k)
  {
    if k == 0 {
      assert Pow2(k) == 1;
    } else if x == 0 {
      DivModUnique(0, Pow2(k), 0, 0);
    } else {
      var p := Pow2(k - 1);
      var mask := Pow2(k) - 1;
      assert Pow2(k) == 2 * p;
      assert mask / 2 == p - 1 && mask % 2 == 1;
      assert And(x, mask) == 2 * And(x / 2, p - 1) + x % 2;
      AndLowMask(x / 2, k - 1);
      assert And(x / 2, p - 1) == (x / 2) % p;
      ModTwice(x, p);
      assert x % Pow2(k) == x % (2 * p);
    }
  }

  /** m << k | y adds y when y fits below bit k (the operands share no set bit). */
  lemma {:induction false} OrDisjoint(m: nat, k: nat, y: nat)
    requires y < Pow2(k)
    ensures Or(m * Pow2(k), y) == m * Pow2(k) + y
  {
    if k > 0 {
      var p := Pow2(k - 1);
      var h := m * Pow2(k);
      assert h == 2 * (m * p);
      if h != 0 && y != 0 {
        OrDisjoint(m, k - 1, y / 2);
        assert h / 2 == m * p && h % 2 == 0;
      }
    }
  }

  /** Adding a value below m to a multiple of m leaves that value as the remainder modulo m. */
  lemma ModAfterHeader(h: int, y: int, m: int)
    requires m > 0 && h % m == 0 && 0 <= y < m
    ensures (h + y) % m == y
  {
    DivModUnique(h + y, m, h / m, y);
  }
}
