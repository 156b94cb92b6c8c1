/** Binary arithmetic on natural numbers: powers of two and the bitwise operators of C. */
module Bits {
  import opened Words

  function Pow2(n: nat): (r: nat)
    ensures r > 0
  {
    if n == 0 then 1 else 2 * Pow2(n - 1)
  }

  function And(a: nat, b: nat): nat
  {
    if a == 0 || b == 0 then 0 else 2 * And(a / 2, b / 2) + a % 2 * (b % 2)
  }

  function Or(a: nat, b: nat): nat
    decreases a + b
  {
    if a == 0 then b else if b == 0 then a
    else 2 * Or(a / 2, b / 2) + if a % 2 + b % 2 > 0 then 1 else 0
  }

  function Xor(a: nat, b: nat): nat
    decreases a + b
  {
    if a == 0 then b else if b == 0 then a else 2 * Xor(a / 2, b / 2) + (a + b) % 2
  }

  /** Bitwise operators do not leave the width of their operands. */
  lemma {:induction false} BitwiseWidth(a: nat, b: nat, n: nat)
    requires a < Pow2(n) && b < Pow2(n)
    ensures And(a, b) < Pow2(n) && Or(a, b) < Pow2(n) && Xor(a, b) < Pow2(n)
    decreases n
  {
    if a != 0 && b != 0 {
      assert n > 0 && Pow2(n) == 2 * Pow2(n - 1);
      BitwiseWidth(a / 2, b / 2, n - 1);
      AndSplit(a, b);
      assert Or(a, b) <= 2 * Or(a / 2, b / 2) + 1 && Xor(a, b) <= 2 * Xor(a / 2, b / 2) + 1;
      assert And(a, b) <= 2 * And(a / 2, b / 2) + 1 by { MulMono(a % 2, 1, b % 2); }
    }
  }

  lemma {:induction false} Pow2Add(m: nat, n: nat)
    ensures Pow2(m + n) == Pow2(m) * Pow2(n)
  {
    if m > 0 {
      Pow2Add(m - 1, n);
      assert Pow2(m + n) == 2 * Pow2(m - 1 + n);
    }
  }

  lemma {:induction false} Pow2Monotone(m: nat, n: nat)
    requires m <= n
    ensures Pow2(m) <= Pow2(n)
    decreases n
  {
    if m < n { Pow2Monotone(m, n - 1); }
  }

  lemma {:induction false} Pow2Values()
    ensures Pow2(8) == 0x100 && Pow2(16) == 0x1_0000 && Pow2(32) == 0x1_0000_0000
    ensures Pow2(64) == 0x1_0000_0000_0000_0000 && Pow2(63) == 0x8000_0000_0000_0000
  {
    assert Pow2(8) == 0x100;
    Pow2Add(8, 8);
    Pow2Add(16, 16);
    Pow2Add(32, 32);
    assert Pow2(64) == 2 * Pow2(63);
  }

  /** Bit `k` of `x`. */
  function Bit(x: nat, k: nat): (b: nat)
    ensures b <= 1
  {
    x / Pow2(k) % 2
  }

  /** Quotient and remainder are determined by the division equation. */
  lemma {:induction false} DivUnique(n: int, d: nat, q: int, r: int)
    requires n == q * d + r && 0 <= r < d
    ensures n / d == q && n % d == r
  {
    QuotientUnique(n, d, n / d, n % d, q, r);
  }

  lemma {:induction false} QuotientUnique(n: int, d: nat, a: int, s: int, b: int, t: int)
    requires n == a * d + s && 0 <= s < d && n == b * d + t && 0 <= t < d
    ensures a == b && s == t
  {
    MulMono(a + 1, b, d);
    MulMono(b + 1, a, d);
    assert (a + 1) * d == a * d + d && (b + 1) * d == b * d + d;
  }

  /** Shifting right by one more place. */
  lemma {:induction false} ShiftStep(n: nat, i: nat)
    ensures n / Pow2(i) == 2 * (n / Pow2(i + 1)) + Bit(n, i)
  {
    DivideTwice(n, Pow2(i), 2);
    Halved(n / Pow2(i));
  }

  lemma {:induction false} Halved(q: nat)
    ensures q == 2 * (q / 2) + q % 2
  {
  }

  /** Setting a bit below all the others adds it. */
  lemma {:induction false} OrLowBit(x: nat, k: nat)
    ensures Or(x * Pow2(k + 1), Pow2(k)) == x * Pow2(k + 1) + Pow2(k)
  {
    OrBelow(x, Pow2(k), k + 1);
  }

  lemma {:induction false} AndEven(x: nat, y: nat)
    ensures And(x, 2 * y) == 2 * And(x / 2, y)
  {
  }

  lemma {:induction false} AndOdd(x: nat, y: nat)
    ensures And(x, 2 * y + 1) == 2 * And(x / 2, y) + x % 2
  {
    assert (2 * y + 1) / 2 == y && (2 * y + 1) % 2 == 1;
    assert And(x / 2, 0) == 0 && And(0, y) == 0;
  }

  /** Masking with ones in the low `m` places takes the remainder. */
  lemma {:induction false} AndLow(x: nat, m: nat)
    ensures And(x, Pow2(m) - 1) == x % Pow2(m)
    decreases m
  {
    if m == 0 {
      assert x % 1 == 0;
    } else {
      AndLow(x / 2, m - 1);
      AndLowStep(x, Pow2(m - 1));
    }
  }

  lemma {:induction false} AndLowStep(x: nat, a: nat)
    requires a > 0 && And(x / 2, a - 1) == x / 2 % a
    ensures And(x, 2 * a - 1) == x % (2 * a)
  {
    AndOdd(x, a - 1);
    HalfDivide(x, a);
    assert 2 * (a - 1) + 1 == 2 * a - 1;
  }

  lemma {:induction false} HalfDivide(x: nat, a: nat)
    requires a > 0
    ensures x / 2 / a == x / (2 * a)
    ensures x % (2 * a) == 2 * (x / 2 % a) + x % 2
  {
    var q, r := x / 2 / a, x / 2 % a;
    assert x / 2 == q * a + r;
    assert 2 * (q * a) == q * (2 * a);
    DivUnique(x, 2 * a, q, 2 * r + x % 2);
  }

  /** `x << k | v` for a value that fits below. */
  lemma {:induction false} OrBelow(x: nat, v: nat, k: nat)
    requires v < Pow2(k)
    ensures Or(x * Pow2(k), v) == x * Pow2(k) + v
    decreases k
  {
    if k > 0 && x > 0 && v > 0 {
      OrBelow(x, v / 2, k - 1);
      TwiceProduct(x, Pow2(k - 1));
      MulMono(1, x, Pow2(k - 1));
    }
  }

  lemma {:induction false} TwiceProduct(q: int, a: int)
    ensures 2 * (q * a) == q * (2 * a)
  {
  }

  lemma {:induction false} QuotientNat(x: nat, p: nat)
    requires p > 0
    ensures x / p >= 0
  {
  }

  lemma {:induction false} DivideDown(x: nat, p: nat)
    requires p > 0
    ensures x / p * p <= x
  {
    assert x == x / p * p + x % p;
  }

  lemma {:induction false} AndSplit(a: nat, b: nat)
    ensures And(a, b) == 2 * And(a / 2, b / 2) + a % 2 * (b % 2)
  {
  }

  lemma {:induction false} DivideTwice(x: nat, a: nat, b: nat)
    requires a > 0 && b > 0
    ensures a * b > 0 && x / a / b == x / (a * b)
  {
    var q, r := x / a, x % a;
    var p, t := q / b, q % b;
    assert x == q * a + r && q == p * b + t;
    assert x == p * (a * b) + (t * a + r) by {
      assert (p * b + t) * a == p * b * a + t * a;
      assert p * b * a == p * (a * b);
    }
    MulMono(t + 1, b, a);
    assert (t + 1) * a == t * a + a && b * a == a * b;
    DivUnique(x, a * b, p, t * a + r);
  }

  lemma {:induction false} Whole(x: nat, p: nat)
    requires p > 0 && x % p == 0
    ensures x / p * p == x
  {
  }
}
