/** Euclidean division facts the solver needs spelled out. */
module Division {
  lemma DivUnique(x: int, d: int, q: int, r: int)
    requires d > 0 && x == q * d + r && 0 <= r < d
    ensures x / d == q && x % d == r
  {
    var k := x / d - q;
    assert x == (x / d) * d + x % d;
    Distribute(x / d, -q, d);
    assert (-q) * d == -(q * d);
    SmallMultiple(k, d);
  }

  lemma MulMono(x: int, y: int, d: int)
    requires x <= y && d >= 0
    ensures x * d <= y * d
  {
  }

  lemma SmallMultiple(k: int, d: int)
    requires d > 0 && -d < k * d < d
    ensures k == 0
  {
    if k >= 1 {
      MulMono(1, k, d);
    } else if k <= -1 {
      MulMono(k, -1, d);
    }
  }

  lemma Distribute(a: int, b: int, c: int)
    ensures (a + b) * c == a * c + b * c
    ensures a * b * c == a * (b * c) && a * b * c == a * c * b
  {
  }

  /** The quotient and remainder of `x` by `a * b`, digit by digit. */
  lemma TwoDigits(x: int, a: int, b: int)
    requires a > 0 && b > 0
    ensures a * b > 0 && x / (a * b) == x / a / b && x % (a * b) == x % a + a * (x / a % b)
  {
    var q1, r1 := x / a, x % a;
    var q2, r2 := q1 / b, q1 % b;
    assert x == q1 * a + r1;
    assert q1 == q2 * b + r2;
    Distribute(q2 * b, r2, a);
    Distribute(q2, b, a);
    MulMono(1, b, a);
    MulMono(0, r2, a);
    MulMono(r2, b - 1, a);
    Distribute(b, -1, a);
    var d, r := a * b, r2 * a + r1;
    assert b * a == d;
    assert x == q2 * d + r && 0 <= r < d;
    DivUnique(x, d, q2, r);
  }

  lemma DivDiv(x: int, a: int, b: int)
    requires a > 0 && b > 0
    ensures a * b > 0 && x / (a * b) == x / a / b
  {
    TwoDigits(x, a, b);
  }

  /** Splitting off the low digit: `x % (a * b)` in terms of `x % a` and `x / a`. */
  lemma ModSplit(x: int, a: int, b: int)
    requires a > 0 && b > 0
    ensures a * b > 0 && x % (a * b) == x % a + a * (x / a % b)
  {
    TwoDigits(x, a, b);
  }

  /** Bit `x / p % 2` lies inside the low field `x % (p * 2 * q)`. */
  lemma BitOfField(x: int, p: int, q: int)
    requires p > 0 && q > 0
    ensures p * (2 * q) > 0 && x / p % 2 == x % (p * (2 * q)) / p % 2
  {
    ModSplit(x, p, 2 * q);
    var low := x % (p * (2 * q));
    assert low == (x / p % (2 * q)) * p + x % p;
    DivUnique(low, p, x / p % (2 * q), x % p);
    ModSplit(x / p, 2, q);
    DivUnique(x / p % (2 * q), 2, x / p / 2 % q, x / p % 2);
  }

  /** Adding modulo `m` step by step or at once. */
  lemma ModStep(x: int, a: int, b: int, m: int)
    requires m > 0
    ensures (x % m + a) % m == (x + a) % m
    ensures ((x + a) % m + b) % m == (x + a + b) % m
  {
    ModShift(x, a, m);
    ModShift(x + a, b, m);
  }

  lemma ModShift(x: int, a: int, m: int)
    requires m > 0
    ensures (x % m + a) % m == (x + a) % m
  {
    var y := x % m + a;
    Distribute(x / m, y / m, m);
    assert x + a == (x / m + y / m) * m + y % m;
    DivUnique(x + a, m, x / m + y / m, y % m);
  }
}
