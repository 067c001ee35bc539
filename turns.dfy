/**
  Exact angles, measured in turns rather than radians: `Turn(num, den)` is the
  angle num/den of a full revolution, so `2π·x/n` radians is `Turn(x, n)`.
  Two angles that differ by a whole number of turns give the same rotation
  transform; `Whole` and `Congruent` capture that.
 */
module Turns {

  datatype Turn = Turn(num: int, den: int)

  /** A well-formed angle has a positive denominator. */
  type Angle = a: Turn | a.den > 0 witness Turn(0, 1)

  /** A positive integer: a denominator, a count of ticks or of days. */
  type pos = n: int | n > 0 witness 1

  /** The identity rotation. */
  const Zero: Angle := Turn(0, 1)

  /** The angle as a real number of turns. */
  function Value(a: Angle): real
  {
    a.num as real / a.den as real
  }

  /** Composing two rotations: the angles over their common denominator. */
  function Plus(a: Angle, b: Angle): Angle
  {
    ProductPositive(a.den, b.den);
    Turn(a.num * b.den + b.num * a.den, a.den * b.den)
  }

  /** The opposite rotation. */
  function Neg(a: Angle): Angle
  {
    Turn(-a.num, a.den)
  }

  /** `Plus` adds the angles and `Neg` negates them, as real numbers of turns. */
  lemma PlusNegValue(a: Angle, b: Angle)
    ensures Value(Plus(a, b)) == Value(a) + Value(b)
    ensures Value(Neg(a)) == -Value(a)
  {
    PlusValue(a, b, Plus(a, b));
  }

  /** The angle is a whole number of turns: it points in the reference direction. */
  predicate Whole(a: Angle)
  {
    a.num % a.den == 0
  }

  /** The two angles differ by a whole number of turns. */
  predicate Congruent(a: Angle, b: Angle)
  {
    Whole(Plus(a, Neg(b)))
  }

  /** `Whole` says exactly that the real value of the angle is an integer. */
  lemma WholeIffIntegral(a: Angle)
    ensures Whole(a) <==> Value(a) == Value(a).Floor as real
  {
    var q, r := a.num / a.den, a.num % a.den;
    assert a.num == q * a.den + r;
    assert Value(a) == q as real + r as real / a.den as real by {
      assert a.num as real == q as real * a.den as real + r as real;
    }
    assert 0.0 <= r as real / a.den as real < 1.0 by {
      assert 0.0 <= r as real < a.den as real;
      RealFractionBelowOne(r as real, a.den as real);
    }
    assert Value(a).Floor == q;
  }

  /** Two angles over the same denominator compose to a whole turn exactly
      when their numerators add up to a multiple of that denominator. */
  lemma WholeSameDen(x: int, y: int, n: int)
    requires n > 0
    ensures Whole(Plus(Turn(x, n), Turn(y, n))) <==> (x + y) % n == 0
  {
    assert x * n + y * n == n * (x + y);
    MulModCancel(n, x + y, n);
  }

  /** Two angles over the same denominator are congruent exactly when their
      numerators are congruent modulo that denominator. */
  lemma CongruentSameDen(x: int, y: int, n: int)
    requires n > 0
    ensures Congruent(Turn(x, n), Turn(y, n)) <==> (x - y) % n == 0
  {
    WholeSameDen(x, -y, n);
  }

  // ---- integer helpers ----

  lemma ProductPositive(a: int, b: int)
    requires a > 0 && b > 0
    ensures a * b > 0
  {
  }

  lemma PlusValue(a: Angle, b: Angle, c: Angle)
    requires c.num == a.num * b.den + b.num * a.den && c.den == a.den * b.den
    ensures Value(c) == Value(a) + Value(b)
  {
    var ad, bd := a.den as real, b.den as real;
    assert c.den as real == ad * bd;
    assert c.num as real == a.num as real * bd + b.num as real * ad;
    calc {
      Value(a) + Value(b);
      a.num as real / ad + b.num as real / bd;
      (a.num as real * bd) / (ad * bd) + (b.num as real * ad) / (ad * bd);
      (a.num as real * bd + b.num as real * ad) / (ad * bd);
      Value(c);
    }
  }

  lemma RealFractionBelowOne(r: real, d: real)
    requires 0.0 <= r < d
    ensures 0.0 <= r / d < 1.0
  {
  }

  /** A multiple of m leaves no remainder. */
  lemma MultipleMod(q: int, m: int)
    requires m > 0
    ensures (q * m) % m == 0
  {
    var d, r := (q * m) / m, (q * m) % m;
    assert q * m == d * m + r;
    assert (q - d) * m == r;
    MulBounds(q - d, m);
  }

  /** A non-zero multiple of m is at least m away from 0. */
  lemma MulBounds(t: int, m: int)
    requires m > 0
    ensures t >= 1 ==> t * m >= m
    ensures t <= -1 ==> t * m <= -m
  {
  }

  /** Scaling both x and the modulus by d > 0 does not change divisibility. */
  lemma MulModCancel(d: int, x: int, n: int)
    requires d > 0 && n > 0
    ensures (d * x) % (d * n) == 0 <==> x % n == 0
  {
    ProductPositive(d, n);
    if x % n == 0 {
      var q := x / n;
      assert x == q * n;
      assert d * x == q * (d * n);
      MultipleMod(q, d * n);
    }
    if (d * x) % (d * n) == 0 {
      var k := (d * x) / (d * n);
      assert d * x == k * (d * n);
      assert d * (x - k * n) == 0;
      assert x == k * n;
      MultipleMod(k, n);
    }
  }

  /** The only multiple of n strictly between -n and n is 0. */
  lemma SmallMultiple(x: int, n: int)
    requires n > 0 && -n < x < n
    ensures x % n == 0 <==> x == 0
  {
    if x % n == 0 {
      var q := x / n;
      assert x == q * n;
      MulBounds(q, n);
    }
  }
}
