/**
 * Facts about real products and squares used by the similarity bound. The
 * square is kept behind a function so that the solver treats it as a
 * quantity of its own; comparisons with zero are written with `<` only.
 */
module RealArith {

  /** a * b. */
  function Mul(a: real, b: real): real { a * b }

  /** x ** 2. */
  function Square(x: real): real { Mul(x, x) }

  lemma MulPositive(a: real, b: real)
    requires 0.0 < a && 0.0 < b
    ensures 0.0 < Mul(a, b)
  {}

  lemma MulNegatives(a: real, b: real)
    requires a < 0.0 && b < 0.0
    ensures 0.0 < Mul(a, b)
  {
    MulPositive(-a, -b);
  }

  /** A non-zero number has a positive square. */
  lemma SquarePositive(x: real)
    ensures x < 0.0 || 0.0 < x ==> 0.0 < Square(x)
  {
    if 0.0 < x { MulPositive(x, x); } else if x < 0.0 { MulNegatives(x, x); }
  }

  /** No square is negative. */
  lemma SquareNonnegative(x: real)
    ensures !(Square(x) < 0.0)
  {
    SquarePositive(x);
  }

  lemma ProductNonnegative(a: real, b: real)
    requires !(a < 0.0) && !(b < 0.0)
    ensures !(a * b < 0.0)
  {
    if 0.0 < a && 0.0 < b { MulPositive(a, b); }
  }

  lemma MulNonnegative(a: real, b: real)
    requires !(a < 0.0) && !(b < 0.0)
    ensures !(Mul(a, b) < 0.0)
  {
    if 0.0 < a && 0.0 < b { MulPositive(a, b); }
  }

  lemma ZeroProduct(a: real, b: real)
    requires !(a < 0.0) && !(0.0 < a)
    ensures !(a * b < 0.0) && !(0.0 < a * b)
  {}

  lemma PositiveFactor(p: real, e: real)
    requires 0.0 < p && !(p * e < 0.0)
    ensures !(e < 0.0)
  {
    if e < 0.0 { MulPositive(p, -e); }
  }

  /** When p is zero, n^2 <= p * q forces n to be zero. */
  lemma ZeroBound(n: real, p: real, q: real)
    requires !(p < 0.0) && !(0.0 < p) && !(p * q < Square(n))
    ensures !(n < 0.0) && !(0.0 < n)
  {
    SquarePositive(n);
  }

  /** 2 n x y <= p y^2 + q x^2 whenever n^2 <= p q. */
  lemma CrossTerm(n: real, p: real, q: real, x: real, y: real)
    requires !(p < 0.0) && !(q < 0.0) && !(p * q < Square(n))
    ensures !(p * Square(y) + q * Square(x) < 2.0 * (n * (x * y)))
  {
    SquareNonnegative(x);
    ProductNonnegative(q, Square(x));
    if !(0.0 < p) {
      ZeroBound(n, p, q);
      ZeroProduct(n, x * y);
      ZeroProduct(p, Square(y));
    } else {
      CrossTermPositive(n, p, q, x, y);
    }
  }

  /** (p y - n x)^2 written out. */
  lemma SquareExpand(p: real, y: real, n: real, x: real)
    ensures Square(p * y - n * x) == p * (p * Square(y)) + Square(n) * Square(x) - 2.0 * (p * (n * (x * y)))
  {
    var d := p * y - n * x;
    assert Square(d) == d * d;
    assert d * d == (p * y) * (p * y) - 2.0 * ((p * y) * (n * x)) + (n * x) * (n * x);
    assert (p * y) * (p * y) == p * (p * (y * y));
    assert (n * x) * (n * x) == (n * n) * (x * x);
    assert (p * y) * (n * x) == p * (n * (x * y));
  }

  /** (p y - n x)^2 >= 0, written out. */
  lemma CrossSquare(n: real, p: real, x: real, y: real)
    ensures !(p * (p * Square(y)) + Square(n) * Square(x) - 2.0 * (p * (n * (x * y))) < 0.0)
  {
    SquareNonnegative(p * y - n * x);
    SquareExpand(p, y, n, x);
  }

  /** (p q - n^2) x^2 >= 0, written out. */
  lemma CrossRest(n: real, p: real, q: real, x: real)
    requires !(p * q < Square(n))
    ensures !(p * (q * Square(x)) - Square(n) * Square(x) < 0.0)
  {
    SquareNonnegative(x);
    ProductNonnegative(p * q - Square(n), Square(x));
    assert (p * q - Square(n)) * Square(x) == p * (q * Square(x)) - Square(n) * Square(x);
  }

  /** The case p > 0 of CrossTerm: p (p y^2 + q x^2 - 2 n x y) is the sum of
      (p y - n x)^2 and (p q - n^2) x^2, both non-negative. */
  lemma CrossTermPositive(n: real, p: real, q: real, x: real, y: real)
    requires 0.0 < p && !(p * q < Square(n))
    ensures !(p * Square(y) + q * Square(x) < 2.0 * (n * (x * y)))
  {
    CrossSquare(n, p, x, y);
    CrossRest(n, p, q, x);
    var e := p * Square(y) + q * Square(x) - 2.0 * (n * (x * y));
    assert p * e == p * (p * Square(y)) + p * (q * Square(x)) - 2.0 * (p * (n * (x * y)));
    PositiveFactor(p, e);
  }

  /** One step of the Cauchy-Schwarz inequality: adding the term (x, y)
      keeps n^2 <= p q. */
  lemma CauchySchwarzStep(n: real, p: real, q: real, x: real, y: real)
    requires !(p < 0.0) && !(q < 0.0) && !(p * q < Square(n))
    ensures !((p + Square(x)) * (q + Square(y)) < Square(n + Mul(x, y)))
  {
    CrossTerm(n, p, q, x, y);
    assert Mul(x, y) == x * y;
    assert Square(n + Mul(x, y)) == Square(n) + 2.0 * (n * (x * y)) + Square(x) * Square(y);
    assert (p + Square(x)) * (q + Square(y)) == p * q + p * Square(y) + q * Square(x) + Square(x) * Square(y);
  }

  /** 0 < d < n implies d^2 < n^2. */
  lemma SquareMonotone(d: real, n: real)
    ensures 0.0 < d && d < n ==> Square(d) < Square(n)
  {
    if 0.0 < d && d < n {
      MulPositive(n - d, d);
      MulPositive(n - d, n);
    }
  }

  lemma QuotientAtMostOne(n: real, d: real)
    requires 0.0 < d
    ensures !(d < n) ==> !(1.0 < n / d)
  {
    if 1.0 < n / d { MulPositive(n / d - 1.0, d); }
  }

  /** n^2 <= d^2 with d > 0 puts n / d in [-1, 1]. */
  lemma QuotientBounded(n: real, d: real)
    requires 0.0 < d && !(Square(d) < Square(n))
    ensures -1.0 <= n / d <= 1.0
  {
    SquareMonotone(d, n);
    SquareMonotone(d, -n);
    assert Square(-n) == Square(n);
    QuotientAtMostOne(n, d);
    QuotientAtMostOne(-n, d);
    assert (-n) / d == -(n / d);
  }

  lemma SquareOfProduct(a: real, b: real)
    ensures Square(Mul(a, b)) == Square(a) * Square(b)
  {}
  /** math.fabs. */
  function Abs(x: real): real { if x < 0.0 then -x else x }

  /** A weight times a value in [-1, 1] is bounded by the weight's size. */
  lemma MulBounded(s: real, n: real)
    requires -1.0 <= n <= 1.0
    ensures -Abs(s) <= Mul(s, n) <= Abs(s)
  {
    if 0.0 < s {
      MulNonnegative(s, 1.0 - n);
      MulNonnegative(s, 1.0 + n);
      assert Mul(s, 1.0 - n) == s - Mul(s, n);
      assert Mul(s, 1.0 + n) == s + Mul(s, n);
    } else if s < 0.0 {
      MulNonnegative(-s, 1.0 - n);
      MulNonnegative(-s, 1.0 + n);
      assert Mul(-s, 1.0 - n) == Mul(s, n) - s;
      assert Mul(-s, 1.0 + n) == -s - Mul(s, n);
    } else {
      ZeroProduct(s, n);
    }
  }

  /** A sum bounded in size by a positive total divides into [-1, 1]. */
  lemma QuotientInUnit(n: real, d: real)
    requires 0.0 < d && -d <= n <= d
    ensures -1.0 <= n / d <= 1.0
  {
    QuotientAtMostOne(n, d);
    QuotientAtMostOne(-n, d);
    assert (-n) / d == -(n / d);
  }
}
