/// Facts of real arithmetic that the vector proofs use. Each is stated on
/// named products (`Square(x)`, `c * x`) so that the proofs that use them
/// reason about those terms as wholes.
module RealFacts {

  /** The square of one component, `n * n`. */
  function Square(x: real): (r: real) {
    x * x
  }

  lemma SquareSign(x: real)
    ensures 0.0 <= Square(x)
    ensures x != 0.0 ==> 0.0 < Square(x)
  {
    if x > 0.0 {
      calc { 0.0; < x * x; == Square(x); }
    } else if x < 0.0 {
      calc { 0.0; < (-x) * (-x); == Square(x); }
    }
  }

  lemma SquareStrictMonotone(x: real, y: real)
    requires 0.0 <= x < y
    ensures Square(x) < Square(y)
  {
    calc { Square(x); == x * x; <= x * y; < y * y; == Square(y); }
  }

  /** Squares of non-negative numbers order them as the numbers themselves. */
  lemma SquareReflectsOrder(x: real, y: real)
    requires 0.0 <= y && Square(x) < Square(y)
    ensures x < y
  {
    if x >= y {
      if x > y {
        SquareStrictMonotone(y, x);
      }
      assert false;
    }
  }

  lemma SquareOfProduct(x: real, a: real)
    ensures Square(x * a) == Square(a) * Square(x)
  {
    calc {
      Square(x * a);
      (x * a) * (x * a);
      (a * a) * (x * x);
      Square(a) * Square(x);
    }
  }

  lemma MulMonotone(c: real, x: real, y: real)
    requires c >= 0.0 && x <= y
    ensures c * x <= c * y
  {
    calc { c * y - c * x; == c * (y - x); >= 0.0; }
  }

  lemma MulStrictMonotone(c: real, x: real, y: real)
    requires c > 0.0 && x < y
    ensures c * x < c * y
  {
    calc { c * y - c * x; == c * (y - x); > 0.0; }
  }

  lemma MulPositive(c: real, d: real)
    requires c > 0.0 && d > 0.0
    ensures c * d > 0.0
  {
  }

  lemma Reciprocal(m: real)
    requires m != 0.0
    ensures m * (1.0 / m) == 1.0
    ensures m > 0.0 ==> 1.0 / m > 0.0
  {
  }

  /** Dividing by an upper bound `m` of `|x|` lands in [-1, 1], keeps the
      sign, and sends `m` and `-m` to 1 and -1. */
  lemma DivideByBound(x: real, m: real, r: real)
    requires m > 0.0 && -m <= x <= m && r == x * (1.0 / m)
    ensures -1.0 <= r <= 1.0
    ensures r > 0.0 <==> x > 0.0
    ensures r < 0.0 <==> x < 0.0
    ensures x == m ==> r == 1.0
    ensures x == -m ==> r == -1.0
  {
    var q := 1.0 / m;
    Reciprocal(m);
    MulMonotone(q, x, m);
    MulMonotone(q, -m, x);
    calc { r; == q * x; <= q * m; == m * q; == 1.0; }
    calc { -1.0; == -(m * q); == q * (-m); <= q * x; == r; }
    if x > 0.0 {
      MulPositive(x, q);
    } else if x < 0.0 {
      MulPositive(-x, q);
      calc { r; == -((-x) * q); < 0.0; }
    }
    if x == -m {
      calc { r; == -(m * q); == -1.0; }
    }
  }

  /** A common positive factor cancels out of a quotient. */
  lemma CancelFactor(x: real, a: real, m: real)
    requires a != 0.0 && m != 0.0
    ensures (x * a) * (1.0 / (a * m)) == x * (1.0 / m)
  {
  }

  /** Lagrange's identity for three-component vectors, written out on components. */
  lemma LagrangeIdentity(x0: real, x1: real, x2: real, y0: real, y1: real, y2: real)
    ensures Square(x1 * y2 - x2 * y1) + Square(x2 * y0 - x0 * y2) + Square(x0 * y1 - x1 * y0)
         == (Square(x0) + Square(x1) + Square(x2)) * (Square(y0) + Square(y1) + Square(y2))
          - Square(x0 * y0 + x1 * y1 + x2 * y2)
  {
    calc {
      Square(x1 * y2 - x2 * y1) + Square(x2 * y0 - x0 * y2) + Square(x0 * y1 - x1 * y0);
      (x1 * y2 - x2 * y1) * (x1 * y2 - x2 * y1)
        + (x2 * y0 - x0 * y2) * (x2 * y0 - x0 * y2)
        + (x0 * y1 - x1 * y0) * (x0 * y1 - x1 * y0);
      (x0 * x0 + x1 * x1 + x2 * x2) * (y0 * y0 + y1 * y1 + y2 * y2)
        - (x0 * y0 + x1 * y1 + x2 * y2) * (x0 * y0 + x1 * y1 + x2 * y2);
      (Square(x0) + Square(x1) + Square(x2)) * (Square(y0) + Square(y1) + Square(y2))
        - Square(x0 * y0 + x1 * y1 + x2 * y2);
    }
  }
}
