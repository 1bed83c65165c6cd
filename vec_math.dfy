/// The value side of `HVec<dim>`: a vector is the sequence of its `dim`
/// components. Components are exact reals; float rounding is not modelled.
module VecMath {
  import opened RealFacts

  /** What a stub operation throws. */
  datatype Error = LogicError(message: string)

  datatype Result<T> = Ok(value: T) | Err(error: Error)

  const NotYetImplemented: Error := LogicError("Function not yet implemented")

  // ---------------------------------------------------------------------
  // Length and the comparison operators
  // ---------------------------------------------------------------------

  /** The square of `vlen`: each component squared, summed from the left
      as `std::accumulate` does, starting from zero. */
  function SqLen(v: seq<real>): (r: real)
    ensures r >= 0.0
  {
    if v == [] then 0.0
    else
      SquareSign(v[|v| - 1]);
      SqLen(v[..|v| - 1]) + Square(v[|v| - 1])
  }

  /** A vector has length zero exactly when all its components are zero. */
  lemma {:induction false} SqLenZero(v: seq<real>)
    ensures SqLen(v) == 0.0 <==> forall i :: 0 <= i < |v| ==> v[i] == 0.0
  {
    if v != [] {
      var n := |v|;
      var init, last := v[..n - 1], v[n - 1];
      SqLenZero(init);
      SquareSign(last);
      assert forall i :: 0 <= i < n - 1 ==> init[i] == v[i];
    }
  }

  /** `l` is `vlen` of `v`: the non-negative square root of the sum of squares. */
  ghost predicate IsLength(v: seq<real>, l: real) {
    l >= 0.0 && Square(l) == SqLen(v)
  }

  /** Since the square root is monotone, comparing lengths is comparing
      squared lengths; this is why the operators below use SqLen. */
  lemma LengthComparedBySquares(a: seq<real>, b: seq<real>, la: real, lb: real)
    requires IsLength(a, la) && IsLength(b, lb)
    ensures la < lb <==> SqLen(a) < SqLen(b)
    ensures la == lb <==> SqLen(a) == SqLen(b)
  {
    if la < lb {
      SquareStrictMonotone(la, lb);
    } else if lb < la {
      SquareStrictMonotone(lb, la);
    }
  }

  /** `operator<`: strictly shorter. */
  predicate Less(a: seq<real>, b: seq<real>) {
    SqLen(a) < SqLen(b)
  }

  /** `operator==`: of equal length, whatever the directions. */
  predicate Equal(a: seq<real>, b: seq<real>) {
    SqLen(a) == SqLen(b)
  }

  /** `operator>`, derived from `<` with the operands flipped. */
  predicate Greater(a: seq<real>, b: seq<real>) {
    Less(b, a)
  }

  /** `operator<=`, derived as "not `>`". */
  predicate LessEq(a: seq<real>, b: seq<real>) {
    !Greater(a, b)
  }

  /** `operator>=`, derived as "not `<`". */
  predicate GreaterEq(a: seq<real>, b: seq<real>) {
    !Less(a, b)
  }

  /** `operator!=`, derived as "not `==`". */
  predicate NotEqual(a: seq<real>, b: seq<real>) {
    !Equal(a, b)
  }

  /** What each derived operator amounts to on lengths. */
  lemma DerivedOperators(a: seq<real>, b: seq<real>)
    ensures Greater(a, b) <==> Less(b, a)
    ensures LessEq(a, b) <==> SqLen(a) <= SqLen(b)
    ensures GreaterEq(a, b) <==> SqLen(a) >= SqLen(b)
    ensures NotEqual(a, b) <==> SqLen(a) != SqLen(b)
  {
  }

  /** Exactly one of `a < b`, `a > b`, `a == b` holds. */
  lemma Trichotomy(a: seq<real>, b: seq<real>)
    ensures Less(a, b) || Greater(a, b) || Equal(a, b)
    ensures !(Less(a, b) && Greater(a, b))
    ensures !(Less(a, b) && Equal(a, b))
    ensures !(Greater(a, b) && Equal(a, b))
  {
  }

  /** `<` is a strict weak order whose incomparability is `==`. */
  lemma LessIsStrictWeakOrder(a: seq<real>, b: seq<real>, c: seq<real>)
    ensures !Less(a, a)
    ensures Less(a, b) && Less(b, c) ==> Less(a, c)
    ensures !Less(a, b) && !Less(b, a) <==> Equal(a, b)
    ensures Equal(a, a) && (Equal(a, b) ==> Equal(b, a))
    ensures Equal(a, b) && Equal(b, c) ==> Equal(a, c)
  {
  }

  /** The squared length of a vector of three components, written out. */
  lemma SqLen3(v: seq<real>)
    requires |v| == 3
    ensures SqLen(v) == Square(v[0]) + Square(v[1]) + Square(v[2])
  {
    var p, q := v[..2], v[..1];
    assert p[..1] == q && q[..0] == [];
    calc {
      SqLen(v);
      SqLen(p) + Square(v[2]);
      SqLen(q) + Square(v[1]) + Square(v[2]);
      SqLen([]) + Square(v[0]) + Square(v[1]) + Square(v[2]);
    }
  }

  /** Vectors of the same length are `==`, and `<=` each other both ways,
      whatever their components. */
  lemma SameLengthEqual(a: seq<real>, b: seq<real>)
    requires SqLen(a) == SqLen(b)
    ensures Equal(a, b) && LessEq(a, b) && LessEq(b, a)
  {
  }

  /** `==` ignores direction: two different vectors of length 1 are equal,
      and so `<=` both ways does not make two vectors the same. */
  lemma EqualIgnoresDirection()
    ensures Equal([1.0, 0.0], [0.0, 1.0]) && [1.0, 0.0] != [0.0, 1.0]
    ensures LessEq([1.0, 0.0], [0.0, 1.0]) && LessEq([0.0, 1.0], [1.0, 0.0])
  {
    assert [1.0, 0.0][..1] == [1.0];
    assert [0.0, 1.0][..1] == [0.0];
  }

  /** The `vlen` expectations of the tests: `{1,2,3}` has length about
      3.74166, which passes the one-sided check against 3.742; `{0,0,1}`
      has length 1. */
  lemma VlenExamples(l: real)
    requires IsLength([1.0, 2.0, 3.0], l)
    ensures 3.7416 < l < 3.7417
    ensures l - 3.742 < 0.00001
    ensures IsLength([0.0, 0.0, 1.0], 1.0)
  {
    SqLen3([1.0, 2.0, 3.0]);
    assert Square(l) == 14.0;
    SquareReflectsOrder(3.7416, l);
    SquareReflectsOrder(l, 3.7417);
    SqLen3([0.0, 0.0, 1.0]);
  }

  /** The comparison tests, each with the outcome the test expects. */
  lemma OperatorExamples()
    ensures Equal([0.1, 0.2, 0.3], [0.1, 0.2, 0.3])
    ensures NotEqual([0.0, 0.0, 0.0], [0.1, 0.2, 0.3])
    ensures Less([0.1, 0.2, 0.1], [0.1, 0.2, 0.3])
    ensures !Less([0.1, 0.2, 0.3], [0.0, 0.0, 0.0])
    ensures Greater([0.1, -0.2, -0.3], [0.1, 0.1, 0.0])
    ensures GreaterEq([0.1, 0.2, 0.3], [0.0, 0.0, 0.3])
    ensures GreaterEq([0.0, 0.0, 0.3], [0.0, 0.0, 0.3])
    ensures LessEq([0.0, 0.0, 0.0], [0.1, 0.2, 0.3])
  {
    SqLen3([0.1, 0.2, 0.3]);
    SqLen3([0.0, 0.0, 0.0]);
    SqLen3([0.1, 0.2, 0.1]);
    SqLen3([0.1, -0.2, -0.3]);
    SqLen3([0.1, 0.1, 0.0]);
    SqLen3([0.0, 0.0, 0.3]);
  }

  // ---------------------------------------------------------------------
  // Scaling (`mul`) and max-abs normalisation (`norm`)
  // ---------------------------------------------------------------------

  /** Every component multiplied by `a`: the new value of `d` after `mul(a)`. */
  function Scaled(v: seq<real>, a: real): (r: seq<real>)
    ensures |r| == |v|
  {
    seq(|v|, i requires 0 <= i < |v| => v[i] * a)
  }

  lemma ScaledAt(v: seq<real>, a: real, i: nat)
    requires i < |v|
    ensures |Scaled(v, a)| == |v| && Scaled(v, a)[i] == v[i] * a
  {
  }

  /** Scaling commutes with dropping the last component. */
  lemma ScaledInit(v: seq<real>, a: real)
    requires |v| > 0
    ensures Scaled(v, a)[..|v| - 1] == Scaled(v[..|v| - 1], a)
  {
    var p, q := Scaled(v, a)[..|v| - 1], Scaled(v[..|v| - 1], a);
    forall i | 0 <= i < |v| - 1
      ensures p[i] == q[i]
    {
    }
  }

  /** Scaling by `a` multiplies the squared length by `a * a`. */
  lemma {:induction false} ScaledSqLen(v: seq<real>, a: real)
    ensures SqLen(Scaled(v, a)) == Square(a) * SqLen(v)
  {
    if v != [] {
      var n := |v|;
      var w := Scaled(v, a);
      ScaledInit(v, a);
      ScaledSqLen(v[..n - 1], a);
      ScaledAt(v, a, n - 1);
      SquareOfProduct(v[n - 1], a);
      var c, x, y := Square(a), SqLen(v[..n - 1]), Square(v[n - 1]);
      calc {
        SqLen(w);
        SqLen(Scaled(v[..n - 1], a)) + Square(v[n - 1] * a);
        c * x + c * y;
        c * (x + y);
        Square(a) * SqLen(v);
      }
    }
  }

  /** Scaling two vectors by the same non-zero factor keeps how they compare. */
  lemma ScalingKeepsOrder(v: seq<real>, w: seq<real>, a: real)
    requires a != 0.0
    ensures Less(Scaled(v, a), Scaled(w, a)) <==> Less(v, w)
    ensures Equal(Scaled(v, a), Scaled(w, a)) <==> Equal(v, w)
  {
    var c, x, y := Square(a), SqLen(v), SqLen(w);
    var sx, sy := SqLen(Scaled(v, a)), SqLen(Scaled(w, a));
    ScaledSqLen(v, a);
    ScaledSqLen(w, a);
    assert sx == c * x && sy == c * y;
    SquareSign(a);
    if x < y {
      MulStrictMonotone(c, x, y);
      calc { sx; == c * x; < c * y; == sy; }
    } else if y < x {
      MulStrictMonotone(c, y, x);
      calc { sy; == c * y; < c * x; == sx; }
    } else {
      assert sx == sy;
    }
  }

  /** `mul(1/a)` undoes `mul(a)`. */
  lemma ScaledInverse(v: seq<real>, a: real)
    requires a != 0.0
    ensures Scaled(Scaled(v, a), 1.0 / a) == v
  {
    var w := Scaled(Scaled(v, a), 1.0 / a);
    Reciprocal(a);
    forall i | 0 <= i < |v|
      ensures w[i] == v[i]
    {
      calc {
        w[i];
        (v[i] * a) * (1.0 / a);
        v[i] * (a * (1.0 / a));
        v[i];
      }
    }
  }

  /** The absolute value as `norm` computes it: `n > 0 ? n : -n`. */
  function Abs(x: real): (r: real)
    ensures r >= 0.0 && (r == x || r == -x)
  {
    if x > 0.0 then x else -x
  }

  /** The largest absolute component, as `std::max_element` over the absolute
      values finds it: a later element replaces the maximum only when strictly
      larger. Its properties are the lemmas below. */
  function MaxAbs(v: seq<real>): (r: real)
    requires |v| > 0
    ensures r >= 0.0
  {
    if |v| == 1 then Abs(v[0])
    else
      var m := MaxAbs(v[..|v| - 1]);
      if m < Abs(v[|v| - 1]) then Abs(v[|v| - 1]) else m
  }

  /** MaxAbs bounds every absolute component... */
  lemma {:induction false} MaxAbsBound(v: seq<real>, i: nat)
    requires i < |v|
    ensures Abs(v[i]) <= MaxAbs(v)
  {
    if i < |v| - 1 {
      var init := v[..|v| - 1];
      assert init[i] == v[i];
      MaxAbsBound(init, i);
    }
  }

  /** ... and one component attains it. */
  lemma {:induction false} MaxAbsAttained(v: seq<real>) returns (k: nat)
    requires |v| > 0
    ensures k < |v| && Abs(v[k]) == MaxAbs(v)
  {
    if |v| == 1 {
      k := 0;
    } else {
      var init := v[..|v| - 1];
      k := MaxAbsAttained(init);
      assert init[k] == v[k];
      if MaxAbs(init) < Abs(v[|v| - 1]) {
        k := |v| - 1;
      }
    }
  }

  /** So a bound on the absolute components that one of them attains is MaxAbs. */
  lemma MaxAbsUnique(v: seq<real>, m: real, k: nat)
    requires k < |v| && Abs(v[k]) == m
    requires forall i :: 0 <= i < |v| ==> Abs(v[i]) <= m
    ensures MaxAbs(v) == m
  {
    var j := MaxAbsAttained(v);
    MaxAbsBound(v, k);
  }

  /** Some component is non-zero. */
  predicate NonZero(v: seq<real>) {
    exists i :: 0 <= i < |v| && v[i] != 0.0
  }

  /** The largest absolute component of a vector that is not zero is positive. */
  lemma MaxAbsPositive(v: seq<real>)
    requires NonZero(v)
    ensures |v| > 0 && MaxAbs(v) > 0.0
  {
    var k :| 0 <= k < |v| && v[k] != 0.0;
    MaxAbsBound(v, k);
  }

  /** The new value of `d` after `norm()`: scaled by the reciprocal of the
      largest absolute component. */
  function Normalized(v: seq<real>): (r: seq<real>)
    requires NonZero(v)
    ensures |r| == |v|
  {
    MaxAbsPositive(v);
    Scaled(v, 1.0 / MaxAbs(v))
  }

  /** Component `i` of a normalised vector is `v[i]` divided by MaxAbs. */
  lemma NormalizedAt(v: seq<real>, i: nat) returns (m: real)
    requires NonZero(v) && i < |v|
    ensures m == MaxAbs(v) && m > 0.0 && -m <= v[i] <= m
    ensures |Normalized(v)| == |v| && Normalized(v)[i] == v[i] * (1.0 / m)
  {
    MaxAbsPositive(v);
    MaxAbsBound(v, i);
    m := MaxAbs(v);
    var q := 1.0 / m;
    assert Normalized(v) == Scaled(v, q);
    ScaledAt(v, q, i);
  }

  /** One component of a normalised vector, compared with the one it came from. */
  lemma NormalizedComponent(v: seq<real>, i: nat)
    requires NonZero(v) && i < |v|
    ensures |Normalized(v)| == |v|
    ensures -1.0 <= Normalized(v)[i] <= 1.0
    ensures Normalized(v)[i] > 0.0 <==> v[i] > 0.0
    ensures Normalized(v)[i] < 0.0 <==> v[i] < 0.0
  {
    var m := NormalizedAt(v, i);
    DivideByBound(v[i], m, Normalized(v)[i]);
  }

  /** A component of largest absolute value becomes 1 or -1. */
  lemma NormalizedExtreme(v: seq<real>, i: nat)
    requires NonZero(v) && i < |v| && Abs(v[i]) == MaxAbs(v)
    ensures |Normalized(v)| == |v| && Abs(Normalized(v)[i]) == 1.0
  {
    var m := NormalizedAt(v, i);
    var r := Normalized(v)[i];
    DivideByBound(v[i], m, r);
    if v[i] > 0.0 {
      assert v[i] == m && r == 1.0;
    } else {
      assert v[i] == -m && r == -1.0;
    }
  }

  /** After `norm()` every component lies in [-1, 1], the largest in absolute
      value is exactly 1 or -1, and no component changes sign. */
  lemma NormalizedBounds(v: seq<real>)
    requires NonZero(v)
    ensures |Normalized(v)| == |v|
    ensures forall i :: 0 <= i < |v| ==> -1.0 <= Normalized(v)[i] <= 1.0
    ensures exists i :: 0 <= i < |v| && Abs(Normalized(v)[i]) == 1.0
    ensures forall i :: 0 <= i < |v| ==> (Normalized(v)[i] > 0.0 <==> v[i] > 0.0)
    ensures forall i :: 0 <= i < |v| ==> (Normalized(v)[i] < 0.0 <==> v[i] < 0.0)
  {
    forall i | 0 <= i < |v|
      ensures -1.0 <= Normalized(v)[i] <= 1.0
      ensures Normalized(v)[i] > 0.0 <==> v[i] > 0.0
      ensures Normalized(v)[i] < 0.0 <==> v[i] < 0.0
    {
      NormalizedComponent(v, i);
    }
    MaxAbsPositive(v);
    var k := MaxAbsAttained(v);
    NormalizedExtreme(v, k);
  }

  /** Normalising a normalised vector changes nothing. */
  lemma NormalizedIdempotent(v: seq<real>)
    requires NonZero(v)
    ensures NonZero(Normalized(v))
    ensures Normalized(Normalized(v)) == Normalized(v)
  {
    var r := Normalized(v);
    NormalizedBounds(v);
    var k :| 0 <= k < |r| && Abs(r[k]) == 1.0;
    assert r[k] != 0.0;
    forall i | 0 <= i < |r|
      ensures Abs(r[i]) <= 1.0
    {
    }
    MaxAbsUnique(r, 1.0, k);
    forall i | 0 <= i < |r|
      ensures Normalized(r)[i] == r[i]
    {
      ScaledAt(r, 1.0 / 1.0, i);
    }
  }

  /** Scaling by a positive factor scales the absolute value by it. */
  lemma AbsOfScaled(x: real, a: real)
    requires a > 0.0
    ensures Abs(x * a) == a * Abs(x)
  {
    if x > 0.0 {
      MulPositive(x, a);
    } else if x < 0.0 {
      MulPositive(-x, a);
      calc { x * a; == -((-x) * a); < 0.0; }
    }
  }

  /** One absolute component of a vector scaled by a positive factor. */
  lemma AbsScaledAt(v: seq<real>, a: real, i: nat)
    requires a > 0.0 && i < |v|
    ensures Abs(Scaled(v, a)[i]) == a * Abs(v[i])
  {
    ScaledAt(v, a, i);
    AbsOfScaled(v[i], a);
  }

  /** A bound on an absolute component, scaled by a positive factor. */
  lemma AbsScaledBounded(v: seq<real>, a: real, m: real, am: real, i: nat)
    requires a > 0.0 && i < |v| && Abs(v[i]) <= m && am == a * m
    ensures Abs(Scaled(v, a)[i]) <= am
  {
    AbsScaledAt(v, a, i);
    MulMonotone(a, Abs(v[i]), m);
  }

  /** Scaling by a positive factor scales the largest absolute component by it. */
  lemma MaxAbsScaled(v: seq<real>, a: real, m: real, am: real)
    requires NonZero(v) && a > 0.0 && m == MaxAbs(v) && am == a * m
    ensures NonZero(Scaled(v, a))
    ensures MaxAbs(Scaled(v, a)) == am
  {
    MaxAbsPositive(v);
    var w := Scaled(v, a);
    var k := MaxAbsAttained(v);
    AbsScaledAt(v, a, k);
    MulPositive(a, m);
    assert w[k] != 0.0;
    forall i | 0 <= i < |w|
      ensures Abs(w[i]) <= am
    {
      MaxAbsBound(v, i);
      AbsScaledBounded(v, a, m, am, i);
    }
    MaxAbsUnique(w, am, k);
  }

  lemma ScaledTwice(v: seq<real>, a: real, m: real, am: real)
    requires a != 0.0 && m != 0.0 && am == a * m
    ensures Scaled(Scaled(v, a), 1.0 / am) == Scaled(v, 1.0 / m)
  {
    var w := Scaled(v, a);
    var p, q := Scaled(w, 1.0 / am), Scaled(v, 1.0 / m);
    forall i | 0 <= i < |v|
      ensures p[i] == q[i]
    {
      ScaledAt(v, a, i);
      ScaledAt(w, 1.0 / am, i);
      ScaledAt(v, 1.0 / m, i);
      CancelFactor(v[i], a, m);
    }
  }

  /** Normalisation forgets a positive factor: `mul(a)` with `a > 0` before
      `norm()` gives the same vector as `norm()` alone. */
  lemma NormalizedScaleInvariant(v: seq<real>, a: real)
    requires NonZero(v) && a > 0.0
    ensures NonZero(Scaled(v, a))
    ensures Normalized(Scaled(v, a)) == Normalized(v)
  {
    MaxAbsPositive(v);
    var m := MaxAbs(v);
    var am := a * m;
    MaxAbsScaled(v, a, m, am);
    ScaledTwice(v, a, m, am);
  }

  // ---------------------------------------------------------------------
  // Cross products
  // ---------------------------------------------------------------------

  /** `cprod` for `HVec<2>`: the scalar `d0*b1 - d1*b0`. */
  function Cross2(d: seq<real>, b: seq<real>): (r: real)
    requires |d| == 2 && |b| == 2
  {
    d[0] * b[1] - d[1] * b[0]
  }

  /** `cprod` for `HVec<3>`: the usual vector product. */
  function Cross3(d: seq<real>, b: seq<real>): (r: seq<real>)
    requires |d| == 3 && |b| == 3
    ensures |r| == 3
  {
    [d[1] * b[2] - d[2] * b[1],
     d[2] * b[0] - d[0] * b[2],
     d[0] * b[1] - d[1] * b[0]]
  }

  /** The 2-D product changes sign with its operands and vanishes on equal ones. */
  lemma Cross2Antisymmetric(d: seq<real>, b: seq<real>)
    requires |d| == 2 && |b| == 2
    ensures Cross2(d, b) == -Cross2(b, d)
    ensures Cross2(d, d) == 0.0
  {
  }

  /** The 3-D product changes sign with its operands and vanishes on equal ones. */
  lemma Cross3Antisymmetric(d: seq<real>, b: seq<real>)
    requires |d| == 3 && |b| == 3
    ensures Cross3(d, b) == Scaled(Cross3(b, d), -1.0)
    ensures Cross3(d, d) == [0.0, 0.0, 0.0]
  {
  }

  /** The 3-D product is orthogonal to both operands. */
  lemma Cross3Orthogonal(d: seq<real>, b: seq<real>)
    requires |d| == 3 && |b| == 3
    ensures var c := Cross3(d, b); d[0] * c[0] + d[1] * c[1] + d[2] * c[2] == 0.0
    ensures var c := Cross3(d, b); b[0] * c[0] + b[1] * c[1] + b[2] * c[2] == 0.0
  {
  }

  /** The 2-D product is the third component of the 3-D product of the two
      vectors lifted into the plane z = 0; the other two components are zero. */
  lemma Cross2IsPlanarCross3(d: seq<real>, b: seq<real>)
    requires |d| == 2 && |b| == 2
    ensures Cross3(d + [0.0], b + [0.0]) == [0.0, 0.0, Cross2(d, b)]
  {
    var e, f := d + [0.0], b + [0.0];
    assert e[0] == d[0] && e[1] == d[1] && e[2] == 0.0;
    assert f[0] == b[0] && f[1] == b[1] && f[2] == 0.0;
    var c := Cross3(e, f);
    calc { c[0]; == d[1] * 0.0 - 0.0 * b[1]; == 0.0; }
    calc { c[1]; == 0.0 * b[0] - d[0] * 0.0; == 0.0; }
    calc { c[2]; == d[0] * b[1] - d[1] * b[0]; == Cross2(d, b); }
  }

  /** Lagrange's identity: the squared length of the 3-D product is the product
      of the squared lengths less the squared inner product. */
  lemma Cross3Lagrange(d: seq<real>, b: seq<real>)
    requires |d| == 3 && |b| == 3
    ensures SqLen(Cross3(d, b)) == SqLen(d) * SqLen(b) - Square(d[0] * b[0] + d[1] * b[1] + d[2] * b[2])
  {
    var c := Cross3(d, b);
    SqLen3(d);
    SqLen3(b);
    SqLen3(c);
    LagrangeIdentity(d[0], d[1], d[2], b[0], b[1], b[2]);
    calc {
      SqLen(c);
      Square(c[0]) + Square(c[1]) + Square(c[2]);
      Square(d[1] * b[2] - d[2] * b[1]) + Square(d[2] * b[0] - d[0] * b[2]) + Square(d[0] * b[1] - d[1] * b[0]);
    }
  }

  /** The unit-basis examples: `{1,0} x {0,1} == 1` and `{1,0,0} x {0,1,0} == {0,0,1}`. */
  lemma CrossExamples()
    ensures Cross2([1.0, 0.0], [0.0, 1.0]) == 1.0
    ensures Cross3([1.0, 0.0, 0.0], [0.0, 1.0, 0.0]) == [0.0, 0.0, 1.0]
  {
  }

  // ---------------------------------------------------------------------
  // The two stubs
  // ---------------------------------------------------------------------

  /** `sum`: a stub that throws `std::logic_error`. */
  function Sum(d: seq<real>, b: seq<real>): (r: Result<seq<real>>)
    ensures r.Err?
  {
    Err(NotYetImplemented)
  }

  /** `dprod`: a stub that throws `std::logic_error`. */
  function Dprod(d: seq<real>, b: seq<real>): (r: Result<real>)
    ensures r.Err?
  {
    Err(NotYetImplemented)
  }

  /** Both stubs fail on every input, with the same message. */
  lemma StubsAlwaysFail(d: seq<real>, b: seq<real>)
    ensures Sum(d, b) == Err(LogicError("Function not yet implemented"))
    ensures Dprod(d, b) == Err(LogicError("Function not yet implemented"))
  {
  }
}
