/// `HVec<dim>`: a vector of `dim` components held in a fixed-size buffer that
/// `mul` and `norm` overwrite in place. Each operation is proved against a
/// value-level definition in VecMath: `Mul` against `Scaled`, `Norm` against
/// `Normalized`, `SumOfSquares` against `SqLen`, `Cprod2` and `Cprod3` against
/// `Cross2` and `Cross3`, and the comparisons against the predicates of the
/// same names.
module HVecs {
  import opened RealFacts
  import opened VecMath

  /** `dim` zero components. */
  function Zeros(n: nat): (z: seq<real>)
    ensures |z| == n && forall i :: 0 <= i < n ==> z[i] == 0.0
  {
    seq(n, _ => 0.0)
  }

  /** The first maximum of a buffer, as `std::max_element` returns it. */
  method MaxElement(v: array<real>) returns (k: nat)
    requires v.Length > 0
    ensures k < v.Length
    ensures forall i :: 0 <= i < v.Length ==> v[i] <= v[k]
    ensures forall i :: 0 <= i < k ==> v[i] < v[k]
  {
    k := 0;
    var i := 1;
    while i < v.Length
      invariant 1 <= i <= v.Length && k < i
      invariant forall j :: 0 <= j < i ==> v[j] <= v[k]
      invariant forall j :: 0 <= j < k ==> v[j] < v[k]
    {
      if v[k] < v[i] {
        k := i;
      }
      i := i + 1;
    }
  }

  class HVec {
    /** The template parameter: the number of components. */
    const dim: nat
    /** The component buffer, `std::array<float, dim>`. */
    const d: array<real>

    ghost predicate Valid() {
      d.Length == dim
    }

    /** The components as a value. */
    function Components(): (c: seq<real>)
      reads d
      ensures |c| == d.Length
    {
      d[..]
    }

    /** Aggregate initialisation: the given components first, the rest zero. */
    constructor (dim: nat, args: seq<real>)
      requires |args| <= dim
      ensures Valid() && this.dim == dim && fresh(d)
      ensures d[..] == args + Zeros(dim - |args|)
    {
      this.dim := dim;
      d := new real[dim](i requires 0 <= i < dim => if i < |args| then args[i] else 0.0);
    }

    /** `operator[]`: component `n`; reading past the end is undefined, so the
        caller must stay inside. */
    function At(n: nat): (x: real)
      requires Valid() && n < dim
      reads d
      ensures x == Components()[n]
    {
      d[n]
    }

    /** `size`: the template parameter, which is the number of components. */
    function Size(): (n: nat)
      requires Valid()
      ensures n == |Components()|
    {
      dim
    }

    /** The sum under the square root in `vlen`: squares accumulated from the
        left, starting from zero. */
    method SumOfSquares() returns (s: real)
      requires Valid()
      ensures s == SqLen(Components())
      ensures s >= 0.0 && (s == 0.0 <==> forall i :: 0 <= i < dim ==> d[i] == 0.0)
    {
      s := 0.0;
      var i := 0;
      while i < dim
        invariant 0 <= i <= dim
        invariant s == SqLen(d[..i])
      {
        assert d[..i + 1][..i] == d[..i];
        s := s + Square(d[i]);
        i := i + 1;
      }
      assert d[..dim] == d[..];
      SqLenZero(d[..]);
    }

    /** `operator<`: this vector is strictly shorter than `b`. */
    method Less(b: HVec) returns (r: bool)
      requires Valid() && b.Valid() && b.dim == dim
      ensures r <==> VecMath.Less(Components(), b.Components())
    {
      var x := SumOfSquares();
      var y := b.SumOfSquares();
      r := x < y;
    }

    /** `operator==`: both vectors have the same length. */
    method Equal(b: HVec) returns (r: bool)
      requires Valid() && b.Valid() && b.dim == dim
      ensures r <==> VecMath.Equal(Components(), b.Components())
    {
      var x := SumOfSquares();
      var y := b.SumOfSquares();
      r := x == y;
    }

    /** `operator>`: `b < this`. */
    method Greater(b: HVec) returns (r: bool)
      requires Valid() && b.Valid() && b.dim == dim
      ensures r <==> VecMath.Greater(Components(), b.Components())
      ensures r <==> SqLen(b.Components()) < SqLen(Components())
    {
      r := b.Less(this);
    }

    /** `operator<=`: not `this > b`. */
    method LessEq(b: HVec) returns (r: bool)
      requires Valid() && b.Valid() && b.dim == dim
      ensures r <==> VecMath.LessEq(Components(), b.Components())
      ensures r <==> SqLen(Components()) <= SqLen(b.Components())
    {
      var g := Greater(b);
      r := !g;
    }

    /** `operator>=`: not `this < b`. */
    method GreaterEq(b: HVec) returns (r: bool)
      requires Valid() && b.Valid() && b.dim == dim
      ensures r <==> VecMath.GreaterEq(Components(), b.Components())
      ensures r <==> SqLen(Components()) >= SqLen(b.Components())
    {
      var l := Less(b);
      r := !l;
    }

    /** `operator!=`: not `this == b`. */
    method NotEqual(b: HVec) returns (r: bool)
      requires Valid() && b.Valid() && b.dim == dim
      ensures r <==> VecMath.NotEqual(Components(), b.Components())
      ensures r <==> SqLen(Components()) != SqLen(b.Components())
    {
      var e := Equal(b);
      r := !e;
    }

    /** `mul(a)`: every component multiplied by `a`, in place. */
    method Mul(a: real)
      requires Valid()
      modifies d
      ensures Valid()
      ensures d[..] == Scaled(old(d[..]), a)
    {
      ghost var o := d[..];
      var i := 0;
      while i < dim
        invariant 0 <= i <= dim
        invariant forall j :: 0 <= j < i ==> d[j] == o[j] * a
        invariant forall j :: i <= j < dim ==> d[j] == o[j]
      {
        d[i] := d[i] * a;
        i := i + 1;
      }
      forall j | 0 <= j < dim
        ensures d[j] == Scaled(o, a)[j]
      {
        ScaledAt(o, a, j);
      }
    }

    /** `norm()`: the absolute values are taken in a copy, the first largest
        of them found, and the vector multiplied by its reciprocal. */
    method Norm()
      requires Valid() && NonZero(Components())
      modifies d
      ensures Valid()
      ensures d[..] == Normalized(old(d[..]))
    {
      var v := new real[dim];
      var i := 0;
      while i < dim
        invariant 0 <= i <= dim
        invariant forall j :: 0 <= j < i ==> v[j] == Abs(d[j])
        invariant d[..] == old(d[..])
      {
        v[i] := if d[i] > 0.0 then d[i] else -d[i];
        i := i + 1;
      }
      MaxAbsPositive(d[..]);
      var k := MaxElement(v);
      MaxAbsUnique(d[..], v[k], k);
      Mul(1.0 / v[k]);
    }

    /** `cprod` of two `HVec<2>`: the scalar cross product. */
    method Cprod2(b: HVec) returns (r: real)
      requires Valid() && b.Valid() && dim == 2 && b.dim == 2
      ensures r == Cross2(Components(), b.Components())
    {
      r := At(0) * b.At(1) - At(1) * b.At(0);
    }

    /** `cprod` of two `HVec<3>`: a new `HVec<3>` holding the vector product. */
    method Cprod3(b: HVec) returns (r: HVec)
      requires Valid() && b.Valid() && dim == 3 && b.dim == 3
      ensures fresh(r) && fresh(r.d) && r.Valid() && r.dim == 3
      ensures r.Components() == Cross3(Components(), b.Components())
    {
      var x0, x1, x2 := At(0), At(1), At(2);
      var y0, y1, y2 := b.At(0), b.At(1), b.At(2);
      var c := [x1 * y2 - x2 * y1, x2 * y0 - x0 * y2, x0 * y1 - x1 * y0];
      ghost var e := Cross3(Components(), b.Components());
      assert c[0] == e[0] && c[1] == e[1] && c[2] == e[2];
      r := new HVec(3, c);
      assert c + Zeros(0) == c;
    }
  }

  /** The indexing test: component 1 of `HVec<3>{.1, .2, .3}` is `.2`, and
      a vector built from no components is all zeros. */
  method IndexExample() returns (x: real, z: seq<real>)
    ensures x == 0.2
    ensures z == [0.0, 0.0, 0.0]
  {
    var v := new HVec(3, [0.1, 0.2, 0.3]);
    assert v.d[..] == [0.1, 0.2, 0.3] + [];
    x := v.At(1);
    var e := new HVec(3, []);
    z := e.Components();
  }

  /** The zero-dimensional test: `HVec<0>` is an ordinary vector with no
      components, and building one succeeds. */
  method EmptyVectorExample() returns (n: nat)
    ensures n == 0
  {
    var v := new HVec(0, []);
    n := v.Size();
  }
}
