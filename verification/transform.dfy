/** The lossless line transform `desplazamiento`: the admittance seen a
    distance toward the generator from a known admittance. The angle enters
    only through its cosine and sine, which are parameters here. */
module Transform {
  import opened Results

  /** A complex number as its real and imaginary parts. */
  datatype Complex = Complex(re: real, im: real)

  const Zero := Complex(0.0, 0.0)

  function Add(a: Complex, b: Complex): Complex {
    Complex(a.re + b.re, a.im + b.im)
  }

  function Mul(a: Complex, b: Complex): Complex {
    Complex(a.re * b.re - a.im * b.im, a.re * b.im + a.im * b.re)
  }

  /** A complex value times a real one. */
  function Scale(a: Complex, k: real): Complex {
    Complex(a.re * k, a.im * k)
  }

  /** A complex value divided by a non-zero real one. */
  function DivReal(a: Complex, k: real): (q: Complex)
    requires k != 0.0
    ensures Scale(q, k) == a
  {
    Complex(a.re / k, a.im / k)
  }

  /** Plain real multiplication, `x * y`. It models nothing in the script:
      it exists only for the verifier, which reuses facts about a named
      product across lemmas but not facts about a bare `x * x`. */
  function Times(x: real, y: real): real {
    x * y
  }

  /** The squared modulus `|a|^2`. */
  function NormSq(a: Complex): (n: real)
    ensures n >= 0.0
    ensures n == 0.0 <==> a == Zero
  {
    SumOfSquares(a.re, a.im);
    Times(a.re, a.re) + Times(a.im, a.im)
  }

  /** A sum of two squares is never negative, and is zero only when both
      numbers are. */
  lemma SumOfSquares(x: real, y: real)
    ensures Times(x, x) + Times(y, y) >= 0.0
    ensures Times(x, x) + Times(y, y) == 0.0 <==> x == 0.0 && y == 0.0
  {
    SquareNonNegative(x);
    SquareNonNegative(y);
    if x != 0.0 {
      SquarePositive(x);
    } else if y != 0.0 {
      SquarePositive(y);
    }
  }

  lemma ProductPositive(x: real, y: real)
    requires x > 0.0 && y > 0.0
    ensures Times(x, y) > 0.0
  {
  }

  lemma ProductOfNegations(x: real, y: real)
    ensures Times(-x, -y) == Times(x, y)
  {
  }

  lemma SquarePositive(x: real)
    requires x != 0.0
    ensures Times(x, x) > 0.0
  {
    if x > 0.0 {
      ProductPositive(x, x);
    } else {
      ProductPositive(-x, -x);
      ProductOfNegations(x, x);
    }
  }

  lemma SquareNonNegative(x: real)
    ensures Times(x, x) >= 0.0
  {
    if x != 0.0 {
      SquarePositive(x);
    }
  }

  /** Complex division. A zero divisor has no quotient: numpy yields a
      non-finite value there, which is `None` here. */
  function Div(a: Complex, b: Complex): (q: Option<Complex>)
    ensures q.Some? <==> b != Zero
    ensures q.Some? ==> Mul(q.value, b) == a
  {
    if b == Zero then None
    else
      var n := NormSq(b);
      var q := Complex((a.re * b.re + a.im * b.im) / n, (a.im * b.re - a.re * b.im) / n);
      DivIsInverse(a, b, n, q);
      Some(q)
  }

  lemma DivIsInverse(a: Complex, b: Complex, n: real, q: Complex)
    requires n == NormSq(b) && n != 0.0
    requires q == Complex((a.re * b.re + a.im * b.im) / n, (a.im * b.re - a.re * b.im) / n)
    ensures Mul(q, b) == a
  {
    assert n == b.re * b.re + b.im * b.im;
    QuotientRealPart(a.re, a.im, b.re, b.im, n, q.re, q.im);
    QuotientImagPart(a.re, a.im, b.re, b.im, n, q.re, q.im);
  }

  /** The real part of `q * b` for the quotient `q` computed by `Div`. */
  lemma QuotientRealPart(u: real, v: real, c: real, d: real, n: real, qr: real, qi: real)
    requires n == c * c + d * d && n != 0.0
    requires qr == (u * c + v * d) / n && qi == (v * c - u * d) / n
    ensures qr * c - qi * d == u
  {
    var x, y := u * c + v * d, v * c - u * d;
    calc {
      qr * c - qi * d;
      (x * c - y * d) / n;
      { assert x * c - y * d == u * n; }
      u * n / n;
      u;
    }
  }

  /** The imaginary part of `q * b` for the quotient `q` computed by `Div`. */
  lemma QuotientImagPart(u: real, v: real, c: real, d: real, n: real, qr: real, qi: real)
    requires n == c * c + d * d && n != 0.0
    requires qr == (u * c + v * d) / n && qi == (v * c - u * d) / n
    ensures qr * d + qi * c == v
  {
    var x, y := u * c + v * d, v * c - u * d;
    calc {
      qr * d + qi * c;
      (x * d + y * c) / n;
      { assert x * d + y * c == v * n; }
      v * n / n;
      v;
    }
  }

  /** Python's `1 / z`, raising `ZeroDivisionError` for `0j`: how the script
      turns the load impedance into the load admittance. */
  function Reciprocal(z: Complex): (r: Result<Complex>)
    ensures r.Ok? <==> z != Zero
    ensures r.Ok? ==> Mul(r.value, z) == Complex(1.0, 0.0)
    ensures !r.Ok? ==> r.error == ComplexDivisionByZero
  {
    match Div(Complex(1.0, 0.0), z)
    case None => Fail(ComplexDivisionByZero)
    case Some(y) => Ok(y)
  }

  /** The denominator `cos + j sin y` of the transform, with `y` the
      admittance normalised by the line admittance `y0`. */
  function Denominator(y0: real, yl: Complex, c: real, s: real): Complex
    requires y0 != 0.0
  {
    Add(Complex(c, 0.0), Mul(Complex(0.0, s), DivReal(yl, y0)))
  }

  /** `desplazamiento`: `y0 (y cos + j sin) / (cos + j sin y)` with
      `y = yl / y0`, `c` the cosine and `s` the sine of the electrical angle.
      `None` where the denominator vanishes. */
  function Displace(y0: real, yl: Complex, c: real, s: real): (r: Option<Complex>)
    requires y0 != 0.0
    ensures r.Some? <==> Denominator(y0, yl, c, s) != Zero
    ensures r.Some? ==>
      Mul(r.value, Denominator(y0, yl, c, s)) == Add(Scale(yl, c), Complex(0.0, y0 * s))
  {
    var y := DivReal(yl, y0);
    var num := Add(Scale(y, c), Complex(0.0, s));
    var den := Add(Complex(c, 0.0), Mul(Complex(0.0, s), y));
    assert Scale(num, y0) == Add(Scale(yl, c), Complex(0.0, y0 * s)) by {
      ScaleBack(y.re, y0, yl.re, c);
      ScaleBack(y.im, y0, yl.im, c);
      assert (y.re * c + 0.0) * y0 == yl.re * c + 0.0;
      assert (y.im * c + s) * y0 == (y.im * c) * y0 + s * y0;
    }
    Div(Scale(num, y0), den)
  }

  lemma ScaleBack(q: real, k: real, a: real, c: real)
    requires k != 0.0 && q == a / k
    ensures (q * c) * k == a * c
  {
    assert q * k == a;
    assert (q * c) * k == (q * k) * c;
  }

  /** At zero distance (cos = 1, sin = 0) the transform returns its input. */
  lemma DisplaceZeroDistance(y0: real, yl: Complex)
    requires y0 != 0.0
    ensures Displace(y0, yl, 1.0, 0.0) == Some(yl)
  {
    var den := Denominator(y0, yl, 1.0, 0.0);
    var y := DivReal(yl, y0);
    assert Mul(Complex(0.0, 0.0), y) == Zero;
    assert den == Complex(1.0, 0.0);
    var r := Displace(y0, yl, 1.0, 0.0).value;
    assert Mul(r, den) == r;
    assert Add(Scale(yl, 1.0), Complex(0.0, y0 * 0.0)) == yl;
  }

  /** A matched admittance (equal to the line admittance) is seen unchanged
      at every distance whose cosine and sine are not both zero. */
  lemma DisplaceMatched(y0: real, c: real, s: real)
    requires y0 != 0.0
    requires c != 0.0 || s != 0.0
    ensures Displace(y0, Complex(y0, 0.0), c, s) == Some(Complex(y0, 0.0))
  {
    var yl := Complex(y0, 0.0);
    var den := Denominator(y0, yl, c, s);
    assert DivReal(yl, y0) == Complex(1.0, 0.0);
    assert den == Complex(c, s);
    var r := Displace(y0, yl, c, s).value;
    assert Mul(r, den) == Complex(y0 * c, y0 * s);
    assert Mul(Complex(y0, 0.0), den) == Complex(y0 * c, y0 * s);
    MulCancel(r, Complex(y0, 0.0), den);
  }

  /** Multiplication by a non-zero complex number is injective. */
  lemma MulCancel(a: Complex, b: Complex, d: Complex)
    requires d != Zero
    requires Mul(a, d) == Mul(b, d)
    ensures a == b
  {
    var e := Complex(a.re - b.re, a.im - b.im);
    assert Mul(e, d) == Zero;
    var n := NormSq(d);
    assert e.re * n == Mul(e, d).re * d.re + Mul(e, d).im * d.im;
    assert e.im * n == Mul(e, d).im * d.re - Mul(e, d).re * d.im;
  }

  /** The line admittance comes from a matched load: a load impedance equal
      to the real line impedance `z0` has the line admittance `1 / z0`, which
      every distance then leaves unchanged. */
  lemma MatchedLoadStaysMatched(z0: real, c: real, s: real)
    requires z0 != 0.0
    requires c != 0.0 || s != 0.0
    ensures Reciprocal(Complex(z0, 0.0)) == Ok(Complex(1.0 / z0, 0.0))
    ensures Displace(1.0 / z0, Complex(1.0 / z0, 0.0), c, s) == Some(Complex(1.0 / z0, 0.0))
  {
    var y := Reciprocal(Complex(z0, 0.0)).value;
    assert Mul(Complex(1.0 / z0, 0.0), Complex(z0, 0.0)) == Complex(1.0, 0.0);
    MulCancel(y, Complex(1.0 / z0, 0.0), Complex(z0, 0.0));
    DisplaceMatched(1.0 / z0, c, s);
  }
}
