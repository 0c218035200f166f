/**
  The `Complex` value type of complex.py: a complex number in Cartesian
  form, with real part `a` and imaginary part `b`. Every operation builds a
  new value; nothing is updated in place. Parts are exact reals.
*/
module ComplexNumbers {
  import opened Results

  /** `Complex()` with no arguments is zero, as in the Python constructor. */
  datatype Complex = Complex(a: real := 0.0, b: real := 0.0)

  /** Omitted arguments of the constructor default to zero. */
  lemma ConstructorDefaults(x: real)
    ensures Complex() == Complex(0.0, 0.0)
    ensures Complex(x) == Complex(x, 0.0)
    ensures Complex(b := x) == Complex(0.0, x)
  {
  }

  /** The exceptions the Python operations can raise. */
  datatype Error = ZeroDivisionError | AttributeError(name: string)

  /** `x + y`: component-wise sum. */
  function Add(x: Complex, y: Complex): Complex
  {
    Complex(x.a + y.a, x.b + y.b)
  }

  /** `x - y`: the value that, added to `y`, gives back `x`. */
  function Sub(x: Complex, y: Complex): (r: Complex)
    ensures Add(r, y) == x
  {
    Complex(x.a - y.a, x.b - y.b)
  }

  /** `x * y`: the standard complex product. */
  function Mul(x: Complex, y: Complex): Complex
  {
    Complex(x.a * y.a - x.b * y.b, x.a * y.b + y.a * x.b)
  }

  /** The square of `modulus()`: `a**2 + b**2`, without the square root. */
  function ModulusSquared(z: Complex): real
  {
    z.a * z.a + z.b * z.b
  }

  /** The squared modulus is never negative. */
  lemma ModulusSquaredNonNegative(z: Complex)
    ensures ModulusSquared(z) >= 0.0
  {
    SquareNonNegative(z.a);
    SquareNonNegative(z.b);
  }

  /** The squared modulus is zero exactly for the number zero. */
  lemma ModulusSquaredZeroIff(z: Complex)
    ensures ModulusSquared(z) == 0.0 <==> z == Complex()
  {
    if ModulusSquared(z) == 0.0 {
      SquareNonNegative(z.a);
      SquareNonNegative(z.b);
      assert z.a * z.a == 0.0 && z.b * z.b == 0.0;
      SquareZero(z.a);
      SquareZero(z.b);
    }
  }

  /** Every non-zero number has a strictly positive squared modulus. */
  lemma ModulusSquaredPositive(z: Complex)
    ensures ModulusSquared(z) > 0.0 <==> z != Complex()
  {
    ModulusSquaredNonNegative(z);
    ModulusSquaredZeroIff(z);
  }

  lemma SquareNonNegative(x: real)
    ensures x * x >= 0.0
  {
    if x < 0.0 {
      assert x * x == (-x) * (-x);
    }
  }

  lemma SquareZero(x: real)
    requires x * x == 0.0
    ensures x == 0.0
  {
    if x != 0.0 {
      ZeroProduct(x, x);
    }
  }

  /**
    `x / y`: multiply by the conjugate of `y` and divide both parts by the
    squared modulus of `y`. Raises ZeroDivisionError exactly when `y` is
    zero; otherwise the quotient times `y` is `x`.
  */
  function Div(x: Complex, y: Complex): (r: Result<Complex, Error>)
    ensures y == Complex() ==> r == Err(ZeroDivisionError)
    ensures y != Complex() ==> r.Ok? && Mul(r.value, y) == x
  {
    ModulusSquaredZeroIff(y);
    if ModulusSquared(y) == 0.0 then
      Err(ZeroDivisionError)
    else
      QuotientTimesDivisor(x, y);
      Ok(Quotient(x, y))
  }

  /** The two parts of `x / y` for a divisor with non-zero squared modulus. */
  function Quotient(x: Complex, y: Complex): Complex
    requires ModulusSquared(y) != 0.0
  {
    var d := ModulusSquared(y);
    Complex((x.a * y.a + x.b * y.b) / d, (y.a * x.b - x.a * y.b) / d)
  }

  lemma QuotientTimesDivisor(x: Complex, y: Complex)
    requires ModulusSquared(y) != 0.0
    ensures Mul(Quotient(x, y), y) == x
  {
    var d := ModulusSquared(y);
    var q := Quotient(x, y);
    var na, nb := x.a * y.a + x.b * y.b, y.a * x.b - x.a * y.b;
    assert q.a * d == na;
    assert q.b * d == nb;
    calc {
      (q.a * y.a - q.b * y.b) * d;
      (q.a * d) * y.a - (q.b * d) * y.b;
      na * y.a - nb * y.b;
      x.a * d;
    }
    calc {
      (q.a * y.b + y.a * q.b) * d;
      (q.a * d) * y.b + y.a * (q.b * d);
      na * y.b + y.a * nb;
      x.b * d;
    }
    ZeroProduct(q.a * y.a - q.b * y.b - x.a, d);
    ZeroProduct(q.a * y.b + y.a * q.b - x.b, d);
  }

  /**
    `conjugate()` as written reads the attribute `self.y`, which a
    `Complex` never has, so every call raises AttributeError.
  */
  function ConjugateAsWritten(z: Complex): Result<Complex, Error>
  {
    Err(AttributeError("y"))
  }

  /** The conjugate the method evidently intends: `Complex(a, -b)`. */
  function Conjugate(z: Complex): Complex
  {
    Complex(z.a, -z.b)
  }

  // ---------------------------------------------------------------------
  // Laws of the operations
  // ---------------------------------------------------------------------

  lemma ZeroIsAddIdentity(x: Complex)
    ensures Add(Complex(), x) == x && Add(x, Complex()) == x
  {
  }

  lemma AddCommutative(x: Complex, y: Complex)
    ensures Add(x, y) == Add(y, x)
  {
  }

  lemma AddAssociative(x: Complex, y: Complex, z: Complex)
    ensures Add(Add(x, y), z) == Add(x, Add(y, z))
  {
  }

  lemma SubSelfIsZero(x: Complex)
    ensures Sub(x, x) == Complex()
  {
  }

  lemma SubUndoesAdd(x: Complex, y: Complex)
    ensures Sub(Add(x, y), y) == x
  {
  }

  lemma MulCommutative(x: Complex, y: Complex)
    ensures Mul(x, y) == Mul(y, x)
  {
  }

  lemma OneIsMulIdentity(x: Complex)
    ensures Mul(x, Complex(1.0, 0.0)) == x && Mul(Complex(1.0, 0.0), x) == x
  {
  }

  lemma MulAssociative(x: Complex, y: Complex, z: Complex)
    ensures Mul(Mul(x, y), z) == Mul(x, Mul(y, z))
  {
  }

  lemma MulDistributesOverAdd(x: Complex, y: Complex, z: Complex)
    ensures Mul(x, Add(y, z)) == Add(Mul(x, y), Mul(x, z))
  {
  }

  lemma MulDistributesOverSub(x: Complex, y: Complex, z: Complex)
    ensures Mul(Sub(x, y), z) == Sub(Mul(x, z), Mul(y, z))
  {
  }

  /** The squared modulus of a product is the product of the squared moduli. */
  lemma ModulusSquaredMultiplicative(x: Complex, y: Complex)
    ensures ModulusSquared(Mul(x, y)) == ModulusSquared(x) * ModulusSquared(y)
  {
  }

  /** A product is zero only when one of its factors is. */
  lemma NoZeroDivisors(x: Complex, y: Complex)
    requires Mul(x, y) == Complex()
    ensures x == Complex() || y == Complex()
  {
    if y != Complex() {
      var d := ModulusSquared(y);
      ModulusSquaredZeroIff(y);
      assert x.a * y.a == x.b * y.b && x.a * y.b == -(y.a * x.b);
      calc {
        x.a * d;
        (x.a * y.a) * y.a + (x.a * y.b) * y.b;
        (x.b * y.b) * y.a - (y.a * x.b) * y.b;
        0.0;
      }
      calc {
        x.b * d;
        (y.a * x.b) * y.a + (x.b * y.b) * y.b;
        -(x.a * y.b) * y.a + (x.a * y.a) * y.b;
        0.0;
      }
      ZeroProduct(x.a, d);
      ZeroProduct(x.b, d);
    }
  }

  lemma ZeroProduct(p: real, q: real)
    requires p * q == 0.0 && q != 0.0
    ensures p == 0.0
  {
    assert p == (p * q) / q;
  }

  /** Multiplication by a non-zero value is injective. */
  lemma MulCancel(x: Complex, x': Complex, y: Complex)
    requires y != Complex()
    requires Mul(x, y) == Mul(x', y)
    ensures x == x'
  {
    MulDistributesOverSub(x, x', y);
    SubSelfIsZero(Mul(x, y));
    NoZeroDivisors(Sub(x, x'), y);
  }

  /** Division undoes multiplication by any non-zero value. */
  lemma DivUndoesMul(x: Complex, y: Complex)
    requires y != Complex()
    ensures Div(Mul(x, y), y) == Ok(x)
  {
    var r := Div(Mul(x, y), y);
    MulCancel(r.value, x, y);
  }

  /** Dividing by zero raises ZeroDivisionError, whatever the dividend. */
  lemma DivByZeroFails(x: Complex)
    ensures Div(x, Complex()) == Err(ZeroDivisionError)
  {
  }

  /** `x / y` is `x` times the conjugate of `y`, both parts divided by `|y|**2`. */
  lemma DivIsConjugateProduct(x: Complex, y: Complex)
    requires y != Complex()
    ensures var p, d := Mul(x, Conjugate(y)), ModulusSquared(y);
            d != 0.0 && Div(x, y) == Ok(Complex(p.a / d, p.b / d))
  {
    ModulusSquaredZeroIff(y);
    var p := Mul(x, Conjugate(y));
    assert p.a == x.a * y.a + x.b * y.b;
    assert p.b == y.a * x.b - x.a * y.b;
    var d := ModulusSquared(y);
    assert Quotient(x, y) == Complex(p.a / d, p.b / d);
    assert Div(x, y) == Ok(Quotient(x, y));
  }

  /** Every call of `conjugate()` as written fails instead of returning the conjugate. */
  lemma ConjugateAsWrittenAlwaysFails(z: Complex)
    ensures ConjugateAsWritten(z) == Err(AttributeError("y"))
    ensures ConjugateAsWritten(z) != Ok(Conjugate(z))
  {
  }

  lemma ConjugateInvolution(z: Complex)
    ensures Conjugate(Conjugate(z)) == z
  {
  }

  lemma ConjugateKeepsModulus(z: Complex)
    ensures ModulusSquared(Conjugate(z)) == ModulusSquared(z)
  {
  }

  /** A number times its conjugate is its squared modulus, with no imaginary part. */
  lemma MulConjugateIsModulusSquared(z: Complex)
    ensures Mul(z, Conjugate(z)) == Complex(ModulusSquared(z), 0.0)
  {
  }
}
