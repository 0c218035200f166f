/**
  The text form of a `Complex`, as `__repr__` builds it in complex.py.

  Python's `str` of a part is a parameter `show`, so the branch structure of
  `__repr__` is modelled for any number-to-text conversion. A part that is
  absent is `None`; Python's truthiness test (`not real_part`) is `Truthy`.
  For parts that are whole numbers, `ShowInt` is Python's decimal `str` of
  an `int`, and `ParseRepr` reads the text back: the two form a round trip.
*/
module ComplexText {
  import opened Results
  import opened ComplexNumbers

  /** Python truthiness of `None` or a string: only a non-empty string is true. */
  predicate Truthy(p: Option<string>)
  {
    p.Some? && p.value != ""
  }

  /** `real_part`: absent when `a` is zero, otherwise `str(a)`. */
  function RealPart(z: Complex, show: real -> string): Option<string>
  {
    if z.a == 0.0 then None else Some(show(z.a))
  }

  /** The text of a non-zero imaginary part: `i`, `-i`, or the number then `i`. */
  function ImagText(b: real, show: real -> string): (r: string)
    ensures |r| > 0 && r[|r| - 1] == 'i'
  {
    if b == 1.0 then "i"
    else if b == -1.0 then "-i"
    else show(b) + "i"
  }

  /** `imag_part`: absent when `b` is zero. */
  function ImagPart(z: Complex, show: real -> string): Option<string>
  {
    if z.b == 0.0 then None else Some(ImagText(z.b, show))
  }

  /**
    `repr(z)`. Zero prints as `0`; a number with one non-zero part prints
    only that part; otherwise the two parts are joined, with `+` between
    them exactly when the imaginary part is positive (a negative one brings
    its own `-`).
  */
  function Repr(z: Complex, show: real -> string): (r: string)
    ensures z.a == 0.0 && z.b == 0.0 ==> r == "0"
    ensures z.a == 0.0 && z.b == 1.0 ==> r == "i"
    ensures z.a == 0.0 && z.b == -1.0 ==> r == "-i"
    ensures z.a != 0.0 && z.b == 0.0 && show(z.a) != "" ==> r == show(z.a)
    ensures z.a == 0.0 && z.b != 0.0 ==> r == ImagText(z.b, show)
    ensures z.a != 0.0 && z.b != 0.0 && show(z.a) != "" ==>
              r == show(z.a) + (if z.b > 0.0 then "+" else "") + ImagText(z.b, show)
  {
    var re, im := RealPart(z, show), ImagPart(z, show);
    if !Truthy(re) && !Truthy(im) then "0"
    else if Truthy(re) && !Truthy(im) then re.value
    else if Truthy(im) && !Truthy(re) then im.value
    else if z.b > 0.0 then re.value + "+" + im.value
    else re.value + im.value
  }

  // ---------------------------------------------------------------------
  // Decimal text of whole numbers (Python's `str` of an `int`)
  // ---------------------------------------------------------------------

  predicate IsDigit(c: char)
  {
    '0' <= c <= '9'
  }

  predicate AllDigits(s: string)
  {
    forall i :: 0 <= i < |s| ==> IsDigit(s[i])
  }

  function DigitChar(d: nat): (c: char)
    requires d < 10
    ensures IsDigit(c) && DigitValue(c) == d
  {
    ['0', '1', '2', '3', '4', '5', '6', '7', '8', '9'][d]
  }

  function DigitValue(c: char): nat
    requires IsDigit(c)
  {
    (c as int - '0' as int) as nat
  }

  /** Decimal digits of `n`, most significant first, with no leading zero. */
  function NatText(n: nat): (s: string)
    ensures |s| > 0 && AllDigits(s)
    ensures |s| > 1 ==> s[0] != '0'
  {
    if n < 10 then [DigitChar(n)]
    else NatText(n / 10) + [DigitChar(n % 10)]
  }

  /** `str(i)` for an `int`: a `-` before the digits of a negative number. */
  function IntText(i: int): (s: string)
    ensures |s| > 0
    ensures s[0] == '-' <==> i < 0
    ensures AllDigits(if i < 0 then s[1..] else s)
  {
    if i < 0 then "-" + NatText(-i) else NatText(i)
  }

  /** `str` of a part that is a whole number. */
  function ShowInt(x: real): string
  {
    IntText(x.Floor)
  }

  /** Both parts are whole numbers, as for `Complex(2, -3)`. */
  predicate Integral(z: Complex)
  {
    z.a.Floor as real == z.a && z.b.Floor as real == z.b
  }

  // ---------------------------------------------------------------------
  // Reading the text back
  // ---------------------------------------------------------------------

  /** The number a string of decimal digits denotes. */
  function DigitsValue(s: string): nat
    requires AllDigits(s)
  {
    if s == [] then 0
    else 10 * DigitsValue(s[..|s| - 1]) + DigitValue(s[|s| - 1])
  }

  function ParseNat(s: string): Option<nat>
  {
    if s != [] && AllDigits(s) then Some(DigitsValue(s)) else None
  }

  function ParseInt(s: string): Option<int>
  {
    if s != [] && s[0] == '-' then
      match ParseNat(s[1..])
      case Some(n) => Some(-(n as int))
      case None => None
    else
      match ParseNat(s)
      case Some(n) => Some(n)
      case None => None
  }

  /** The last position after the first at which `s` holds a sign; 0 if none. */
  function LastSign(s: string): (k: nat)
    ensures k < |s| || k == 0
    ensures k > 0 ==> s[k] == '+' || s[k] == '-'
  {
    if |s| <= 1 then 0
    else if s[|s| - 1] == '+' || s[|s| - 1] == '-' then |s| - 1
    else LastSign(s[..|s| - 1])
  }

  /** The coefficient of `i`: empty or `+` is 1, `-` is -1, otherwise a number. */
  function ImagValue(u: string): Option<int>
  {
    if u == "" || u == "+" then Some(1)
    else if u == "-" then Some(-1)
    else if u[0] == '+' then
      match ParseNat(u[1..])
      case Some(n) => Some(n)
      case None => None
    else ParseInt(u)
  }

  /**
    Reads a text of the form `repr` produces for whole-number parts: a
    number, or an optional number followed by a signed coefficient of `i`.
  */
  function ParseRepr(s: string): Option<Complex>
  {
    if s == "" then None
    else if s[|s| - 1] != 'i' then
      match ParseInt(s)
      case Some(n) => Some(Complex(n as real, 0.0))
      case None => None
    else
      var t := s[..|s| - 1];
      var k := LastSign(t);
      var re := if k == 0 then Some(0) else ParseInt(t[..k]);
      var im := ImagValue(t[k..]);
      if re.Some? && im.Some? then Some(Complex(re.value as real, im.value as real))
      else None
  }

  // ---------------------------------------------------------------------
  // Round trip
  // ---------------------------------------------------------------------

  lemma {:induction false} NatTextValue(n: nat)
    ensures DigitsValue(NatText(n)) == n
  {
    if n >= 10 {
      var s := NatText(n);
      assert s[..|s| - 1] == NatText(n / 10);
      NatTextValue(n / 10);
    }
  }

  lemma ParseNatText(n: nat)
    ensures ParseNat(NatText(n)) == Some(n)
  {
    NatTextValue(n);
  }

  lemma ParseIntText(i: int)
    ensures ParseInt(IntText(i)) == Some(i)
  {
    var s := IntText(i);
    if i < 0 {
      var n := NatText(-i);
      assert s == "-" + n && s[1..] == n;
      ParseNatText(-i);
      assert ParseNat(s[1..]) == Some(-i);
    } else {
      ParseNatText(i);
    }
  }

  /** Digits appended after position 0 add no sign. */
  lemma {:induction false} LastSignDigits(p: string, d: string)
    requires |p| > 0 && AllDigits(d)
    ensures LastSign(p + d) == LastSign(p)
  {
    if d != [] {
      var s := p + d;
      assert s[..|s| - 1] == p + d[..|d| - 1];
      assert s[|s| - 1] == d[|d| - 1] && IsDigit(d[|d| - 1]);
      assert LastSign(s) == LastSign(s[..|s| - 1]);
      LastSignDigits(p, d[..|d| - 1]);
    } else {
      assert p + d == p;
    }
  }

  /** A sign followed by digits, after a non-empty prefix, is the last sign. */
  lemma LastSignAfter(p: string, c: char, d: string)
    requires |p| > 0 && (c == '+' || c == '-') && AllDigits(d)
    ensures LastSign(p + [c] + d) == |p|
  {
    LastSignDigits(p + [c], d);
    assert (p + [c])[..|p + [c]| - 1] == p;
  }

  /** `IntText` has no sign after its first character. */
  lemma IntTextNoLaterSign(i: int)
    ensures LastSign(IntText(i)) == 0
  {
    var s := IntText(i);
    LastSignDigits([s[0]], s[1..]);
    assert [s[0]] + s[1..] == s;
  }

  /** The coefficient text `repr` puts before the `i` of a whole imaginary part. */
  function Coefficient(b: int): string
  {
    if b == 1 then "" else if b == -1 then "-" else IntText(b)
  }

  lemma ImagTextWhole(b: int)
    ensures ImagText(b as real, ShowInt) == Coefficient(b) + "i"
  {
    assert (b as real).Floor == b;
  }

  /** Alone, the coefficient has no later sign and reads back as the part. */
  lemma CoefficientReads(b: int)
    requires b != 0
    ensures LastSign(Coefficient(b)) == 0
    ensures ImagValue(Coefficient(b)) == Some(b)
  {
    if b != 1 && b != -1 {
      IntTextNoLaterSign(b);
      ParseIntText(b);
      if b > 0 {
        assert IntText(b)[0] != '+';
      }
    }
  }

  /** After a real part, the coefficient of a positive part gets a `+`. */
  lemma SignedCoefficientReads(b: int)
    requires b != 0
    ensures var v := (if b > 0 then "+" else "") + Coefficient(b);
            && |v| > 0 && (v[0] == '+' || v[0] == '-') && AllDigits(v[1..])
            && ImagValue(v) == Some(b)
  {
    var v := (if b > 0 then "+" else "") + Coefficient(b);
    if b > 0 {
      assert v[1..] == Coefficient(b);
      if b != 1 {
        ParseNatText(b);
      }
    } else if b != -1 {
      assert v == IntText(b) && |v| > 1 && v[0] == '-';
      ParseIntText(b);
    }
  }

  /** `repr` of a number with whole-number parts reads back as that number. */
  lemma ReprRoundTrip(z: Complex)
    requires Integral(z)
    ensures ParseRepr(Repr(z, ShowInt)) == Some(z)
  {
    var A, B := z.a.Floor, z.b.Floor;
    var s := Repr(z, ShowInt);
    if z.b == 0.0 {
      ParseIntText(A);
    } else {
      ImagTextWhole(B);
      var w := Coefficient(B);
      if z.a == 0.0 {
        assert s == w + "i" && s[..|s| - 1] == w;
        CoefficientReads(B);
        assert w[0..] == w;
      } else {
        ReprJoinedReads(A, B);
      }
    }
  }

  /** Two numbers with whole-number parts and the same `repr` are equal. */
  lemma ReprDistinguishes(z: Complex, z': Complex)
    requires Integral(z) && Integral(z')
    requires Repr(z, ShowInt) == Repr(z', ShowInt)
    ensures z == z'
  {
    ReprRoundTrip(z);
    ReprRoundTrip(z');
  }

  /** The joined form: real part, signed coefficient, `i`. */
  lemma ReprJoinedReads(A: int, B: int)
    requires A != 0 && B != 0
    ensures ParseRepr(Repr(Complex(A as real, B as real), ShowInt)) == Some(Complex(A as real, B as real))
  {
    var z := Complex(A as real, B as real);
    assert z.a.Floor == A && z.b.Floor == B;
    ImagTextWhole(B);
    var v := (if B > 0 then "+" else "") + Coefficient(B);
    assert Repr(z, ShowInt) == IntText(A) + v + "i";
    SignedCoefficientReads(B);
    ParseIntText(A);
    ParseJoined(IntText(A), v, A, B);
  }

  lemma ParseJoined(ra: string, v: string, A: int, B: int)
    requires |ra| > 0 && |v| > 0 && (v[0] == '+' || v[0] == '-') && AllDigits(v[1..])
    requires ParseInt(ra) == Some(A) && ImagValue(v) == Some(B)
    ensures ParseRepr(ra + v + "i") == Some(Complex(A as real, B as real))
  {
    var s := ra + v + "i";
    var t := s[..|s| - 1];
    assert t == ra + [v[0]] + v[1..];
    LastSignAfter(ra, v[0], v[1..]);
    assert t[..|ra|] == ra;
    assert t[|ra|..] == v;
  }
}

module ComplexTextExamples {
  import opened ComplexNumbers
  import opened ComplexText

  lemma ReprExamples()
    ensures Repr(Complex(2.0, 3.0), ShowInt) == "2+3i"
    ensures Repr(Complex(2.0, -3.0), ShowInt) == "2-3i"
    ensures Repr(Complex(-4.0, 1.0), ShowInt) == "-4+i"
    ensures Repr(Complex(7.0, -1.0), ShowInt) == "7-i"
    ensures Repr(Complex(0.0, -12.0), ShowInt) == "-12i"
    ensures Repr(Complex(), ShowInt) == "0"
  {
  }
}
