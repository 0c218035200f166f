# Complex numbers in Cartesian form

This project models the `Complex` class of `complex.py`. A `Complex` holds a
real part `a` and an imaginary part `b`, and the constructor defaults both to
zero. `+`, `-`, `*` and `/` each build a new value and leave their operands
unchanged. `modulus()` gives the length of the number and `conjugate()` is
meant to flip the sign of the imaginary part. `repr()` prints the number the
way one writes it on paper: `0`, `i`, `-i`, `2`, `-12i`, `2+3i`, `2-3i`,
`-4+i`.

The class has no mutable state, so the model is made of values: the datatype
`ComplexNumbers.Complex` and pure functions over it.

- `results.dfy` has `Option` and `Result`. An error result stands for the
  exception Python raises.
- `complex.dfy` (module `ComplexNumbers`) has the arithmetic, the squared
  modulus and the conjugate, plus their algebraic laws. Division returns
  `Err(ZeroDivisionError)` when the divisor is zero. Otherwise its result
  times the divisor is the dividend.
- `repr.dfy` (module `ComplexText`) models `__repr__` for any number-to-text
  conversion `show`, which stands for Python's `str`.
  - A part that is absent is `None`. Python's `not` test is `Truthy`.
  - `ShowInt` is the decimal `str` of an `int`.
  - For whole-number parts, the parser `ParseRepr` reads the text back, so
    `repr` loses nothing.
  - Module `ComplexTextExamples` pins down a few concrete outputs.

Parts are exact real numbers.

## Model

| member | source | states |
|---|---|---|
| ComplexNumbers.ConstructorDefaults | complex.py:7-9 | `Complex()` is zero; an omitted part is 0 |
| ComplexNumbers.ZeroIsAddIdentity | complex.py:40-43 | adding zero on either side leaves a number unchanged |
| ComplexNumbers.AddCommutative | complex.py:40-43 | `x + y == y + x` |
| ComplexNumbers.AddAssociative | complex.py:40-43 | `(x + y) + z == x + (y + z)` |
| ComplexNumbers.Sub | complex.py:45-48 | the difference plus `y` gives back `x` |
| ComplexNumbers.SubSelfIsZero | complex.py:45-48 | `x - x` is zero |
| ComplexNumbers.SubUndoesAdd | complex.py:40-48 | `(x + y) - y == x` |
| ComplexNumbers.MulCommutative | complex.py:50-53 | `x * y == y * x` |
| ComplexNumbers.OneIsMulIdentity | complex.py:50-53 | `Complex(1, 0)` is the identity on either side |
| ComplexNumbers.MulAssociative | complex.py:50-53 | `(x * y) * z == x * (y * z)` |
| ComplexNumbers.MulDistributesOverAdd | complex.py:40-53 | `x * (y + z) == x * y + x * z` |
| ComplexNumbers.MulDistributesOverSub | complex.py:45-53 | `(x - y) * z == x * z - y * z` |
| ComplexNumbers.NoZeroDivisors | complex.py:50-53 | a product is zero only when one factor is zero |
| ComplexNumbers.MulCancel | complex.py:50-53 | multiplying by a non-zero number is injective |
| ComplexNumbers.Div | complex.py:55-58 | dividing by zero raises ZeroDivisionError; otherwise the quotient times the divisor is the dividend |
| ComplexNumbers.QuotientTimesDivisor | complex.py:56-58 | the two parts computed by `__div__`, multiplied back by the divisor, give the dividend |
| ComplexNumbers.DivUndoesMul | complex.py:50-58 | `(x * y) / y == x` for every non-zero `y` |
| ComplexNumbers.DivByZeroFails | complex.py:55-58 | `x / Complex()` raises ZeroDivisionError, whatever `x` is |
| ComplexNumbers.DivIsConjugateProduct | complex.py:55-58 | `x / y` is `x` times the conjugate of `y`, with both parts divided by the non-zero `a**2 + b**2` of `y` |
| ComplexNumbers.ModulusSquaredNonNegative | complex.py:60-61 | `a**2 + b**2` is never negative |
| ComplexNumbers.ModulusSquaredZeroIff | complex.py:60-61 | `a**2 + b**2` is zero exactly for the number zero |
| ComplexNumbers.ModulusSquaredPositive | complex.py:60-61 | `a**2 + b**2` is positive exactly for non-zero numbers |
| ComplexNumbers.ModulusSquaredMultiplicative | complex.py:50-61 | the squared modulus of a product is the product of the squared moduli |
| ComplexNumbers.ConjugateAsWrittenAlwaysFails | complex.py:63-64 | as written, `conjugate()` raises AttributeError for every number and never returns the conjugate |
| ComplexNumbers.ConjugateInvolution | complex.py:63-64 | the intended conjugate, taken twice, gives back the number |
| ComplexNumbers.ConjugateKeepsModulus | complex.py:60-64 | the intended conjugate has the same squared modulus |
| ComplexNumbers.MulConjugateIsModulusSquared | complex.py:50-64 | a number times its intended conjugate is its squared modulus, with zero imaginary part |
| ComplexText.ImagText | complex.py:19-24 | the text of a non-zero imaginary part is non-empty and ends in `i` |
| ComplexText.Repr | complex.py:11-38 | zero gives `0`; a lone imaginary 1 or -1 gives `i` or `-i`; a lone real part gives its text; a lone imaginary part gives its text; otherwise the real text, then `+` exactly when `b > 0`, then the imaginary text |
| ComplexText.NatText | complex.py:15 | the decimal text of a natural number is non-empty, all digits, with no leading zero |
| ComplexText.IntText | complex.py:15 | the text of an `int` starts with `-` exactly when it is negative, and the rest is digits |
| ComplexText.NatTextValue | complex.py:15 | the digits of `n` denote `n` |
| ComplexText.ParseIntText | complex.py:15 | reading the text of an `int` back gives that `int` |
| ComplexText.CoefficientReads | complex.py:17-24 | the text before the `i` of a whole imaginary part reads back as that part |
| ComplexText.SignedCoefficientReads | complex.py:17-38 | after a real part, that text starts with a sign followed by digits and still reads back as the part |
| ComplexText.ParseJoined | complex.py:35-38 | a real part joined to a signed coefficient splits back into its two parts |
| ComplexText.ReprJoinedReads | complex.py:26-38 | `repr` of a number whose two parts are both non-zero whole numbers reads back as that number |
| ComplexText.ReprRoundTrip | complex.py:11-38 | `repr` of any number with whole-number parts reads back as that number |
| ComplexText.ReprDistinguishes | complex.py:11-38 | two numbers with whole-number parts and equal `repr` are equal |
| ComplexTextExamples.ReprExamples | complex.py:11-38 | `2+3i`, `2-3i`, `-4+i`, `7-i`, `-12i` and `0` for the matching numbers |

## Left out

- ComplexNumbers.Div: divides exact reals. Python 2's `/` floors when both operands are `int`s, so `Complex(1, 0) / Complex(2, 0)` gives `Complex(0, 0)` in Python 2. Floats round. Neither is modelled.
- ComplexNumbers.ModulusSquared: models `modulus()` without its square root, so its result is the square of what the method returns. `math.sqrt` on floats is not modelled.
- ComplexText.ShowInt: models `str` of integer parts only. The text of float parts (`2.0`, `1e-05`) depends on Python's float formatting and is not modelled; `Repr` takes it as the parameter `show`.
- ComplexText.ReprRoundTrip: holds for whole-number parts only, for the reason above.
- Parts are exact reals. Integer overflow does not arise in Python. Floating-point rounding, NaN and infinities are not modelled.
- `polar` (complex.py:67-70) and `ComplexPolar` (complex.py:73-85) are not modelled. They rest on `math.atan`, `math.cos` and `math.sin` over floats.
- The `__main__` block (complex.py:87-88) does nothing.
- The repository's vector and matrix types and its `sqrt` are not part of this model.
- `__div__` is a Python 2 hook, and Python 3 would call `__truediv__`. The model gives it the meaning of `/` whichever hook is in use.

## Findings

| source | as written | input that shows it | evidently intended | confidence | as-written member | corrected member |
|---|---|---|---|---|---|---|
| complex.py:63-64 | `conjugate()` reads `self.y`, an attribute no `Complex` has, so every call raises AttributeError | `Complex(1, 2).conjugate()` | `Complex(self.a, -self.b)` | high (not executed) | ComplexNumbers.ConjugateAsWritten | ComplexNumbers.Conjugate |

`ComplexNumbers.ConjugateAsWrittenAlwaysFails` shows the failure for every
input. The laws of the corrected member are `ConjugateInvolution`,
`ConjugateKeepsModulus` and `MulConjugateIsModulusSquared`.
`DivIsConjugateProduct` uses the corrected conjugate to state the division
rule.
