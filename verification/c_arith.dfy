/** Integer semantics of the C code the decoder is written in.

    Dafny's `/` and `%` on `int` are Euclidean (the remainder is never
    negative); C's truncate toward zero. Every division of the decoder goes
    through `CDiv`/`CMod` below so that negative operands behave as in C. */
module CArith {

  /** A `uint8_t`. */
  type Byte = x: int | 0 <= x < 256

  /** Upper bound (exclusive) of a C `int32_t`. */
  const Int32Limit: int := 0x8000_0000

  predicate IsInt32(v: int) {
    -Int32Limit <= v < Int32Limit
  }

  function Abs(a: int): nat {
    if a < 0 then -a else a
  }

  /** C's `a / b` for a positive divisor: the quotient truncated toward zero. */
  function CDiv(a: int, b: int): int
    requires b > 0
  {
    if a >= 0 then a / b else -((-a) / b)
  }

  /** C's `a % b` for a positive divisor: the remainder takes the sign of `a`. */
  function CMod(a: int, b: int): int
    requires b > 0
  {
    if a >= 0 then a % b else -((-a) % b)
  }

  /** The C division identity and the truncation rule: the quotient never
      exceeds the exact quotient in magnitude, and the remainder has the
      sign of the dividend and is smaller than the divisor. */
  lemma TruncatingDivision(a: int, b: int)
    requires b > 0
    ensures CDiv(a, b) * b + CMod(a, b) == a
    ensures Abs(CMod(a, b)) < b
    ensures a >= 0 ==> CMod(a, b) >= 0 && CDiv(a, b) >= 0
    ensures a < 0 ==> CMod(a, b) <= 0 && CDiv(a, b) <= 0
    ensures Abs(CDiv(a, b)) * b <= Abs(a)
  {
    var m := Abs(a);
    var q, r := m / b, m % b;
    assert m == b * q + r && 0 <= r < b;
    assert q >= 0 by {
      if q < 0 {
        assert b * q <= -b by { NegativeTimesPositive(q, b); }
      }
    }
    if a < 0 {
      assert CDiv(a, b) * b == -(q * b);
    }
  }

  lemma NegativeTimesPositive(q: int, b: int)
    requires q < 0 && b > 0
    ensures b * q <= -b
  {
    var k := -q;
    assert b * q == -(b * k);
    assert b * k >= b * 1;
  }

  /** Euclidean division is determined by its identity and remainder range. */
  lemma EuclidUnique(a: int, b: int, q: int, r: int)
    requires b > 0 && a == q * b + r && 0 <= r < b
    ensures a / b == q && a % b == r
  {
    var q', r' := a / b, a % b;
    assert a == q' * b + r' && 0 <= r' < b;
    assert (q - q') * b == r' - r;
    if q < q' {
      NegativeTimesPositive(q - q', b);
    } else if q > q' {
      NegativeTimesPositive(q' - q, b);
    }
  }

  /** Truncating and Euclidean division agree except on a negative dividend
      that the divisor does not divide, where C's quotient is one larger. */
  lemma CDivVersusEuclid(a: int, b: int)
    requires b > 0
    ensures CDiv(a, b) == if a < 0 && a % b != 0 then a / b + 1 else a / b
    ensures CMod(a, b) == if a < 0 && a % b != 0 then a % b - b else a % b
  {
    TruncatingDivision(a, b);
    if a < 0 {
      var q := CDiv(a, b);
      var r := CMod(a, b);
      if r == 0 {
        EuclidUnique(a, b, q, 0);
      } else {
        assert a == (q - 1) * b + (r + b);
        EuclidUnique(a, b, q - 1, r + b);
      }
    }
  }
}
