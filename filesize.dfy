/** The magnitude selection of `FormatFileSize` (internal/utils/file.go): a
    size below 1024 is shown as plain bytes; otherwise a loop multiplies the
    divisor by 1024 until the quotient drops below 1024, and the unit letter is
    taken from "KMGTPE" at the number of extra steps. Only the divisor and the
    letter are modelled, not the floating-point quotient. */
module FileSize {
  import opened Bytes

  const Unit: nat := 1024

  /** The unit letters, for divisors 1024^1 to 1024^6. */
  const Units: string := "KMGTPE"

  /** 2^60 = 1024^6, the largest divisor an `int64` size can select. */
  const MaxDiv: nat := 0x1000_0000_0000_0000

  function Pow(b: nat, e: nat): nat
  {
    if e == 0 then 1 else b * Pow(b, e - 1)
  }

  /** What `FormatFileSize` prints: `"%d B"`, or the size over `div` with the
      letter `unit`; `exp` is the loop's counter. */
  datatype Magnitude = Plain(bytes: Int64) | Scaled(div: Int64, exp: nat, unit: char)

  /** `FormatFileSize`. The divisor never overflows `int64`, the letter index
      stays inside "KMGTPE", and the chosen divisor is the power of 1024 that
      leaves a quotient in [1, 1024). */
  method FormatFileSize(size: Int64) returns (m: Magnitude)
    ensures m.Plain? <==> size < Unit
    ensures m.Plain? ==> m.bytes == size
    ensures m.Scaled? ==>
              && m.exp < |Units| && m.unit == Units[m.exp]
              && m.div == Pow(Unit, m.exp + 1) <= MaxDiv
              && m.div <= size < m.div * Unit
    ensures Unit <= size < Unit * Unit ==> m == Scaled(Unit, 0, 'K')
  {
    if size < Unit {
      return Plain(size);
    }
    var div: Int64, exp: nat := Unit, 0;
    var n: Int64 := size / Unit;
    while n >= Unit
      invariant exp <= 5 && div == Pow(Unit, exp + 1) && div >= Unit
      invariant 1 <= n && n == size / div && div <= size
      decreases n
    {
      QuotientBound(size, div, n);
      if exp == 5 {
        PowSix();
        assert false;
      }
      DivDiv(size, div, Unit);
      div := div * Unit;
      exp := exp + 1;
      n := n / Unit;
    }
    QuotientBelow(size, div, n);
    PowMono(Unit, exp + 1, 6);
    PowSix();
    if size < Unit * Unit {
      assert Pow(Unit, 1) == Unit;
      MagnitudeUnique(size, exp, 0);
    }
    return Scaled(div, exp, Units[exp]);
  }

  /** 1024^6 is 2^60, and 1024^7 is beyond `int64`. */
  lemma PowSix()
    ensures Pow(Unit, 6) == MaxDiv
    ensures Pow(Unit, 6) * Unit >= 0x8000_0000_0000_0000
  {
    calc {
      Pow(Unit, 6);
      Unit * Pow(Unit, 5);
      Unit * (Unit * Pow(Unit, 4));
      Unit * (Unit * (Unit * Pow(Unit, 3)));
      Unit * (Unit * (Unit * (Unit * Pow(Unit, 2))));
      Unit * (Unit * (Unit * (Unit * (Unit * Pow(Unit, 1)))));
      { assert Pow(Unit, 1) == Unit * Pow(Unit, 0) == Unit; }
      MaxDiv;
    }
  }

  lemma {:induction false} PowMono(b: nat, e1: nat, e2: nat)
    requires b >= 1 && e1 <= e2
    ensures Pow(b, e1) <= Pow(b, e2)
    decreases e2
  {
    if e1 < e2 {
      PowMono(b, e1, e2 - 1);
      var p := Pow(b, e2 - 1);
      assert Pow(b, e2) == b * p == p + (b - 1) * p;
      assert (b - 1) * p >= 0;
    }
  }

  /** `n == size / div` with `n >= 1024` means the next divisor still fits under `size`. */
  lemma QuotientBound(size: int, div: int, n: int)
    requires div > 0 && n >= Unit && n == size / div
    ensures div * Unit <= size
  {
    assert div * Unit <= div * n;
  }

  /** A quotient below 1024 puts `size` under `div * 1024`. */
  lemma QuotientBelow(size: int, div: int, n: int)
    requires div > 0 && 0 <= n < Unit && n == size / div
    ensures size < div * Unit
  {
    var r := size % div;
    assert size == div * n + r && r < div;
    var k := Unit - (n + 1);
    assert div * Unit == div * (n + 1) + div * k;
    assert div * k >= 0;
  }

  /** Dividing twice is dividing by the product. */
  lemma DivDiv(x: nat, a: nat, b: nat)
    requires a > 0 && b > 0
    ensures (x / a) / b == x / (a * b)
  {
    var q, r := x / a, x % a;
    var q2, r2 := q / b, q % b;
    assert x == q * a + r;
    assert q == q2 * b + r2;
    assert x == q2 * (a * b) + (r2 * a + r);
    assert r2 * a + r < a * b by {
      assert r2 * a <= (b - 1) * a;
    }
    DivModOf(x, q2, r2 * a + r, a * b);
  }

  /** One size has one magnitude: at most one power of 1024 leaves a quotient
      in [1, 1024). */
  lemma MagnitudeUnique(size: int, e1: nat, e2: nat)
    requires Pow(Unit, e1 + 1) <= size < Pow(Unit, e1 + 1) * Unit
    requires Pow(Unit, e2 + 1) <= size < Pow(Unit, e2 + 1) * Unit
    ensures e1 == e2
  {
    if e1 < e2 {
      PowMono(Unit, e1 + 2, e2 + 1);
    } else if e2 < e1 {
      PowMono(Unit, e2 + 2, e1 + 1);
    }
  }
}
