/**
 Integer arithmetic the way the compiled code does it.
 */
module CArith {

  function Min(a: int, b: int): int {
    if a <= b then a else b
  }

  function Max(a: int, b: int): int {
    if a >= b then a else b
  }

  /** Division that truncates toward zero. */
  function Quot(a: int, b: int): int
    requires b > 0
  {
    if a >= 0 then a / b else -((-a) / b)
  }

  /** A value stored in a 16 bit signed field. */
  function ToShort(x: int): (r: int)
    ensures -0x8000 <= r < 0x8000
    ensures -0x8000 <= x < 0x8000 ==> r == x
  {
    (x + 0x8000) % 0x1_0000 - 0x8000
  }

  /** A value converted to a 32 bit signed one. */
  function ToInt(x: int): (r: int)
    ensures -0x8000_0000 <= r < 0x8000_0000
    ensures -0x8000_0000 <= x < 0x8000_0000 ==> r == x
  {
    (x + 0x8000_0000) % 0x1_0000_0000 - 0x8000_0000
  }

  /** (x + sign * m / 2) / m: division that rounds to the closest, ties away from zero. */
  function RoundDiv(x: int, m: int): int
    requires m > 0
  {
    var sign := if x >= 0 then 1 else -1;
    Quot(x + sign * (m / 2), m)
  }

  lemma Multiple(m: int, k: int)
    requires m > 0
    ensures k >= 1 ==> m * k >= m
    ensures k <= -1 ==> m * k <= -m
  {
  }

  /** A closest multiple of m is at most half of m away. */
  lemma RoundError(x: int, m: int)
    requires m > 0
    ensures -m <= 2 * (m * RoundDiv(x, m) - x) <= m
  {
  }

  /** The rounded quotient is the only integer that is closer to x / m than any other. */
  lemma RoundUnique(x: int, m: int, q: int)
    requires m > 0 && -m < 2 * (m * q - x) < m
    ensures RoundDiv(x, m) == q
  {
    RoundError(x, m);
    var k := RoundDiv(x, m) - q;
    assert m * RoundDiv(x, m) == m * q + m * k;
    Multiple(m, k);
  }

  lemma RoundExact(k: int, m: int)
    requires m > 0
    ensures RoundDiv(m * k, m) == k
  {
    RoundUnique(m * k, m, k);
  }

  lemma DivMonotone(a: nat, b: nat, m: int)
    requires m > 0 && a <= b
    ensures a / m <= b / m
  {
    var p, q := a / m, b / m;
    assert m * p <= a && b < m * q + m;
    assert m * p == m * q + m * (p - q);
    Multiple(m, p - q);
  }

  lemma RoundMonotone(x: int, y: int, m: int)
    requires m > 0 && x <= y
    ensures RoundDiv(x, m) <= RoundDiv(y, m)
  {
    if x >= 0 {
      DivMonotone(x + m / 2, y + m / 2, m);
    } else if y < 0 {
      DivMonotone(-y + m / 2, -x + m / 2, m);
    } else {
      DivMonotone(0, y + m / 2, m);
      DivMonotone(0, -x + m / 2, m);
      assert 0 / m == 0;
    }
  }

  /** Away from zero, one multiple of m more is one more. */
  lemma RoundShift(x: int, m: int)
    requires m > 0 && x <= 0
    ensures RoundDiv(x - m, m) == RoundDiv(x, m) - 1
  {
    var a := -x + m / 2;
    assert (a + m) / m == a / m + 1 by {
      var q := a / m;
      assert m * q <= a < m * q + m;
      assert m * (q + 1) == m * q + m;
      QuotientIs(a + m, m, q + 1);
    }
    if x == 0 {
      QuotientIs(m / 2, m, 0);
    }
  }

  lemma QuotientIs(a: int, m: int, q: int)
    requires m > 0 && m * q <= a < m * q + m
    ensures a / m == q
  {
    var k := a / m - q;
    assert m * (a / m) == m * q + m * k;
    Multiple(m, k);
  }
}
