/** Rounding to three decimals, ties to even: Python's round(x, 3) on exact values. */
module Rounding {

  function RoundInt(y: real): int {
    var f := y.Floor;
    var d := y - f as real;
    if d < 0.5 || (d == 0.5 && f % 2 == 0) then f else f + 1
  }

  function Round3(x: real): real {
    RoundInt(x * 1000.0) as real / 1000.0
  }

  predicate InUnit(x: real) {
    0.0 <= x <= 1.0
  }

  lemma RoundIntMonotone(x: real, y: real)
    requires x <= y
    ensures RoundInt(x) <= RoundInt(y)
  {
    if x.Floor == y.Floor {
    } else {
      assert x.Floor < y.Floor;
    }
  }

  lemma Round3Monotone(x: real, y: real)
    requires x <= y
    ensures Round3(x) <= Round3(y)
  {
    RoundIntMonotone(x * 1000.0, y * 1000.0);
  }

  lemma Round3Idempotent(x: real)
    ensures Round3(Round3(x)) == Round3(x)
  {
    var n := RoundInt(x * 1000.0);
    assert n as real / 1000.0 * 1000.0 == n as real;
    assert (n as real).Floor == n;
  }

  lemma Round3InUnit(x: real)
    requires InUnit(x)
    ensures InUnit(Round3(x))
  {
    assert Round3(0.0) == 0.0 && Round3(1.0) == 1.0;
    Round3Monotone(0.0, x);
    Round3Monotone(x, 1.0);
  }

  /** The result is a nearest multiple of a thousandth. */
  lemma Round3Near(x: real)
    ensures x - 0.0005 <= Round3(x) <= x + 0.0005
  {
    var y := x * 1000.0;
    assert y - 0.5 <= RoundInt(y) as real <= y + 0.5;
  }

  /** Halfway between two thousandths the even one is taken. */
  lemma TiesToEven(n: int)
    ensures Round3((n as real + 0.5) / 1000.0) == (if n % 2 == 0 then n else n + 1) as real / 1000.0
  {
    var y := (n as real + 0.5) / 1000.0 * 1000.0;
    assert y == n as real + 0.5;
    assert y.Floor == n;
  }
}
