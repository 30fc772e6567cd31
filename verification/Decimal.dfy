/** Decimal rendering of natural numbers and its inverse. */
module Decimal {
  import opened Options

  function Digit(d: nat): char
    requires d < 10
  {
    '0' + d as char
  }

  predicate IsDigit(c: char) {
    '0' <= c <= '9'
  }

  function Print(n: nat): (s: string)
    ensures s != ""
  {
    if n < 10 then [Digit(n)] else Print(n / 10) + [Digit(n % 10)]
  }

  function Parse(s: string): Option<nat> {
    if s == "" || !IsDigit(s[|s| - 1]) then None
    else if |s| == 1 then Some((s[0] - '0') as nat)
    else
      var r := Parse(s[..|s| - 1]);
      if r.None? then None else Some(10 * r.value + (s[|s| - 1] - '0') as nat)
  }

  /** Reading a printed number gives it back, and a printed number is all digits. */
  lemma {:induction false} ParsePrint(n: nat)
    ensures Parse(Print(n)) == Some(n)
    ensures forall c | c in Print(n) :: IsDigit(c)
  {
    if n >= 10 {
      ParsePrint(n / 10);
      var s := Print(n);
      assert s[..|s| - 1] == Print(n / 10);
    }
  }
}
