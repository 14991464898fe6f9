/** Decimal text as printf writes it and strtol reads it. */
module Decimal {
  import opened Wrappers

  const ZERO: byte := 0x30
  const MINUS: byte := 0x2d
  const PLUS: byte := 0x2b

  predicate IsDigit(b: byte) {
    0x30 <= b <= 0x39
  }

  function DigitValue(b: byte): nat
    requires IsDigit(b)
  {
    b as nat - 0x30
  }

  function Digits(n: nat): (d: Bytes)
    ensures d != [] && forall i :: 0 <= i < |d| ==> IsDigit(d[i])
  {
    if n < 10 then [ZERO + n as byte] else Digits(n / 10) + [ZERO + (n % 10) as byte]
  }

  /** The number a string of digits stands for. */
  function Value(d: Bytes): nat
    requires forall i :: 0 <= i < |d| ==> IsDigit(d[i])
  {
    if d == [] then 0 else 10 * Value(d[..|d| - 1]) + DigitValue(d[|d| - 1])
  }

  lemma {:induction false} ValueOfDigits(n: nat)
    ensures Value(Digits(n)) == n
  {
    if n < 10 {
      assert Value([]) == 0;
    } else {
      ValueOfDigits(n / 10);
      assert Digits(n)[..|Digits(n)| - 1] == Digits(n / 10);
    }
  }

  function Signed(v: int): Bytes {
    if v < 0 then [MINUS] + Digits(-v) else Digits(v)
  }

  /** What isspace skips in the C locale. */
  predicate IsSpace(b: byte) {
    b == 0x20 || 0x09 <= b <= 0x0d
  }

  function SkipSpaces(t: Bytes): Bytes {
    if t != [] && IsSpace(t[0]) then SkipSpaces(t[1..]) else t
  }

  function AllDigits(t: Bytes): bool {
    t != [] && forall i :: 0 <= i < |t| ==> IsDigit(t[i])
  }

  /** strtol in base ten followed by the check that it stopped at the terminator, before range checks. */
  function ParseNumber(t: Bytes): Option<int> {
    var u := SkipSpaces(t);
    if u != [] && u[0] == MINUS then
      if AllDigits(u[1..]) then
        var magnitude: int := Value(u[1..]);
        Some(-magnitude)
      else None
    else if u != [] && u[0] == PLUS then (if AllDigits(u[1..]) then Some(Value(u[1..])) else None)
    else if AllDigits(u) then Some(Value(u)) else None
  }

  lemma ParseSigned(v: int)
    ensures ParseNumber(Signed(v)) == Some(v)
  {
    hide Digits, Value;
    ValueOfDigits(if v < 0 then -v else v);
    assert v < 0 ==> Signed(v)[1..] == Digits(-v);
  }

  lemma SignedNotEmpty(v: int)
    ensures Signed(v) != []
  {
  }
}
