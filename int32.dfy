/**
 * The machine integers of the interpreter: C++ `int` (32-bit two's complement),
 * the wrap-around that `NumVal::add_to` gets from its `(unsigned)` casts, and the
 * decimal text that `std::to_string(int)` produces and `operator>>(int&)` reads.
 */
module Int32 {

  const MIN: int := -0x8000_0000
  const MAX: int := 0x7fff_ffff
  const MODULUS: int := 0x1_0000_0000

  newtype int32 = x: int | -0x8000_0000 <= x < 0x8000_0000

  predicate InRange(x: int) { MIN <= x <= MAX }

  /**
   * `(unsigned) a + (unsigned) b` converted back to `int`: the unsigned sum is taken
   * modulo 2^32 and the conversion reads the 32 bits as two's complement.
   */
  function WrapAdd(a: int32, b: int32): (r: int32)
    ensures (r as int - (a as int + b as int)) % MODULUS == 0
    ensures InRange(a as int + b as int) ==> r as int == a as int + b as int
  {
    var u := (a as int + b as int) % MODULUS;
    if u <= MAX then u as int32 else (u - MODULUS) as int32
  }

  /** Two's complement wrap-around determines the result: there is one int32 per residue. */
  lemma WrapAddUnique(a: int32, b: int32, r: int32)
    requires (r as int - (a as int + b as int)) % MODULUS == 0
    ensures r == WrapAdd(a, b)
  {
    var w := WrapAdd(a, b);
    var d := r as int - w as int;
    assert d % MODULUS == 0;
    assert -MODULUS < d < MODULUS;
  }

  // ---------------------------------------------------------------- decimal text

  predicate IsDigit(c: char) { '0' <= c <= '9' }

  predicate AllDigits(s: string) { forall i :: 0 <= i < |s| ==> IsDigit(s[i]) }

  function DigitChar(d: nat): (c: char)
    requires d < 10
    ensures IsDigit(c) && c as int - '0' as int == d
  {
    ('0' as int + d) as char
  }

  /** The value of a run of decimal digits, most significant first, as `num_get` accumulates it. */
  function DigitsValue(s: string): nat
    requires AllDigits(s)
  {
    if s == [] then 0 else DigitsValue(s[..|s| - 1]) * 10 + (s[|s| - 1] as int - '0' as int)
  }

  /** The digits of a natural number without leading zeros. */
  function NatToDecimal(n: nat): (s: string)
    ensures |s| >= 1 && AllDigits(s)
    ensures |s| > 1 ==> s[0] != '0'
  {
    if n < 10 then [DigitChar(n)] else NatToDecimal(n / 10) + [DigitChar(n % 10)]
  }

  /** `std::to_string(int)`: a minus sign for negative values, then the digits. */
  function ToString(n: int32): (s: string)
  {
    if n < 0 then "-" + NatToDecimal(-(n as int)) else NatToDecimal(n as int)
  }

  lemma {:induction false} DecimalRoundTrip(n: nat)
    ensures DigitsValue(NatToDecimal(n)) == n
  {
    if n >= 10 {
      DecimalRoundTrip(n / 10);
      var s := NatToDecimal(n);
      assert s[..|s| - 1] == NatToDecimal(n / 10);
    }
  }

  /** Reading the text back gives the number: the printed form of an int32 has the sign it needs. */
  lemma ToStringRoundTrip(n: int32)
    ensures var s := ToString(n);
      if n < 0 then |s| >= 2 && s[0] == '-' && AllDigits(s[1..]) && -(DigitsValue(s[1..]) as int) == n as int
      else AllDigits(s) && DigitsValue(s) == n as int
  {
    if n < 0 {
      DecimalRoundTrip(-(n as int));
      assert ToString(n)[1..] == NatToDecimal(-(n as int));
    } else {
      DecimalRoundTrip(n as int);
    }
  }
}
