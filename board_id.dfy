/**
 * Board ids. Both the client (src/App.jsx:79) and the save endpoint
 * (api/save.js:26) compute `Math.floor(1000 + Math.random() * 9000).toString()`.
 * The random float is abstracted as the integer part of `Math.random() * 9000`,
 * a draw in [0, 9000), so the id is the decimal string of `1000 + draw`.
 */
module BoardId {

  predicate IsDigit(c: char)
  {
    '0' <= c <= '9'
  }

  /** A board id as users type it: exactly four decimal digits. */
  predicate IsBoardId(s: string)
  {
    |s| == 4 && forall i :: 0 <= i < 4 ==> IsDigit(s[i])
  }

  function Digit(d: nat): char
    requires d < 10
  {
    ('0' as int + d) as char
  }

  function DigitValue(c: char): nat
    requires IsDigit(c)
  {
    c as int - '0' as int
  }

  /** `Number.prototype.toString()` on a non-negative integer. */
  function DecimalString(n: nat): (s: string)
    ensures |s| >= 1
    ensures forall i :: 0 <= i < |s| ==> IsDigit(s[i])
    decreases n
  {
    if n < 10 then [Digit(n)] else DecimalString(n / 10) + [Digit(n % 10)]
  }

  /** Reads a string of digits back as a number. */
  function ParseDecimal(s: string): nat
    requires forall i :: 0 <= i < |s| ==> IsDigit(s[i])
  {
    if s == [] then 0 else ParseDecimal(s[..|s| - 1]) * 10 + DigitValue(s[|s| - 1])
  }

  lemma {:induction false} ParseDecimalString(n: nat)
    ensures ParseDecimal(DecimalString(n)) == n
    decreases n
  {
    var s := DecimalString(n);
    if n >= 10 {
      ParseDecimalString(n / 10);
      assert s[..|s| - 1] == DecimalString(n / 10);
    }
  }

  lemma FourDigits(n: nat)
    requires 1000 <= n <= 9999
    ensures |DecimalString(n)| == 4
  {
    assert |DecimalString(n / 10 / 10 / 10)| == 1;
    assert |DecimalString(n / 10 / 10)| == 2;
    assert |DecimalString(n / 10)| == 3;
  }

  /** The id drawn from `draw`; it is four digits and reads back as `1000 + draw`. */
  function IdOf(draw: int): (id: string)
    requires 0 <= draw < 9000
    ensures IsBoardId(id)
    ensures ParseDecimal(id) == 1000 + draw
  {
    FourDigits(1000 + draw);
    ParseDecimalString(1000 + draw);
    DecimalString(1000 + draw)
  }

  /** Different draws give different ids. */
  lemma IdOfInjective(d1: int, d2: int)
    requires 0 <= d1 < 9000 && 0 <= d2 < 9000
    ensures IdOf(d1) == IdOf(d2) <==> d1 == d2
  {
  }
}
