/** Decimal and hexadecimal numerals, as values. */
module Numerals {

  datatype Base = Ten | Sixteen {
    function Value(): nat {
      if this == Ten then 10 else 16
    }

    function Times(n: nat): nat {
      if this == Ten then 10 * n else 16 * n
    }

    function Quotient(n: nat): nat {
      if this == Ten then n / 10 else n / 16
    }

    function Rest(n: nat): nat {
      if this == Ten then n % 10 else n % 16
    }
  }

  function Digit(d: nat): (c: char)
    requires d < 16
    ensures DigitValue(c) == d
  {
    "0123456789ABCDEF"[d]
  }

  function DigitValue(c: char): int {
    if '0' <= c <= '9' then c as int - '0' as int
    else if 'A' <= c <= 'F' then c as int - 'A' as int + 10
    else -1
  }

  predicate IsDigits(s: string, b: Base) {
    forall i :: 0 <= i < |s| ==> 0 <= DigitValue(s[i]) < b.Value()
  }

  /** The numeral of `n` in base `b`. */
  function Numeral(n: nat, b: Base): (s: string)
    ensures s != "" && IsDigits(s, b)
    decreases n
  {
    if n < b.Value() then [Digit(n)] else Numeral(b.Quotient(n), b) + [Digit(b.Rest(n))]
  }

  /** The value of a string of digits. */
  function ValueOf(s: string, b: Base): nat
    requires IsDigits(s, b)
  {
    if s == "" then 0 else b.Times(ValueOf(s[..|s| - 1], b)) + DigitValue(s[|s| - 1])
  }

  /** The text of a signed number. */
  function Decimal(v: int): string {
    if v < 0 then "-" + Numeral(-v, Ten) else Numeral(v, Ten)
  }

  datatype Reading = NoNumber | Number(value: int)

  /** What reading a text back gives. */
  function ReadDecimal(s: string): Reading {
    if s == "" then NoNumber
    else if s[0] != '-' then (if IsDigits(s, Ten) then Number(ValueOf(s, Ten)) else NoNumber)
    else if |s| > 1 && IsDigits(s[1..], Ten) then Number(0 - ValueOf(s[1..], Ten))
    else NoNumber
  }

  predicate NoLeadingZero(s: string) {
    |s| > 1 ==> s[0] != '0'
  }

  lemma {:induction false} ValueOfNumeral(n: nat, b: Base)
    ensures ValueOf(Numeral(n, b), b) == n
    ensures NoLeadingZero(Numeral(n, b)) && (n > 0 ==> Numeral(n, b)[0] != '0')
    decreases n
  {
    var s := Numeral(n, b);
    if n < b.Value() {
      assert s[..0] == "" && ValueOf("", b) == 0;
    } else {
      ValueOfNumeral(b.Quotient(n), b);
      assert s[..|s| - 1] == Numeral(b.Quotient(n), b) && s[|s| - 1] == Digit(b.Rest(n));
    }
  }

  /** Every digit string without a superfluous zero is the numeral of its value. */
  lemma {:induction false} NumeralOfValue(s: string, b: Base)
    requires s != "" && IsDigits(s, b) && NoLeadingZero(s)
    ensures Numeral(ValueOf(s, b), b) == s
    decreases |s|
  {
    if |s| == 1 {
      OneDigit(s, b);
    } else {
      NumeralOfValue(s[..|s| - 1], b);
      OneMoreDigit(s, b);
    }
  }

  lemma OneDigit(s: string, b: Base)
    requires |s| == 1 && IsDigits(s, b)
    ensures Numeral(ValueOf(s, b), b) == s
  {
    DigitOfValue(s[0]);
    assert ValueOf(s[..0], b) == 0;
  }

  lemma OneMoreDigit(s: string, b: Base)
    requires |s| > 1 && IsDigits(s, b) && s[0] != '0' && Numeral(ValueOf(s[..|s| - 1], b), b) == s[..|s| - 1]
    ensures Numeral(ValueOf(s, b), b) == s
  {
    var init := s[..|s| - 1];
    var d := LastValue(s, b);
    hide ValueOf, IsDigits, Digit, DigitValue, Numeral;
    LastDigit(ValueOf(init, b), d, b);
    NumeralStep(ValueOf(s, b), b);
  }

  /** The value of a digit string, put together from its front part and its last digit. */
  lemma LastValue(s: string, b: Base) returns (d: nat)
    requires |s| > 1 && IsDigits(s, b) && s[0] != '0'
    ensures d < b.Value() && s == s[..|s| - 1] + [Digit(d)]
    ensures IsDigits(s[..|s| - 1], b) && ValueOf(s[..|s| - 1], b) > 0
    ensures ValueOf(s, b) == b.Times(ValueOf(s[..|s| - 1], b)) + d
  {
    d := DigitValue(s[|s| - 1]);
    DigitOfValue(s[|s| - 1]);
    ValuePositive(s[..|s| - 1], b);
    hide Digit, DigitValue;
  }

  lemma NumeralStep(n: nat, b: Base)
    requires n >= b.Value()
    ensures Numeral(n, b) == Numeral(b.Quotient(n), b) + [Digit(b.Rest(n))]
  {
  }

  lemma DigitOfValue(c: char)
    requires 0 <= DigitValue(c) < 16
    ensures Digit(DigitValue(c)) == c
  {
  }

  lemma LastDigit(v: nat, d: nat, b: Base)
    requires d < b.Value() && v > 0
    ensures var n := b.Times(v) + d; n >= b.Value() && b.Quotient(n) == v && b.Rest(n) == d
  {
  }

  lemma {:induction false} ValuePositive(s: string, b: Base)
    requires s != "" && IsDigits(s, b) && s[0] != '0'
    ensures ValueOf(s, b) > 0
    decreases |s|
  {
    var init := s[..|s| - 1];
    if init == "" {
      assert ValueOf("", b) == 0;
    } else {
      ValuePositive(init, b);
    }
  }

  /** Reading back what was written gives the number; the text has no superfluous leading zero. */
  lemma ReadBack(v: int)
    ensures ReadDecimal(Decimal(v)) == Number(v)
    ensures NoLeadingZero(if v < 0 then Decimal(v)[1..] else Decimal(v))
  {
    ValueOfNumeral(if v < 0 then -v else v, Ten);
    if v < 0 {
      assert Decimal(v)[1..] == Numeral(-v, Ten);
    } else {
      assert 0 <= DigitValue(Numeral(v, Ten)[0]) && DigitValue('-') == -1;
    }
  }

  // ---------- how long a numeral gets ----------

  function Power(b: Base, k: nat): nat {
    if k == 0 then 1 else b.Times(Power(b, k - 1))
  }

  lemma {:induction false} NumeralLength(n: nat, b: Base, k: nat)
    requires k > 0 && n < Power(b, k)
    ensures |Numeral(n, b)| <= k
    decreases k
  {
    if n >= b.Value() {
      assert Power(b, k) == b.Times(Power(b, k - 1)) && Power(b, 0) == 1;
      NumeralLength(b.Quotient(n), b, k - 1);
    }
  }

  lemma Powers()
    ensures Power(Ten, 19) == 10000000000000000000
    ensures Power(Ten, 20) == 100000000000000000000
    ensures Power(Sixteen, 16) == 0x1_0000_0000_0000_0000
  {
    assert Power(Ten, 4) == 10000;
    assert Power(Ten, 8) == 100000000;
    assert Power(Ten, 12) == 1000000000000;
    assert Power(Ten, 16) == 10000000000000000;
    assert Power(Sixteen, 4) == 0x1_0000;
    assert Power(Sixteen, 8) == 0x1_0000_0000;
    assert Power(Sixteen, 12) == 0x1_0000_0000_0000;
  }
}
