/** fmt.Sprintf("%d", n): the decimal text of an integer, with a reference
    reader of decimal text that it is proved against. */
module Decimal {
  import opened ByteStrings

  predicate IsDigit(b: Byte) {
    '0' <= b <= '9'
  }

  function DigitChar(d: nat): (r: Byte)
    requires d < 10
    ensures IsDigit(r) && r as int - '0' as int == d
  {
    ('0' as int + d) as char
  }

  /** The decimal digits of n, most significant first, without leading zeros. */
  function FormatNat(n: nat): (r: Bytes)
    ensures |r| > 0
    ensures forall i :: 0 <= i < |r| ==> IsDigit(r[i])
    ensures r[0] == '0' <==> n == 0
    ensures r[0] == '0' ==> |r| == 1
  {
    if n < 10 then [DigitChar(n)] else FormatNat(n / 10) + [DigitChar(n % 10)]
  }

  /** fmt.Sprintf("%d", n): a minus sign for a negative n, then the digits. */
  function FormatInt(n: int): (r: Bytes)
    ensures |r| > 0 && !IsSpace(r[0]) && !IsSpace(r[|r| - 1])
    ensures forall i :: 0 <= i < |r| ==> IsDigit(r[i]) || (i == 0 && r[i] == '-')
    ensures r[0] == '-' <==> n < 0
    ensures r[0] == '0' ==> r == "0"
    ensures r[0] == '-' ==> |r| > 1 && r[1] != '0'
  {
    if n < 0 then "-" + FormatNat(-n) else FormatNat(n)
  }

  /** The value of a string of decimal digits (the reference reader). */
  function DigitsValue(s: Bytes): nat
    requires forall i :: 0 <= i < |s| ==> IsDigit(s[i])
  {
    if s == [] then 0
    else
      assert IsDigit(s[|s| - 1]);
      DigitsValue(s[..|s| - 1]) * 10 + (s[|s| - 1] as int - '0' as int)
  }

  /** The value of an optionally signed decimal string. */
  function DecimalValue(s: Bytes): int
    requires |s| > 0
    requires forall i :: 0 <= i < |s| ==> IsDigit(s[i]) || (i == 0 && s[i] == '-')
  {
    if s[0] == '-' then
      var magnitude: int := DigitsValue(s[1..]);
      -magnitude
    else DigitsValue(s)
  }

  /** Reading back the digits of n gives n. */
  lemma {:induction false} FormatNatValue(n: nat)
    ensures DigitsValue(FormatNat(n)) == n
  {
    var s := FormatNat(n);
    if n >= 10 {
      assert s[..|s| - 1] == FormatNat(n / 10);
      FormatNatValue(n / 10);
    }
  }

  /** Reading back the text of n gives n: FormatInt loses nothing. */
  lemma FormatIntValue(n: int)
    ensures DecimalValue(FormatInt(n)) == n
  {
    var s := FormatInt(n);
    if n < 0 {
      assert s[1..] == FormatNat(-n);
      FormatNatValue(-n);
    } else {
      FormatNatValue(n);
    }
  }
}
