/**
 The names of context parameters: the name of a derived type, `Ctx`, and a number when the
 struct takes several parameters of that type. Different parameters have different names.
 */
module ParameterNames {
  import opened Arithmetic

  function Digit(d: nat): char
    requires d < 10
  {
    "0123456789"[d]
  }

  function DigitValue(c: char): nat {
    if c == '1' then 1 else if c == '2' then 2 else if c == '3' then 3 else if c == '4' then 4 else if c == '5' then 5
    else if c == '6' then 6 else if c == '7' then 7 else if c == '8' then 8 else if c == '9' then 9 else 0
  }

  function Decimal(n: nat): (r: string)
    ensures |r| > 0
  {
    if n < 10 then [Digit(n)] else Decimal(n / 10) + [Digit(n % 10)]
  }

  function Value(s: string): nat {
    if s == "" then 0 else 10 * Value(s[..|s| - 1]) + DigitValue(s[|s| - 1])
  }

  lemma DigitReadsBack(d: nat)
    requires d < 10
    ensures DigitValue(Digit(d)) == d && Digit(d) != 'x'
  {
  }

  lemma {:induction false} DecimalReadsBack(n: nat)
    ensures Value(Decimal(n)) == n
    ensures forall i :: 0 <= i < |Decimal(n)| ==> Decimal(n)[i] != 'x'
  {
    hide Digit, DigitValue;
    DigitReadsBack(n % 10);
    if n < 10 {
      assert n % 10 == n && Decimal(n)[..0] == "";
    } else {
      DecimalReadsBack(n / 10);
      var front, d := Decimal(n / 10), Digit(n % 10);
      assert (front + [d])[..|front|] == front;
    }
  }

  /** `contextParamName` */
  function ParameterName(derived: string, ordinal: nat, total: nat): string {
    if total <= 1 then derived + "Ctx" else derived + "Ctx" + Decimal(ordinal + 1)
  }

  function Suffix(ordinal: nat, total: nat): string {
    if total <= 1 then "" else Decimal(ordinal + 1)
  }

  /** What stands behind the last `Ctx` is the number, so a name can be taken apart again. */
  lemma SplitName(a: string, b: string, m: string, n: string)
    requires a + "Ctx" + m == b + "Ctx" + n
    requires forall i :: 0 <= i < |m| ==> m[i] != 'x'
    requires forall i :: 0 <= i < |n| ==> n[i] != 'x'
    ensures a == b && m == n
  {
    var s, t := a + "Ctx" + m, b + "Ctx" + n;
    assert s[|s| - 1 - |m|] == 'x' && t[|t| - 1 - |n|] == 'x';
    assert |m| == |n|;
    assert s[..|a|] == a && t[..|b|] == b;
    assert s[|a| + 3..] == m && t[|b| + 3..] == n;
  }

  function Pow10(k: nat): (p: nat)
    ensures p >= 1
  {
    if k == 0 then 1 else 10 * Pow10(k - 1)
  }

  lemma DigitChar(d: nat)
    requires d < 10
    ensures Digit(d) as int == '0' as int + d
  {
  }

  /** Decimal digits as characters, from the last one on. */
  lemma {:induction false} DecimalDigit(n: nat, i: nat)
    requires i < |Decimal(n)|
    ensures Decimal(n)[|Decimal(n)| - 1 - i] as int == '0' as int + n / Pow10(i) % 10
  {
    hide Digit;
    DigitChar(n % 10);
    if n >= 10 && i > 0 {
      DecimalDigit(n / 10, i - 1);
      DivDiv(n, 10, Pow10(i - 1));
    }
  }

  /** No number where a type has one parameter; else the number in decimal, counted from 1. */
  lemma NameForm(derived: string, ordinal: nat, total: nat)
    ensures |ParameterName(derived, ordinal, total)| >= |derived| + 3
    ensures ParameterName(derived, ordinal, total)[..|derived| + 3] == derived + "Ctx"
    ensures total <= 1 ==> ParameterName(derived, ordinal, total)[|derived| + 3..] == ""
    ensures total > 1 ==>
      var number := ParameterName(derived, ordinal, total)[|derived| + 3..];
      && Value(number) == ordinal + 1 && number != ""
      && forall i: nat :: i < |number| ==>
          number[|number| - 1 - i] as int == '0' as int + (ordinal + 1) / Pow10(i) % 10
  {
    hide Decimal, Value, Pow10;
    var name := ParameterName(derived, ordinal, total);
    assert name[..|derived| + 3] == derived + "Ctx";
    if total > 1 {
      var number := Decimal(ordinal + 1);
      assert name[|derived| + 3..] == number;
      DecimalReadsBack(ordinal + 1);
      forall i: nat | i < |number|
        ensures number[|number| - 1 - i] as int == '0' as int + (ordinal + 1) / Pow10(i) % 10
      {
        DecimalDigit(ordinal + 1, i);
      }
    }
  }

  /** One name belongs to one type, and to one number where there are several. */
  lemma NameDetermines(a: string, b: string, i: nat, j: nat, totalA: nat, totalB: nat)
    requires ParameterName(a, i, totalA) == ParameterName(b, j, totalB)
    ensures a == b && (totalA > 1 && totalB > 1 ==> i == j)
  {
    DecimalReadsBack(i + 1);
    DecimalReadsBack(j + 1);
    assert a + "Ctx" + "" == a + "Ctx" && b + "Ctx" + "" == b + "Ctx";
    SplitName(a, b, Suffix(i, totalA), Suffix(j, totalB));
  }
}
