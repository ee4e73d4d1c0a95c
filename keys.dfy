/**
 * Problem keys. The recommender identifies a problem by the string
 * f"{contestId}_{index}": the contest number written in decimal, an
 * underscore, then the in-contest index ("A", "B1", ...).
 */
module ProblemKeys {

  /** The character of one decimal digit. */
  function DigitChar(d: nat): char
    requires d < 10
  {
    (('0' as int) + d) as char
  }

  /** Python's `str(n)` for a non-negative integer: no leading zeros. */
  function Digits(n: nat): string
  {
    if n < 10 then [DigitChar(n)] else Digits(n / 10) + [DigitChar(n % 10)]
  }

  /** Python's `str(n)` for any integer: a minus sign before the digits of a negative one. */
  function Decimal(n: int): string
  {
    if n < 0 then "-" + Digits(-n) else Digits(n)
  }

  /** The key f"{contestId}_{index}". */
  function Key(contestId: int, index: string): string
  {
    Decimal(contestId) + "_" + index
  }

  /** The digits of a number are decimal digits; one digit exactly below ten. */
  lemma {:induction false} DigitsShape(n: nat)
    ensures |Digits(n)| >= 1
    ensures forall i :: 0 <= i < |Digits(n)| ==> '0' <= Digits(n)[i] <= '9'
    ensures n < 10 <==> |Digits(n)| == 1
  {
    if n >= 10 {
      DigitsShape(n / 10);
    }
  }

  /** A decimal numeral holds no underscore and starts with '-' exactly when negative. */
  lemma DecimalShape(n: int)
    ensures |Decimal(n)| >= 1
    ensures forall i :: 0 <= i < |Decimal(n)| ==> Decimal(n)[i] != '_'
    ensures Decimal(n)[0] == '-' <==> n < 0
  {
    if n < 0 {
      DigitsShape(-n);
      assert forall i :: 1 <= i < |Decimal(n)| ==> Decimal(n)[i] == Digits(-n)[i - 1];
    } else {
      DigitsShape(n);
    }
  }

  lemma {:induction false} DigitsInjective(a: nat, b: nat)
    requires Digits(a) == Digits(b)
    ensures a == b
  {
    DigitsShape(a);
    DigitsShape(b);
    if a >= 10 && b >= 10 {
      var da, db := Digits(a), Digits(b);
      assert da[..|da| - 1] == Digits(a / 10);
      assert db[..|db| - 1] == Digits(b / 10);
      DigitsInjective(a / 10, b / 10);
      assert DigitChar(a % 10) == da[|da| - 1] == db[|db| - 1] == DigitChar(b % 10);
    }
  }

  lemma DecimalInjective(a: int, b: int)
    requires Decimal(a) == Decimal(b)
    ensures a == b
  {
    DecimalShape(a);
    DecimalShape(b);
    if a < 0 {
      assert Digits(-a) == Decimal(a)[1..];
      assert Digits(-b) == Decimal(b)[1..];
      DigitsInjective(-a, -b);
    } else {
      DigitsInjective(a, b);
    }
  }

  /**
   * Two problems share a key only when they share contest and index:
   * the decimal part holds no underscore, so the first underscore of a key
   * splits it unambiguously.
   */
  lemma KeyInjective(c1: int, i1: string, c2: int, i2: string)
    requires Key(c1, i1) == Key(c2, i2)
    ensures c1 == c2 && i1 == i2
  {
    var d1, d2 := Decimal(c1), Decimal(c2);
    var k := Key(c1, i1);
    DecimalShape(c1);
    DecimalShape(c2);
    assert k[|d1|] == '_' && k[|d2|] == '_';
    assert forall j :: 0 <= j < |d1| ==> k[j] == d1[j];
    assert forall j :: 0 <= j < |d2| ==> k[j] == d2[j];
    assert |d1| == |d2|;
    assert d1 == k[..|d1|] == d2;
    DecimalInjective(c1, c2);
    assert i1 == k[|d1| + 1..] == i2;
  }
}
