/**
 * Algebraic laws of `Amount`: everything follows from the operators' `Cents`
 * contracts and the fact that `Cents` is one-to-one on valid amounts.
 */
module AmountLaws {
  import opened SwiftInt
  import opened Wrappers
  import opened Amounts
  import Decimal

  /** Two valid amounts with the same number of sub-units are the same amount. */
  lemma CentsInjective(a: Amount, b: Amount)
    requires Valid(a) && Valid(b)
    requires Cents(a) == Cents(b)
    ensures a == b
  {
  }

  /** Construction keeps a valid pair as it is. */
  lemma MakeKeepsValid(a: Amount)
    requires Valid(a)
    ensures Make(a.value, a.sub) == a
  {
  }

  /** `zero` is valid and worth nothing. */
  lemma ZeroIsNothing()
    ensures Valid(Zero()) && Cents(Zero()) == 0
  {
  }

  /** `zero` is a two-sided identity of `+`. */
  lemma AddZero(a: Amount)
    requires Valid(a)
    ensures Add(a, Zero()) == a
    ensures Add(Zero(), a) == a
  {
    assert Cents(Zero()) == 0;
    assert Cents(Add(a, Zero())) == Cents(a);
    assert Cents(Add(Zero(), a)) == Cents(a);
    CentsInjective(Add(a, Zero()), a);
    CentsInjective(Add(Zero(), a), a);
  }

  lemma AddCommutative(a: Amount, b: Amount)
    requires Valid(a) && Valid(b)
    ensures Add(a, b) == Add(b, a)
  {
    assert Cents(Add(a, b)) == Cents(Add(b, a));
    CentsInjective(Add(a, b), Add(b, a));
  }

  lemma AddAssociative(a: Amount, b: Amount, c: Amount)
    requires Valid(a) && Valid(b) && Valid(c)
    ensures Add(Add(a, b), c) == Add(a, Add(b, c))
  {
    var lhs, rhs := Add(Add(a, b), c), Add(a, Add(b, c));
    assert Cents(lhs) == Cents(a) + Cents(b) + Cents(c);
    assert Cents(rhs) == Cents(a) + Cents(b) + Cents(c);
    CentsInjective(lhs, rhs);
  }

  /** The carry of `+`: 19,99 plus 0,01 is 20. */
  lemma AddCarryExample()
    ensures Add(Make(19, 99), Make(0, 1)) == Make(20, 0)
  {
    CentsInjective(Add(Make(19, 99), Make(0, 1)), Make(20, 0));
  }

  /** Subtracting what was added gives the original amount back. */
  lemma AddThenSub(a: Amount, b: Amount)
    requires Valid(a) && Valid(b)
    ensures Sub(Add(a, b), b) == a
  {
    var sum := Add(a, b);
    assert Cents(sum) == Cents(a) + Cents(b);
    assert Cents(Sub(sum, b)) == Cents(a);
    CentsInjective(Sub(sum, b), a);
  }

  /** Adding back what was subtracted restores the amount, unless the subtraction clamped. */
  lemma SubThenAdd(a: Amount, b: Amount)
    requires Valid(a) && Valid(b)
    requires !Less(a, b)
    ensures Add(Sub(a, b), b) == a
  {
    var difference := Sub(a, b);
    assert Cents(difference) == Cents(a) - Cents(b);
    assert Cents(Add(difference, b)) == Cents(a);
    CentsInjective(Add(difference, b), a);
  }

  /** An amount minus itself is `zero`. */
  lemma SubSelf(a: Amount)
    requires Valid(a)
    ensures Sub(a, a) == Zero()
  {
    CentsInjective(Sub(a, a), Zero());
  }

  /** Subtracting a larger amount clamps to `zero` rather than failing. */
  lemma SubClamps(a: Amount, b: Amount)
    requires Valid(a) && Valid(b)
    ensures Less(a, b) <==> Sub(a, b) == Zero() && a != b
  {
    if Sub(a, b) == Zero() && a != b && !Less(a, b) {
      assert Cents(a) - Cents(b) == 0;
      CentsInjective(a, b);
    }
  }

  /** Multiplying by zero gives `zero`. */
  lemma MulZero(a: Amount)
    requires Valid(a)
    ensures Mul(a, 0) == Zero()
  {
    assert Cents(Mul(a, 0)) == Cents(a) * 0 == 0;
    CentsInjective(Mul(a, 0), Zero());
  }

  /** Multiplying by one changes nothing. */
  lemma MulOne(a: Amount)
    requires Valid(a)
    ensures Mul(a, 1) == a
  {
    assert Cents(Mul(a, 1)) == Cents(a) * 1 == Cents(a);
    CentsInjective(Mul(a, 1), a);
  }

  /** The sign of the multiplier is discarded. */
  lemma MulNegate(a: Amount, m: int)
    requires Valid(a)
    ensures Mul(a, -m) == Mul(a, m)
  {
    assert Abs(-m) == Abs(m);
    assert Cents(Mul(a, -m)) == Cents(Mul(a, m));
    CentsInjective(Mul(a, -m), Mul(a, m));
  }

  /** `*=` leaves the amount equal to the corresponding `*`. */
  lemma MulAssignIsMul(a: Amount, m: int)
    requires Valid(a)
    ensures MulAssign(a, m) == Mul(a, m)
  {
    CentsInjective(MulAssign(a, m), Mul(a, m));
  }

  /** Multiplication by a natural number is repeated addition. */
  lemma MulIsRepeatedAdd(a: Amount, n: nat)
    requires Valid(a)
    ensures Mul(a, n + 1) == Add(Mul(a, n), a)
  {
    var lhs, rhs := Mul(a, n + 1), Add(Mul(a, n), a);
    assert Abs(n + 1) == Abs(n) + 1;
    ScaledSucc(Cents(a), Abs(n), Abs(n + 1), Cents(Mul(a, n)), Cents(lhs), Cents(rhs));
    CentsInjective(lhs, rhs);
  }

  /** `*` distributes over `+`. */
  lemma MulDistributes(a: Amount, b: Amount, m: int)
    requires Valid(a) && Valid(b)
    ensures Mul(Add(a, b), m) == Add(Mul(a, m), Mul(b, m))
  {
    var lhs, rhs := Mul(Add(a, b), m), Add(Mul(a, m), Mul(b, m));
    ScaledSum(Cents(Add(a, b)), Cents(a), Cents(b), Abs(m),
              Cents(Mul(a, m)), Cents(Mul(b, m)), Cents(lhs), Cents(rhs));
    CentsInjective(lhs, rhs);
  }

  /**
   * The integer step behind `MulIsRepeatedAdd`: with `l = x * (k + 1)` and
   * `r = x * k + x`, `l == r`. Every product is a parameter, so a caller only
   * passes the facts `Mul` and `Add` already state.
   */
  lemma ScaledSucc(x: int, k: int, k1: int, p: int, l: int, r: int)
    requires k1 == k + 1
    requires l == x * k1 && p == x * k && r == p + x
    ensures l == r
  {
    assert x * (k + 1) == x * k + x;
  }

  /**
   * The integer step behind `MulDistributes`: with `s = x + y`, `l = s * k` and
   * `r = x * k + y * k`, `l == r`.
   */
  lemma ScaledSum(s: int, x: int, y: int, k: int, mx: int, my: int, l: int, r: int)
    requires s == x + y
    requires mx == x * k && my == y * k && l == s * k && r == mx + my
    ensures l == r
  {
    assert (x + y) * k == x * k + y * k;
  }

  /** `<` is a strict total order on all amounts (irreflexive, transitive, total). */
  lemma LessStrictTotalOrder(a: Amount, b: Amount, c: Amount)
    ensures !Less(a, a)
    ensures Less(a, b) && Less(b, c) ==> Less(a, c)
    ensures Less(a, b) || a == b || Less(b, a)
    ensures Less(a, b) ==> !Less(b, a)
  {
  }

  /** `stringValue` can be read back, so distinct amounts print differently. */
  lemma StringValueRoundTrip(a: Amount)
    requires Valid(a)
    ensures ParseStringValue(StringValue(a)) == Some(a)
  {
    if a.sub == 0 {
      RoundTripWhole(a);
    } else if a.sub < 10 {
      RoundTripPadded(a);
    } else {
      RoundTripTwoDigits(a);
    }
  }

  /** A whole amount prints as its whole units alone and reads back. */
  lemma RoundTripWhole(a: Amount)
    requires Valid(a) && a.sub == 0
    ensures ParseStringValue(StringValue(a)) == Some(a)
  {
    var whole := Decimal.Format(a.value);
    Decimal.ValueOfFormat(a.value);
    assert StringValue(a) == whole;
    ReadPlain(whole);
  }

  /** A sub-unit below 10 prints zero-padded after the comma and reads back. */
  lemma RoundTripPadded(a: Amount)
    requires Valid(a) && 1 <= a.sub < 10
    ensures ParseStringValue(StringValue(a)) == Some(a)
  {
    var whole, digit := Decimal.Format(a.value), Decimal.Format(a.sub);
    Decimal.ValueOfFormat(a.value);
    FractionValue(a.sub);
    assert StringValue(a) == whole + ",0" + digit == whole + "," + ("0" + digit);
    SplitAtComma(whole, "0" + digit);
  }

  /** A sub-unit from 10 on prints as two digits after the comma and reads back. */
  lemma RoundTripTwoDigits(a: Amount)
    requires Valid(a) && 10 <= a.sub
    ensures ParseStringValue(StringValue(a)) == Some(a)
  {
    var whole, digits := Decimal.Format(a.value), Decimal.Format(a.sub);
    Decimal.ValueOfFormat(a.value);
    FractionValue(a.sub);
    assert StringValue(a) == whole + "," + digits;
    SplitAtComma(whole, digits);
  }

  /** The two digits after the comma denote the sub-unit. */
  lemma FractionValue(sub: int)
    requires 1 <= sub <= 99
    ensures var fraction := if sub < 10 then "0" + Decimal.Format(sub) else Decimal.Format(sub);
            |fraction| == 2 && Decimal.AllDigits(fraction) && Decimal.Value(fraction) == sub
            && fraction != "00"
  {
    assert Decimal.Value("00") == 0 by { assert "00"[..1] == "0"; }
    Decimal.ValueOfFormat(sub);
    if sub < 10 {
      var fraction := "0" + Decimal.Format(sub);
      assert fraction[..1] == "0";
      assert Decimal.Value("0") == 0;
    }
  }

  /** Reading a text without a comma gives a whole amount. */
  lemma ReadPlain(whole: string)
    requires Decimal.IsCanonical(whole)
    ensures ParseStringValue(whole) == Some(Amount(Decimal.Value(whole), 0))
  {
    if |whole| >= 3 {
      assert Decimal.IsDigit(whole[|whole| - 3]);
    }
  }

  /** Reading `whole + "," + fraction` recovers both parts. */
  lemma SplitAtComma(whole: string, fraction: string)
    requires Decimal.IsCanonical(whole)
    requires |fraction| == 2 && Decimal.AllDigits(fraction) && fraction != "00"
    ensures ParseStringValue(whole + "," + fraction)
            == Some(Amount(Decimal.Value(whole), Decimal.Value(fraction)))
  {
    var s := whole + "," + fraction;
    assert s[|s| - 3] == ',';
    assert s[..|s| - 3] == whole;
    assert s[|s| - 2..] == fraction;
  }

  lemma StringValueInjective(a: Amount, b: Amount)
    requires Valid(a) && Valid(b)
    requires StringValue(a) == StringValue(b)
    ensures a == b
  {
    StringValueRoundTrip(a);
    StringValueRoundTrip(b);
  }

  /** Only the texts `stringValue` writes are read back: no leading zero, no ",00". */
  lemma ParseRejectsNonCanonical()
    ensures ParseStringValue("05,07") == None
    ensures ParseStringValue("05") == None
    ensures ParseStringValue("5,00") == None
    ensures ParseStringValue("5,7") == None
  {
  }

  /** The three shapes of `stringValue`. */
  lemma StringValueExamples()
    ensures StringValue(Amount(5, 0)) == "5"
    ensures StringValue(Amount(5, 7)) == "5,07"
    ensures StringValue(Amount(12, 50)) == "12,50"
  {
    WholeExample();
    PaddedExample();
    TwoDigitsExample();
  }

  /** No sub-units: only the whole units are printed. */
  lemma WholeExample()
    ensures StringValue(Amount(5, 0)) == "5"
  {
    assert Decimal.Format(5) == "5";
  }

  /** A single-digit sub-unit is padded with a zero. */
  lemma PaddedExample()
    ensures StringValue(Amount(5, 7)) == "5,07"
  {
    assert Decimal.Format(5) == "5" && Decimal.Format(7) == "7";
    assert StringValue(Amount(5, 7)) == "5" + ",0" + "7";
  }

  /** A two-digit sub-unit is printed as it is. */
  lemma TwoDigitsExample()
    ensures StringValue(Amount(12, 50)) == "12,50"
  {
    assert Decimal.Format(12) == "12" by { assert Decimal.Format(1) == "1"; }
    assert Decimal.Format(50) == "50" by { assert Decimal.Format(5) == "5"; }
    assert StringValue(Amount(12, 50)) == "12" + "," + "50";
  }
}
