/**
 * The fixed-point money type `Amount`: a whole-unit `value` and a sub-unit
 * `sub` (euros and cents), with the integer arithmetic, comparison and
 * string formatting of `Amount.swift`.
 *
 * The source stores both fields through the `@NonNegative` and
 * `@Clamping(0...99)` property wrappers, whose code is not part of this
 * model. `Make` models that storage as clamping, which is the one assumption
 * every operator below relies on: whatever the arithmetic produces is
 * stored through `Make`, so every amount in circulation is `Valid`.
 */
module Amounts {
  import opened SwiftInt
  import opened Wrappers
  import Decimal

  datatype Amount = Amount(value: int, sub: int)

  /** The invariant the property wrappers keep: `value >= 0` and `sub` in 0...99. */
  predicate Valid(a: Amount) {
    a.value >= 0 && 0 <= a.sub <= 99
  }

  /** The amount counted in sub-units: the abstraction every operator is specified against. */
  function Cents(a: Amount): int {
    100 * a.value + a.sub
  }

  /** `init(_:subUnit:)`, storing through `@NonNegative` and `@Clamping(0...99)`. */
  function Make(value: int, subUnit: int): (r: Amount)
    ensures Valid(r)
    ensures r == Amount(value, subUnit) <==> value >= 0 && 0 <= subUnit <= 99
    ensures value >= 0 ==> r.value == value
    ensures 0 <= subUnit <= 99 ==> r.sub == subUnit
    ensures value < 0 ==> r.value == 0
    ensures subUnit < 0 ==> r.sub == 0
    ensures subUnit > 99 ==> r.sub == 99
  {
    Amount(if value < 0 then 0 else value,
           if subUnit < 0 then 0 else if subUnit > 99 then 99 else subUnit)
  }

  /** `Amount.zero`: no whole units and no sub-units. */
  function Zero(): (r: Amount)
    ensures r == Amount(0, 0)
  {
    Make(0, 0)
  }

  /** `+`: adds the sub-units, carrying every full hundred into the whole unit. */
  function Add(a: Amount, b: Amount): (r: Amount)
    requires Valid(a) && Valid(b)
    ensures Valid(r)
    ensures Cents(r) == Cents(a) + Cents(b)
  {
    var newSub := a.sub + b.sub;
    NonNegativeQuotRem(newSub, 100);
    Make(a.value + b.value + Quot(newSub, 100), Rem(newSub, 100))
  }

  /** `-`: subtracts with a borrow from the whole unit; a negative difference gives `zero`. */
  function Sub(a: Amount, b: Amount): (r: Amount)
    requires Valid(a) && Valid(b)
    ensures Valid(r)
    ensures Cents(a) >= Cents(b) ==> Cents(r) == Cents(a) - Cents(b)
    ensures Cents(a) < Cents(b) ==> r == Zero()
  {
    var newSub := a.sub - b.sub;
    var value := a.value - b.value - (if newSub >= 0 then 0 else 1);
    var sub := Rem(newSub + 100, 100);
    BorrowedCents(a, b);
    if value >= 0 then Make(value, sub) else Zero()
  }

  /** The arithmetic behind `Sub`: the borrowed pair is the difference in sub-units. */
  lemma BorrowedCents(a: Amount, b: Amount)
    requires Valid(a) && Valid(b)
    ensures var borrow := if a.sub - b.sub >= 0 then 0 else 1;
            var sub := Rem(a.sub - b.sub + 100, 100);
            0 <= sub <= 99 && 100 * (a.value - b.value - borrow) + sub == Cents(a) - Cents(b)
  {
    NonNegativeQuotRem(a.sub - b.sub + 100, 100);
  }

  /** `*` by an `Int`: scales by the magnitude of the multiplier. */
  function Mul(a: Amount, multiplier: int): (r: Amount)
    requires Valid(a)
    ensures Valid(r)
    ensures Cents(r) == Cents(a) * Abs(multiplier)
  {
    var m := Abs(multiplier);
    var subProduct := a.sub * m;
    var carry, rest := Quot(subProduct, 100), Rem(subProduct, 100);
    CarriedCents(a, m, carry, rest);
    var r := Make(a.value * m + carry, rest);
    assert r == Amount(a.value * m + carry, rest);
    r
  }

  /** The split of `sub * m` into a carry and a remainder, as `Mul` computes it. */
  lemma CarriedCents(a: Amount, m: nat, carry: int, rest: int)
    requires Valid(a)
    requires carry == Quot(a.sub * m, 100) && rest == Rem(a.sub * m, 100)
    ensures a.value * m + carry >= 0 && 0 <= rest <= 99
    ensures 100 * (a.value * m + carry) + rest == Cents(a) * m
  {
    var p := a.sub * m;
    assert p >= 0 && a.value * m >= 0;
    NonNegativeQuotRem(p, 100);
    assert p == 100 * carry + rest;
    ScaledCents(a, m, carry, rest);
  }

  /** The arithmetic behind `Mul`: splitting `sub * m` into hundreds and rest keeps the total. */
  lemma ScaledCents(a: Amount, m: nat, carry: int, rest: int)
    requires a.sub * m == 100 * carry + rest
    ensures 100 * (a.value * m + carry) + rest == Cents(a) * m
  {
    calc {
      100 * (a.value * m + carry) + rest;
      (100 * a.value) * m + (100 * carry + rest);
      (100 * a.value) * m + a.sub * m;
      { assert (100 * a.value) * m + a.sub * m == (100 * a.value + a.sub) * m; }
      Cents(a) * m;
    }
  }

  /** `*=` by an `Int`: the amount is replaced by its product with the multiplier. */
  function MulAssign(amount: Amount, multiplier: int): (r: Amount)
    requires Valid(amount)
    ensures Valid(r)
    ensures Cents(r) == Cents(amount) * Abs(multiplier)
  {
    Mul(amount, multiplier)
  }

  /** `==`: both components agree. */
  function Equal(a: Amount, b: Amount): (r: bool)
    ensures r <==> a == b
    ensures Valid(a) && Valid(b) ==> (r <==> Cents(a) == Cents(b))
  {
    a.value == b.value && a.sub == b.sub
  }

  /** `<`: the whole unit decides, the sub-unit breaks a tie. */
  function Less(a: Amount, b: Amount): (r: bool)
    ensures Valid(a) && Valid(b) ==> (r <==> Cents(a) < Cents(b))
  {
    a.value < b.value || (a.value == b.value && a.sub < b.sub)
  }

  /** `stringValue`: the whole unit, then, unless the sub-unit is zero, a comma and
      the sub-unit padded to two digits. */
  function StringValue(a: Amount): (s: string)
    requires Valid(a)
    ensures ',' in s <==> a.sub != 0
    ensures a.sub != 0 ==>
      |s| >= 3 && s[|s| - 3] == ',' && ',' !in s[..|s| - 3] && Decimal.AllDigits(s[|s| - 2..])
    ensures Decimal.IsCanonical(if a.sub == 0 then s else s[..|s| - 3])
  {
    var whole := Decimal.Format(a.value);
    assert forall i :: 0 <= i < |whole| ==> whole[i] != ',';
    if a.sub == 0 then whole
    else if 1 <= a.sub < 10 then
      var s := whole + ",0" + Decimal.Format(a.sub);
      assert s[..|s| - 3] == whole;
      s
    else
      var s := whole + "," + Decimal.Format(a.sub);
      assert s[..|s| - 3] == whole;
      s
  }

  /**
   * Reads a `stringValue` back: the whole unit in decimal without a leading
   * zero, optionally followed by a comma and exactly two digits that are not
   * both zero. Anything else is rejected.
   */
  function ParseStringValue(s: string): Option<Amount> {
    if |s| >= 3 && s[|s| - 3] == ',' then
      var whole, fraction := s[..|s| - 3], s[|s| - 2..];
      if Decimal.IsCanonical(whole) && Decimal.AllDigits(fraction) && fraction != "00" then
        Some(Amount(Decimal.Value(whole), Decimal.Value(fraction)))
      else
        None
    else if Decimal.IsCanonical(s) then
      Some(Amount(Decimal.Value(s), 0))
    else
      None
  }
}
