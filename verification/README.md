# Strafen core in Dafny

A Dafny model of four small pure components of the Strafen club fine-tracking app:

- **`Amount`**: the fixed-point money type. It holds a whole-unit `value` and a sub-unit `sub` in 0...99 (euros and cents). The model covers construction, `zero`, `+` with carry, `-` with borrow that clamps to `zero`, `*` and `*=` by an `Int` using the multiplier's magnitude, `==`, lexicographic `<`, and `stringValue`. Every operator is specified against `Cents(a) = 100 * value + sub`, which is one-to-one on valid amounts (`AmountLaws.CentsInjective`).
- **`Payed`**: the payment state of a fine, either `payed(date)` or `unpayed`. The model covers its validating decoder from the raw `{state, payDate?}` record and the `state` / `payDate` accessors that encode it.
- **`Array` extensions**: in-place `mapped` and `filtered`, sorting by a derived `Comparable` value (closure or key path) in ascending or descending order, and `unique`.
- **`FFChangeLatePaymentInterestCall`**: turns an optional late-payment-interest configuration into an `update` or `remove` change, and gives the wire tag of that change.

Modules follow the source files:

- `Amounts` (amount.dfy) and `AmountLaws` (amount_laws.dfy) model `Amount.swift`.
- `PaymentState` (payed.dfy) models `Payed.swift`.
- `ArrayExtensions` (array_extensions.dfy) models `Extensions+Array.swift`.
- `ChangeLatePaymentInterest` (change_interest.dfy) models `FFChangeLatePaymentInterestCall.swift`.
- `SwiftInt` gives Swift's truncating `/` and `%`.
- `Decimal` gives the decimal rendering behind `"\(n)"`.
- `Wrappers` holds `Option` and `Result`.

Modelling choices:

- Construction clamps. `Amount.init` stores through the `@NonNegative` and `@Clamping(0...99)` property wrappers. Their code is not part of this model, so `Amounts.Make` assumes they clamp: a negative whole unit becomes 0, and the sub-unit is clamped into 0...99. Construction never fails.
- Only two payment states exist. The backend's type definitions also list a `"settled"` state, but `Payed.init(from:)` rejects it as an invalid state, and the model follows that decoder.
- A `Date` is an opaque `int`. A late-payment-interest configuration and a club identifier are opaque type parameters.
- Swift's default arguments are Dafny default parameters: `order` defaults to `Ascending` in the four sort members, and the interest defaults to `None` in `ChangeLatePaymentInterest.Init`.
- The backend function name is the constant `ChangeLatePaymentInterest.FunctionName`, which is `"changeLatePaymentInterest"`. The club identifier is stored unchanged (`ChangeLatePaymentInterest.Init`).

## Model

| member | source | states |
|---|---|---|
| `Amounts.Make` | Strafen/Utilities/Amount.swift:14-26 | construction always gives a valid amount; the result is the given pair exactly when both fields are in range; each in-range field is kept even when the other is clamped; an out-of-range field is clamped to the nearest bound |
| `AmountLaws.MakeKeepsValid` | Strafen/Utilities/Amount.swift:23-26 | building an amount from the fields of a valid amount gives that amount back |
| `Amounts.Zero` | Strafen/Utilities/Amount.swift:78-80 | `zero` has no whole units and no sub-units |
| `AmountLaws.ZeroIsNothing` | Strafen/Utilities/Amount.swift:78-80 | `zero` is valid and is worth 0 sub-units |
| `Amounts.Add` | Strafen/Utilities/Amount.swift:82-87 | the sum is valid and its value in sub-units is the sum of the operands' values |
| `AmountLaws.AddZero` | Strafen/Utilities/Amount.swift:78-87 | `zero` is a left and right identity of `+` |
| `AmountLaws.AddCommutative` | Strafen/Utilities/Amount.swift:82-87 | `a + b == b + a` |
| `AmountLaws.AddAssociative` | Strafen/Utilities/Amount.swift:82-87 | `(a + b) + c == a + (b + c)` |
| `AmountLaws.AddCarryExample` | Strafen/Utilities/Amount.swift:82-87 | 19,99 plus 0,01 is 20,00: the sub-units carry into the whole unit |
| `Amounts.Sub` | Strafen/Utilities/Amount.swift:89-95 | the difference is valid; it is the exact difference when the minuend is not smaller, and `zero` otherwise |
| `AmountLaws.AddThenSub` | Strafen/Utilities/Amount.swift:82-95 | `(a + b) - b == a` for all valid amounts |
| `AmountLaws.SubThenAdd` | Strafen/Utilities/Amount.swift:82-95 | `(a - b) + b == a` whenever `a < b` is false, i.e. when no clamping happened |
| `AmountLaws.SubSelf` | Strafen/Utilities/Amount.swift:89-95 | `a - a == zero` |
| `AmountLaws.SubClamps` | Strafen/Utilities/Amount.swift:89-95 | `a < b` holds exactly when `a - b` is `zero` although `a != b`: subtraction below zero clamps and raises no error |
| `Amounts.Mul` | Strafen/Utilities/Amount.swift:116-121 | the product is valid and worth the amount's value in sub-units times the multiplier's magnitude |
| `AmountLaws.MulZero` | Strafen/Utilities/Amount.swift:116-121 | `a * 0 == zero` |
| `AmountLaws.MulOne` | Strafen/Utilities/Amount.swift:116-121 | `a * 1 == a` |
| `AmountLaws.MulNegate` | Strafen/Utilities/Amount.swift:116-121 | `a * (-m) == a * m`: the sign of the multiplier is discarded |
| `AmountLaws.MulIsRepeatedAdd` | Strafen/Utilities/Amount.swift:82-121 | `a * (n + 1) == a * n + a` for natural `n` |
| `AmountLaws.MulDistributes` | Strafen/Utilities/Amount.swift:82-121 | `(a + b) * m == a * m + b * m` |
| `Amounts.MulAssign` | Strafen/Utilities/Amount.swift:140-142 | after `*=` the amount is valid and worth its old value times the multiplier's magnitude |
| `AmountLaws.MulAssignIsMul` | Strafen/Utilities/Amount.swift:140-142 | `*=` leaves the amount equal to the corresponding `*` |
| `Amounts.Equal` | Strafen/Utilities/Amount.swift:155-157 | `==` holds exactly for identical pairs; on valid amounts, exactly for equal values in sub-units |
| `Amounts.Less` | Strafen/Utilities/Amount.swift:162-169 | on valid amounts the lexicographic `<` coincides with `<` on values in sub-units |
| `AmountLaws.LessStrictTotalOrder` | Strafen/Utilities/Amount.swift:162-169 | `<` is irreflexive, asymmetric, transitive and total on all amounts |
| `Amounts.StringValue` | Strafen/Utilities/Amount.swift:34-42 | the text has a comma exactly when the sub-unit is non-zero; then the comma is the only one and is followed by exactly two digits; the whole-unit part is digits without a leading zero |
| `AmountLaws.StringValueRoundTrip` | Strafen/Utilities/Amount.swift:34-42 | reading a `stringValue` back gives the amount again, where only texts `stringValue` can write are read: digits without a leading zero, then optionally a comma and two digits other than `00` |
| `AmountLaws.RoundTripWhole` | Strafen/Utilities/Amount.swift:34-35 | an amount without sub-units prints as its whole units alone, and that text reads back as the amount |
| `AmountLaws.RoundTripPadded` | Strafen/Utilities/Amount.swift:36-37 | a sub-unit from 1 to 9 is printed as `0` and its digit after the comma, and the text reads back as the amount |
| `AmountLaws.RoundTripTwoDigits` | Strafen/Utilities/Amount.swift:38-39 | a sub-unit from 10 to 99 is printed as its two digits after the comma, and the text reads back as the amount |
| `AmountLaws.ParseRejectsNonCanonical` | Strafen/Utilities/Amount.swift:34-42 | texts `stringValue` never writes (`05,07`, `05`, `5,00`, `5,7`) are not read back as amounts |
| `AmountLaws.StringValueInjective` | Strafen/Utilities/Amount.swift:34-42 | distinct valid amounts have distinct `stringValue`s |
| `AmountLaws.StringValueExamples` | Strafen/Utilities/Amount.swift:34-42 | 5,00 prints as `5`, 5,07 as `5,07` (the zero padding) and 12,50 as `12,50` |
| `AmountLaws.FractionValue` | Strafen/Utilities/Amount.swift:37-40 | the two characters written after the comma, padded or not, are digits denoting the sub-unit |
| `Decimal.Format` | Strafen/Utilities/Amount.swift:36-40 | `"\(n)"` is a non-empty run of digits without a leading zero, one digit long below 10 and two digits long from 10 to 99 |
| `Decimal.ValueOfFormat` | Strafen/Utilities/Amount.swift:36-40 | reading back the digits of `"\(n)"` gives `n` |
| `Decimal.FormatInjective` | Strafen/Utilities/Amount.swift:36-40 | distinct numbers are rendered differently |
| `SwiftInt.Abs` | Strafen/Utilities/Amount.swift:117-119 | `abs` gives a natural number equal to the argument or to its negation |
| `SwiftInt.Quot` | Strafen/Utilities/Amount.swift:84 | Swift's `/` by a positive divisor is zero exactly for dividends of smaller magnitude, and otherwise has the dividend's sign |
| `SwiftInt.QuotTruncates` | Strafen/Utilities/Amount.swift:84-85 | Swift's `/` and `%` are symmetric about zero: negating the dividend negates quotient and remainder |
| `SwiftInt.Rem` | Strafen/Utilities/Amount.swift:84-85 | Swift's `%` by a positive divisor is smaller than the divisor in magnitude and carries the sign of the dividend |
| `SwiftInt.QuotRemSplit` | Strafen/Utilities/Amount.swift:84-85 | Swift's `/` and `%` split the dividend exactly: `a == (a / b) * b + a % b` |
| `SwiftInt.NonNegativeQuotRem` | Strafen/Utilities/Amount.swift:84-92 | on the non-negative dividends that occur in the operators, Swift's `/` and `%` agree with Euclidean division |
| `PaymentState.Decode` | Strafen/AppTypes/Payed.swift:34-48 | `"unpayed"` decodes to unpaid whatever the date; `"payed"` with a date decodes to paid on that date; `"payed"` without a date is a missing-date error; any other state is an invalid-state error carrying the state string |
| `PaymentState.SettledIsRejected` | Strafen/AppTypes/Payed.swift:45-46 | the state `"settled"` is rejected as invalid |
| `PaymentState.State` | Strafen/AppTypes/Payed.swift:56-63 | `state` is `"payed"` exactly for a paid state and `"unpayed"` otherwise |
| `PaymentState.PayDate` | Strafen/AppTypes/Payed.swift:66-73 | `payDate` is absent exactly for an unpaid state and is the payment date otherwise |
| `PaymentState.Encode` | Strafen/AppTypes/Payed.swift:55-78 | the `{state, payDate}` pair of a payment state: the state is `"payed"` exactly for a paid state and `"unpayed"` exactly for an unpaid one; a date is sent exactly for a paid state, and it is that state's date |
| `PaymentState.DecodeEncode` | Strafen/AppTypes/Payed.swift:34-73 | decoding `{state, payDate}` of any payment state succeeds and gives that state back |
| `PaymentState.EncodeDecode` | Strafen/AppTypes/Payed.swift:34-73 | a record that decodes is encoded back unchanged, except that a date next to `"unpayed"` is dropped |
| `ArrayExtensions.Mapped` | Strafen/Utilities/Extensions/Extensions+Array.swift:16-18 | the array keeps its length, and each element becomes the image of the old element at that position |
| `ArrayExtensions.Filter` | Strafen/Utilities/Extensions/Extensions+Array.swift:24-26 | every kept element satisfies the predicate, and each satisfying value is kept as often as it occurred |
| `ArrayExtensions.FilterKeepsOrder` | Strafen/Utilities/Extensions/Extensions+Array.swift:24-26 | the kept elements are a subsequence of the original: their relative order is unchanged |
| `ArrayExtensions.FilterAllKept` | Strafen/Utilities/Extensions/Extensions+Array.swift:24-26 | filtering leaves the array unchanged exactly when every element satisfies the predicate |
| `ArrayExtensions.Filtered` | Strafen/Utilities/Extensions/Extensions+Array.swift:24-26 | in-place `filtered` leaves the array equal to `Filter`, with the same element-count guarantee |
| `ArrayExtensions.Comparator` | Strafen/Utilities/Extensions/Extensions+Array.swift:44-53 | the predicate `sorted(order:byValue:)` hands to Swift's sort is a strict weak order whenever `<` on the sort values is one |
| `ArrayExtensions.KeyComparisonIsStrictWeakOrder` | Strafen/Utilities/Extensions/Extensions+Array.swift:45-52 | comparing elements by their sort values with `<` (ascending) or `>` (descending) is again asymmetric with a transitive "not before", whenever `<` on the sort values is |
| `ArrayExtensions.SortWith` | Strafen/Utilities/Extensions/Extensions+Array.swift:45-52 | sorting by a valid predicate gives a permutation in which no element is strictly before an earlier one |
| `ArrayExtensions.Sorted` | Strafen/Utilities/Extensions/Extensions+Array.swift:44-53 | `sorted(order:byValue:)` returns a permutation of the array; sort values never decrease (ascending) or never increase (descending) |
| `ArrayExtensions.SortedByKeyPath` | Strafen/Utilities/Extensions/Extensions+Array.swift:60-62 | sorting by a key path gives the same array as sorting by the closure that reads the key path |
| `ArrayExtensions.SortWithCongruent` | Strafen/Utilities/Extensions/Extensions+Array.swift:60-62 | two sort predicates that agree on every pair produce the same sorted array |
| `ArrayExtensions.Sort` | Strafen/Utilities/Extensions/Extensions+Array.swift:72-74 | in-place `sort(order:byValue:)` leaves the array equal to `sorted(order:byValue:)`: a permutation ordered by sort value |
| `ArrayExtensions.SortByKeyPath` | Strafen/Utilities/Extensions/Extensions+Array.swift:80-82 | in-place `sort(order:by:)` leaves the array equal to `sorted(order:by:)`: a permutation ordered by key |
| `ArrayExtensions.Unique` | Strafen/Utilities/Extensions/Extensions+Array.swift:88-90 | `unique` holds exactly the elements of the array, each exactly once |
| `ArrayExtensions.UniqueCardinality` | Strafen/Utilities/Extensions/Extensions+Array.swift:88-90 | `unique` is as long as the set of the array's elements is large |
| `ChangeLatePaymentInterest.LatePaymentInterest` | Strafen/FirebaseInterface/FFCallables/FFChangeLatePaymentInterestCall.swift:23-30 | the configuration is present exactly for an update, and is the one the update carries |
| `ChangeLatePaymentInterest.Init` | Strafen/FirebaseInterface/FFCallables/FFChangeLatePaymentInterestCall.swift:43-47 | the club id is stored unchanged; no configuration gives `remove`, and a configuration `i` gives `update(i)` |
| `ChangeLatePaymentInterest.PrimordialParameter` | Strafen/FirebaseInterface/FFCallables/FFChangeLatePaymentInterestCall.swift:60-67 | the wire tag is `"update"` exactly for an update and `"remove"` exactly for a removal |
| `ChangeLatePaymentInterest.InitRoundTrip` | Strafen/FirebaseInterface/FFCallables/FFChangeLatePaymentInterestCall.swift:23-47 | the configuration a request was built from is read back from its change type |
| `ChangeLatePaymentInterest.ChangeTypeRoundTrip` | Strafen/FirebaseInterface/FFCallables/FFChangeLatePaymentInterestCall.swift:23-47 | every change type is the one built from the configuration it carries |
| `ChangeLatePaymentInterest.TagDistinguishes` | Strafen/FirebaseInterface/FFCallables/FFChangeLatePaymentInterestCall.swift:60-67 | two changes have the same wire tag exactly when they are of the same kind |

## Left out

- Amounts.Make: the `@NonNegative` and `@Clamping(0...99)` wrappers are not part of this model; their clamping behaviour is assumed.
- Amounts.Add, Amounts.Sub, Amounts.Mul, Amounts.MulAssign, SwiftInt.Abs: all `Amount` arithmetic is on unbounded integers. Swift traps on `Int` overflow, and `abs(Int.min)` traps too; no trap is modelled, so these contracts say nothing about amounts near `Int.max`.
- ArrayExtensions.Sorted: Swift's sorting algorithm is not modelled, only what `sorted(by:)` guarantees (a permutation with no element strictly before an earlier one). The model computes one admissible result with a stable insertion sort; for elements whose sort values tie, Swift may order them differently.
- ArrayExtensions.Unique: the order of `Array(Set(self))` depends on hashing and is unspecified. The model keeps first occurrences, and the contract states only membership and multiplicity.
- The `Double` paths of `Amount`: `doubleValue`, `init(doubleValue:)`, `*` and `*=` by a `Double`, `scale(by:)`, `magnitudeSquared`, and decoding from a `Double`. These are floating-point truncation semantics.
- `description` and `debugDescription` of `Amount`: they call the locale-dependent `NumberFormatter`, a foreign library.
- The Firebase parameter conformances (`primordialParameter` of `Amount`, `parameterableObject` of `Payed`, the `parameters` set of the call): they wrap Firebase types that are not part of this model. The `state` / `payDate` pair they send is modelled as `PaymentState.Encode`.
- The `throws` / `rethrows` paths of the array helpers: closures are modelled as total pure functions.
- Decoding the raw `{state, payDate?}` container itself (a missing `state` key, a mistyped field) is done by the platform's `Decoder` and is not modelled; the model starts from the decoded record.
- Late-payment interest computation: no code that computes interest is part of this model, only the request that changes the configuration.
- User interface, widget, networking, file and logging code: these are platform services with no pure core.
