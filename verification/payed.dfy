/**
 * The payment state of a fine (`Payed.swift`): paid on a date, or unpaid.
 * It is decoded from a raw record `{state, payDate?}` and encoded through
 * the `state` and `payDate` accessors. A `Date` is an opaque number.
 */
module PaymentState {
  import opened Wrappers

  type Date = int

  datatype Payed = Payed(date: Date) | Unpayed

  /** The raw record the decoder reads and the accessors produce. */
  datatype CodablePayed = CodablePayed(state: string, payDate: Option<Date>)

  /** Why decoding a raw record failed; an invalid state carries the offending string. */
  datatype DecodeError = PayDateNotFound | InvalidState(state: string)

  /** `init(from:)`: `"unpayed"` ignores any date, `"payed"` needs one, anything else is rejected. */
  function Decode(raw: CodablePayed): (r: Result<Payed, DecodeError>)
    ensures r.Success? <==> raw.state == "unpayed" || (raw.state == "payed" && raw.payDate.Some?)
    ensures r == Success(Unpayed) <==> raw.state == "unpayed"
    ensures forall d :: r == Success(Payed(d)) <==> raw.state == "payed" && raw.payDate == Some(d)
    ensures r == Failure(PayDateNotFound) <==> raw.state == "payed" && raw.payDate.None?
    ensures r.Failure? && r.error.InvalidState? ==> r.error.state == raw.state
  {
    match raw.state
    case "unpayed" => Success(Unpayed)
    case "payed" =>
      (match raw.payDate
       case None => Failure(PayDateNotFound)
       case Some(date) => Success(Payed(date)))
    case _ => Failure(InvalidState(raw.state))
  }

  /** `state`: the discriminator string of a payment state. */
  function State(p: Payed): (s: string)
    ensures s == "unpayed" || s == "payed"
    ensures s == "payed" <==> p.Payed?
  {
    match p
    case Unpayed => "unpayed"
    case Payed(_) => "payed"
  }

  /** `payDate`: the date of a payment, absent exactly when unpaid. */
  function PayDate(p: Payed): (d: Option<Date>)
    ensures d.None? <==> p.Unpayed?
    ensures p.Payed? ==> d == Some(p.date)
  {
    match p
    case Unpayed => None
    case Payed(date) => Some(date)
  }

  /** The raw record of a payment state, as its parameter object lists it. */
  function Encode(p: Payed): (r: CodablePayed)
    ensures r.state == "payed" <==> p.Payed?
    ensures r.state == "unpayed" <==> p.Unpayed?
    ensures r.payDate.Some? <==> p.Payed?
    ensures p.Payed? ==> r.payDate == Some(p.date)
  {
    CodablePayed(State(p), PayDate(p))
  }

  /** Decoding the encoding of any payment state gives it back. */
  lemma DecodeEncode(p: Payed)
    ensures Decode(Encode(p)) == Success(p)
  {
  }

  /** A record that decodes is re-encoded unchanged, except that a date beside
      `"unpayed"` is dropped. */
  lemma EncodeDecode(raw: CodablePayed)
    requires Decode(raw).Success?
    ensures Encode(Decode(raw).value) == raw || (raw.state == "unpayed" && raw.payDate.Some?)
    ensures Encode(Decode(raw).value).state == raw.state
  {
  }

  /** The backend also knows a `"settled"` state; this decoder rejects it. */
  lemma SettledIsRejected(d: Option<Date>)
    ensures Decode(CodablePayed("settled", d)) == Failure(InvalidState("settled"))
  {
  }
}
