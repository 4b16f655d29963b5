/**
 * The request that updates or removes a club's late-payment-interest
 * configuration (`FFChangeLatePaymentInterestCall.swift`). The configuration
 * itself is an opaque type parameter `Interest`, the club identifier an
 * opaque `Id`; how the request is marshalled into Firebase parameters is not
 * modelled.
 */
module ChangeLatePaymentInterest {
  import opened Wrappers

  /** Whether the configuration is set to a new value or removed. */
  datatype ChangeType<Interest> = Update(interest: Interest) | Remove

  /** The request: which club, and what change. */
  datatype Call<Id, Interest> = Call(clubId: Id, changeType: ChangeType<Interest>)

  /** The name of the backend function the request is sent to. */
  const FunctionName: string := "changeLatePaymentInterest"

  /** `latePaymentInterest`: the new configuration, absent for a removal. */
  function LatePaymentInterest<Interest>(change: ChangeType<Interest>): (r: Option<Interest>)
    ensures r.None? <==> change.Remove?
    ensures change.Update? ==> r == Some(change.interest)
  {
    match change
    case Update(interest) => Some(interest)
    case Remove => None
  }

  /** `init(clubId:interest:)`: no configuration means removal. */
  function Init<Id, Interest>(clubId: Id, interest: Option<Interest> := None): (c: Call<Id, Interest>)
    ensures c.clubId == clubId
    ensures c.changeType == Remove <==> interest.None?
    ensures interest.Some? ==> c.changeType == Update(interest.value)
  {
    match interest
    case None => Call(clubId, Remove)
    case Some(i) => Call(clubId, Update(i))
  }

  /** `primordialParameter`: the tag sent over the wire. */
  function PrimordialParameter<Interest>(change: ChangeType<Interest>): (s: string)
    ensures s == "update" <==> change.Update?
    ensures s == "remove" <==> change.Remove?
  {
    match change
    case Update(_) => "update"
    case Remove => "remove"
  }

  /** The configuration a request was built from can be read back from it. */
  lemma InitRoundTrip<Id, Interest>(clubId: Id, interest: Option<Interest>)
    ensures LatePaymentInterest(Init(clubId, interest).changeType) == interest
  {
  }

  /** Conversely, every change is the one built from the configuration it carries. */
  lemma ChangeTypeRoundTrip<Id, Interest>(clubId: Id, change: ChangeType<Interest>)
    ensures Init(clubId, LatePaymentInterest(change)) == Call(clubId, change)
  {
  }

  /** The wire tag tells the two kinds of change apart. */
  lemma TagDistinguishes<Interest>(a: ChangeType<Interest>, b: ChangeType<Interest>)
    ensures PrimordialParameter(a) == PrimordialParameter(b) <==> a.Update? == b.Update?
  {
  }
}
