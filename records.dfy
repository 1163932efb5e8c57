/**
 * The stored entities the routes read: parties (with host and location) and
 * RSVPs, and the response category shared by the schema and the tallies.
 */
module Records {
  import opened Wrappers

  /** The database enum of attendance responses. */
  datatype ResponseType = YES | MAYBE | NO

  function ResponseName(r: ResponseType): string {
    match r
    case YES => "YES"
    case MAYBE => "MAYBE"
    case NO => "NO"
  }

  /** The enum member whose name is `s`, if any: a native-enum check on a form value. */
  function ParseResponse(s: string): (r: Option<ResponseType>)
    ensures r.Some? ==> ResponseName(r.value) == s
  {
    if s == "YES" then Some(YES)
    else if s == "MAYBE" then Some(MAYBE)
    else if s == "NO" then Some(NO)
    else None
  }

  /** Exactly the three member names are accepted, each as its own member. */
  lemma ParseResponseName(r: ResponseType, s: string)
    ensures ParseResponse(ResponseName(r)) == Some(r)
    ensures ParseResponse(s).Some? <==> s in {"YES", "MAYBE", "NO"}
  {
  }

  datatype Host = Host(firstName: string, phone: string)

  datatype Location = Location(
    name: string, address1: string, city: string, state: string, zip: string,
    crossStreets: string, instructions: string)

  /** Timestamps are instants as integers; calendar and time zone are not modelled. */
  datatype Party = Party(
    id: string, name: string, startDate: int, endDate: int, host: Host, location: Location)

  datatype Rsvp = Rsvp(
    id: string, partyId: string, name: string, response: ResponseType, guests: int,
    message: Option<string>, createdAt: int)
}
