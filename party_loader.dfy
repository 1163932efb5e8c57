/**
 * The loader shared by the party layout and the index page: look the configured
 * party up, answer 404 when it is missing, and otherwise return the party, its
 * message wall and its attendance tally folded onto a page-specific base.
 */
module PartyLoader {
  import opened Records
  import opened Attendance
  import opened MessageWall

  const NotFoundStatus: int := 404
  const PartyNotFound: string := "Party not found. \U{2639}\U{FE0F}"

  datatype LoaderResult =
    | NotFound(status: int, body: string)
    | Found(messages: seq<Rsvp>, party: Party, rsvps: Tally)

  /**
   * One page load: `parties` is the party table keyed by id, `partyId` the
   * configured party, `rows` the RSVP table. The tally folds the group-by result
   * onto `base`.
   */
  function Load(base: Tally, parties: map<string, Party>, partyId: string, rows: seq<Rsvp>): (r: LoaderResult)
    ensures partyId !in parties <==> r == NotFound(404, "Party not found. \U{2639}\U{FE0F}")
    ensures partyId in parties ==> r.Found? && r.party == parties[partyId]
    ensures r.Found? ==> IsMessageWall(r.messages, rows, r.party.id)
  {
    if partyId !in parties then NotFound(NotFoundStatus, PartyNotFound)
    else
      var party := parties[partyId];
      Found(Messages(rows, party.id), party, Fold(base, GroupBy(rows, party.id)))
  }

  /**
   * The tally of a found party: a response some RSVP of the party carries holds
   * its total guests; any other response keeps its base entry or stays absent.
   */
  lemma LoadTally(base: Tally, parties: map<string, Party>, partyId: string, rows: seq<Rsvp>, t: ResponseType)
    requires partyId in parties
    ensures var r := Load(base, parties, partyId, rows);
      && (t in r.rsvps <==> t in base || Occurs(rows, r.party.id, t))
      && (Occurs(rows, r.party.id, t) ==> r.rsvps[t] == SumGuests(rows, r.party.id, t))
      && (!Occurs(rows, r.party.id, t) && t in base ==> r.rsvps[t] == base[t])
  {
    var id := parties[partyId].id;
    FoldGrouping(base, GroupBy(rows, id), rows, id, t);
  }
}
