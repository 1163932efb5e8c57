/**
 * The index route (app/routes/_index.tsx): the same loader, but its tally is
 * seeded with YES and MAYBE only, so NO is present only when some group carries it.
 */
module IndexPage {
  import opened Records
  import opened Attendance
  import opened PartyLoader
  import MessageWall
  import PartyLayout

  const IndexBase: Tally := map[MAYBE := 0, YES := 0]

  function Loader(parties: map<string, Party>, partyId: string, rows: seq<Rsvp>): (r: LoaderResult)
    ensures partyId !in parties <==> r == NotFound(404, "Party not found. \U{2639}\U{FE0F}")
    ensures partyId in parties ==> r.Found? && r.party == parties[partyId]
    ensures r.Found? ==> MessageWall.IsMessageWall(r.messages, rows, r.party.id)
  {
    Load(IndexBase, parties, partyId, rows)
  }

  /**
   * Folding any list of groups onto the index's base: YES and MAYBE are always
   * present, NO exactly when some group carries it; carried responses take the
   * guests of their last group, the others stay 0.
   */
  lemma IndexFold(groups: seq<Group>)
    ensures YES in Fold(IndexBase, groups) && MAYBE in Fold(IndexBase, groups)
    ensures NO in Fold(IndexBase, groups) <==> exists g :: g in groups && g.response == NO
    ensures forall t :: t in Fold(IndexBase, groups) ==>
      Fold(IndexBase, groups)[t] == if LastFor(groups, t).Some? then LastFor(groups, t).value else 0
  {
    forall t ensures t in Fold(IndexBase, groups) <==> t in IndexBase || LastFor(groups, t).Some?
      ensures t in Fold(IndexBase, groups) ==>
        Fold(IndexBase, groups)[t] == if LastFor(groups, t).Some? then LastFor(groups, t).value else 0
    {
      FoldEntry(IndexBase, groups, t);
    }
    LastForSome(groups, NO);
  }

  /**
   * The index's loader on a found party: YES and MAYBE hold the party's total
   * guests for those responses; NO appears only when some RSVP of the party
   * answered NO, and then holds their total.
   */
  lemma IndexTally(parties: map<string, Party>, partyId: string, rows: seq<Rsvp>)
    requires partyId in parties
    ensures var r := Loader(parties, partyId, rows); var id := parties[partyId].id;
      && YES in r.rsvps && r.rsvps[YES] == SumGuests(rows, id, YES)
      && MAYBE in r.rsvps && r.rsvps[MAYBE] == SumGuests(rows, id, MAYBE)
      && (NO in r.rsvps <==> Occurs(rows, id, NO))
      && (NO in r.rsvps ==> r.rsvps[NO] == SumGuests(rows, id, NO))
  {
    LoadTally(IndexBase, parties, partyId, rows, YES);
    LoadTally(IndexBase, parties, partyId, rows, MAYBE);
    LoadTally(IndexBase, parties, partyId, rows, NO);
  }

  /**
   * The two bases differ: for a party nobody answered NO, the layout's tally shows
   * NO as 0 while the index's tally has no NO entry at all.
   */
  lemma IndexOmitsUnansweredNo(parties: map<string, Party>, partyId: string, rows: seq<Rsvp>)
    requires partyId in parties && !Occurs(rows, parties[partyId].id, NO)
    ensures NO !in Loader(parties, partyId, rows).rsvps
    ensures NO in PartyLayout.Loader(parties, partyId, rows).rsvps
    ensures PartyLayout.Loader(parties, partyId, rows).rsvps[NO] == 0
  {
    IndexTally(parties, partyId, rows);
    PartyLayout.LayoutTallyComplete(parties, partyId, rows);
  }
}
