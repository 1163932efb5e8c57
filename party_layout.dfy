/**
 * The party layout route (app/routes/_party+/_layout.tsx): its tally is seeded
 * with all three responses, so every category is always present.
 */
module PartyLayout {
  import opened Records
  import opened Attendance
  import opened PartyLoader
  import MessageWall

  const LayoutBase: Tally := map[MAYBE := 0, NO := 0, YES := 0]

  function Loader(parties: map<string, Party>, partyId: string, rows: seq<Rsvp>): (r: LoaderResult)
    ensures partyId !in parties <==> r == NotFound(404, "Party not found. \U{2639}\U{FE0F}")
    ensures partyId in parties ==> r.Found? && r.party == parties[partyId]
    ensures r.Found? ==> MessageWall.IsMessageWall(r.messages, rows, r.party.id)
  {
    Load(LayoutBase, parties, partyId, rows)
  }

  /**
   * Folding any list of groups onto the layout's base: all three responses are
   * present and nothing else; a response no group carries stays 0, and one that
   * groups carry takes the guests of the last of them.
   */
  lemma LayoutFold(groups: seq<Group>)
    ensures Fold(LayoutBase, groups).Keys == {YES, MAYBE, NO}
    ensures forall t :: (t in Fold(LayoutBase, groups) &&
      Fold(LayoutBase, groups)[t] == if LastFor(groups, t).Some? then LastFor(groups, t).value else 0)
  {
    forall t ensures t in Fold(LayoutBase, groups)
      ensures Fold(LayoutBase, groups)[t] == if LastFor(groups, t).Some? then LastFor(groups, t).value else 0
    {
      BaseHasAll(t);
      FoldEntry(LayoutBase, groups, t);
    }
    AllResponses(Fold(LayoutBase, groups));
  }

  /**
   * The layout's loader on a found party: the tally holds YES, MAYBE and NO, each
   * the total guests of the party's RSVPs with that response (0 when there are none).
   */
  lemma LayoutTallyComplete(parties: map<string, Party>, partyId: string, rows: seq<Rsvp>)
    requires partyId in parties
    ensures Loader(parties, partyId, rows).rsvps.Keys == {YES, MAYBE, NO}
    ensures forall t :: (t in Loader(parties, partyId, rows).rsvps &&
      Loader(parties, partyId, rows).rsvps[t] == SumGuests(rows, parties[partyId].id, t))
  {
    var r := Loader(parties, partyId, rows);
    forall t ensures t in r.rsvps && r.rsvps[t] == SumGuests(rows, parties[partyId].id, t) {
      BaseHasAll(t);
      LoadTally(LayoutBase, parties, partyId, rows, t);
    }
    AllResponses(r.rsvps);
  }

  lemma BaseHasAll(t: ResponseType)
    ensures t in LayoutBase && LayoutBase[t] == 0
  {
  }

  /** A tally holding every response has exactly the three responses as keys. */
  lemma AllResponses(tally: Tally)
    requires forall t :: t in tally
    ensures tally.Keys == {YES, MAYBE, NO}
  {
    forall t | t in tally.Keys ensures t in {YES, MAYBE, NO} {
      assert t.YES? || t.MAYBE? || t.NO?;
    }
  }
}
