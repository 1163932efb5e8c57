/**
 * The attendance tally both party loaders compute: the database sums the guests
 * of a party's RSVPs per response, and the loader folds those groups onto a base
 * record of zeros, later entries overriding earlier ones.
 */
module Attendance {
  import opened Wrappers
  import opened Records

  /** One row of the group-by query: a response and the summed guests of its RSVPs. */
  datatype Group = Group(response: ResponseType, guests: int)

  /** Response category to guest total, as the page reads it. */
  type Tally = map<ResponseType, int>

  // ---------------------------------------------------------------------------
  // The group-by query, as a specification over the stored RSVPs

  predicate Counts(row: Rsvp, partyId: string, r: ResponseType) {
    row.partyId == partyId && row.response == r
  }

  /** Some RSVP of the party has response `r`. */
  predicate Occurs(rows: seq<Rsvp>, partyId: string, r: ResponseType) {
    exists k :: 0 <= k < |rows| && Counts(rows[k], partyId, r)
  }

  /**
   * Total guests over the party's RSVPs with response `r`; a response no RSVP of
   * the party carries sums to zero.
   */
  function SumGuests(rows: seq<Rsvp>, partyId: string, r: ResponseType): (total: int)
    ensures !Occurs(rows, partyId, r) ==> total == 0
  {
    if rows == [] then 0
    else
      assert !Occurs(rows, partyId, r) ==> !Occurs(rows[1..], partyId, r) by {
        if Occurs(rows[1..], partyId, r) {
          var k :| 0 <= k < |rows[1..]| && Counts(rows[1..][k], partyId, r);
          assert rows[k + 1] == rows[1..][k];
        }
      }
      (if Counts(rows[0], partyId, r) then rows[0].guests else 0) + SumGuests(rows[1..], partyId, r)
  }

  /** No two groups share a response. */
  predicate DistinctResponses(groups: seq<Group>) {
    forall j, k :: 0 <= j < k < |groups| ==> groups[j].response != groups[k].response
  }

  /**
   * What the group-by query may return, in any order: one group per response that
   * occurs among the party's RSVPs, carrying the sum of their guests.
   */
  predicate IsGroupingOf(groups: seq<Group>, rows: seq<Rsvp>, partyId: string) {
    && DistinctResponses(groups)
    && (forall g :: g in groups ==> Occurs(rows, partyId, g.response) && g.guests == SumGuests(rows, partyId, g.response))
    && (forall r :: Occurs(rows, partyId, r) ==> exists g :: g in groups && g.response == r)
  }

  function GroupFor(rows: seq<Rsvp>, partyId: string, r: ResponseType): seq<Group> {
    if Occurs(rows, partyId, r) then [Group(r, SumGuests(rows, partyId, r))] else []
  }

  /** One grouping the query can return: the occurring responses in enum order. */
  function GroupBy(rows: seq<Rsvp>, partyId: string): (groups: seq<Group>)
    ensures IsGroupingOf(groups, rows, partyId)
  {
    GroupFor(rows, partyId, YES) + GroupFor(rows, partyId, MAYBE) + GroupFor(rows, partyId, NO)
  }

  // ---------------------------------------------------------------------------
  // The fold

  /** The loaders' reduce: each group, left to right, overwrites its response's entry. */
  function Fold(acc: Tally, groups: seq<Group>): (tally: Tally)
    ensures tally.Keys == acc.Keys + set g | g in groups :: g.response
    decreases |groups|
  {
    if groups == [] then acc
    else
      assert (set g | g in groups :: g.response) ==
        {groups[0].response} + set g | g in groups[1..] :: g.response by {
        assert groups == [groups[0]] + groups[1..];
      }
      Fold(acc[groups[0].response := groups[0].guests], groups[1..])
  }

  /** Reference definition: the guests of the last group with response `r`, if any. */
  function LastFor(groups: seq<Group>, r: ResponseType): Option<int> {
    if groups == [] then None
    else if groups[|groups| - 1].response == r then Some(groups[|groups| - 1].guests)
    else LastFor(groups[..|groups| - 1], r)
  }

  lemma {:induction false} FoldSnoc(acc: Tally, groups: seq<Group>, g: Group)
    ensures Fold(acc, groups + [g]) == Fold(acc, groups)[g.response := g.guests]
    decreases |groups|
  {
    if groups == [] {
      assert groups + [g] == [g];
    } else {
      assert (groups + [g])[1..] == groups[1..] + [g];
      FoldSnoc(acc[groups[0].response := groups[0].guests], groups[1..], g);
    }
  }

  /**
   * The fold's result, entry by entry: a response some group carries takes the
   * guests of the last such group; any other response keeps its base entry, or
   * stays absent if the base has none.
   */
  lemma {:induction false} FoldEntry(acc: Tally, groups: seq<Group>, r: ResponseType)
    ensures r in Fold(acc, groups) <==> r in acc || LastFor(groups, r).Some?
    ensures r in Fold(acc, groups) ==>
      Fold(acc, groups)[r] == if LastFor(groups, r).Some? then LastFor(groups, r).value else acc[r]
  {
    if groups != [] {
      var init, last := groups[..|groups| - 1], groups[|groups| - 1];
      assert groups == init + [last];
      FoldSnoc(acc, init, last);
      FoldEntry(acc, init, r);
    }
  }

  /** With distinct responses, a group's response is last carried by that group itself. */
  lemma {:induction false} LastForDistinct(groups: seq<Group>, g: Group)
    requires DistinctResponses(groups) && g in groups
    ensures LastFor(groups, g.response) == Some(g.guests)
  {
    var last := groups[|groups| - 1];
    if last != g {
      var init := groups[..|groups| - 1];
      var k :| 0 <= k < |groups| && groups[k] == g;
      assert k < |groups| - 1;
      assert init[k] == g;
      LastForDistinct(init, g);
    }
  }

  /** LastFor finds a group exactly when some group carries the response. */
  lemma {:induction false} LastForSome(groups: seq<Group>, r: ResponseType)
    ensures LastFor(groups, r).Some? <==> exists g :: g in groups && g.response == r
  {
    if groups != [] {
      var init := groups[..|groups| - 1];
      LastForSome(init, r);
      assert groups == init + [groups[|groups| - 1]];
    }
  }

  /**
   * With distinct responses the order of the groups does not matter: any two
   * listings of the same groups fold to the same tally.
   */
  lemma FoldOrderIrrelevant(acc: Tally, g1: seq<Group>, g2: seq<Group>)
    requires DistinctResponses(g1) && DistinctResponses(g2)
    requires forall g :: g in g1 <==> g in g2
    ensures Fold(acc, g1) == Fold(acc, g2)
  {
    forall r
      ensures r in Fold(acc, g1) <==> r in Fold(acc, g2)
      ensures r in Fold(acc, g1) ==> Fold(acc, g1)[r] == Fold(acc, g2)[r]
    {
      FoldEntry(acc, g1, r);
      FoldEntry(acc, g2, r);
      LastForSome(g1, r);
      LastForSome(g2, r);
      if g :| g in g1 && g.response == r {
        LastForDistinct(g1, g);
        LastForDistinct(g2, g);
      }
    }
  }

  /**
   * Folding a grouping of the party's RSVPs: a response that occurs gets its total
   * guests, any other response keeps its base entry or stays absent.
   */
  lemma FoldGrouping(acc: Tally, groups: seq<Group>, rows: seq<Rsvp>, partyId: string, r: ResponseType)
    requires IsGroupingOf(groups, rows, partyId)
    ensures r in Fold(acc, groups) <==> r in acc || Occurs(rows, partyId, r)
    ensures Occurs(rows, partyId, r) ==> Fold(acc, groups)[r] == SumGuests(rows, partyId, r)
    ensures !Occurs(rows, partyId, r) && r in acc ==> Fold(acc, groups)[r] == acc[r]
  {
    FoldEntry(acc, groups, r);
    LastForSome(groups, r);
    if g :| g in groups && g.response == r {
      LastForDistinct(groups, g);
    }
  }
}
