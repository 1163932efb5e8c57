/**
 * The message wall both party loaders read: the party's RSVPs that carry a
 * message, newest first. The database query is given here as a filter and a
 * sort over the stored rows.
 */
module MessageWall {
  import opened Records

  /** A row shown on the party's wall: it belongs to the party and has a message. */
  predicate OnWall(row: Rsvp, partyId: string) {
    row.partyId == partyId && row.message.Some?
  }

  /** The rows on the party's wall, in stored order. */
  function Filter(rows: seq<Rsvp>, partyId: string): (r: seq<Rsvp>)
    ensures forall x :: x in r <==> x in rows && OnWall(x, partyId)
  {
    if rows == [] then []
    else (if OnWall(rows[0], partyId) then [rows[0]] else []) + Filter(rows[1..], partyId)
  }

  /** Ordered by creation time, descending. */
  predicate NewestFirst(rows: seq<Rsvp>) {
    forall j, k :: 0 <= j < k < |rows| ==> rows[j].createdAt >= rows[k].createdAt
  }

  function Insert(row: Rsvp, sorted: seq<Rsvp>): (r: seq<Rsvp>)
    requires NewestFirst(sorted)
    ensures NewestFirst(r)
    ensures forall x :: x in r ==> x in sorted || x == row
    ensures multiset(r) == multiset(sorted) + multiset{row}
  {
    if sorted == [] || row.createdAt >= sorted[0].createdAt then [row] + sorted
    else
      var rest := Insert(row, sorted[1..]);
      HeadBoundsRest(row, sorted, rest);
      [sorted[0]] + rest
  }

  /** The head of a newest-first list is no older than anything inserted after it. */
  lemma HeadBoundsRest(row: Rsvp, sorted: seq<Rsvp>, rest: seq<Rsvp>)
    requires NewestFirst(sorted) && sorted != [] && row.createdAt < sorted[0].createdAt
    requires forall x :: x in rest ==> x in sorted[1..] || x == row
    requires multiset(rest) == multiset(sorted[1..]) + multiset{row}
    ensures forall k :: 0 <= k < |rest| ==> rest[k].createdAt <= sorted[0].createdAt
    ensures multiset([sorted[0]] + rest) == multiset(sorted) + multiset{row}
  {
    assert sorted == [sorted[0]] + sorted[1..];
    forall k | 0 <= k < |rest| ensures rest[k].createdAt <= sorted[0].createdAt {
      assert rest[k] in rest;
    }
  }

  function SortNewestFirst(rows: seq<Rsvp>): (r: seq<Rsvp>)
    ensures NewestFirst(r)
    ensures multiset(r) == multiset(rows)
  {
    if rows == [] then []
    else
      assert rows == [rows[0]] + rows[1..];
      Insert(rows[0], SortNewestFirst(rows[1..]))
  }

  /**
   * What the query promises: the party's rows with a message, each as often as
   * stored, newest first (rows created at the same instant in any order).
   */
  predicate IsMessageWall(messages: seq<Rsvp>, rows: seq<Rsvp>, partyId: string) {
    NewestFirst(messages) && multiset(messages) == multiset(Filter(rows, partyId))
  }

  function Messages(rows: seq<Rsvp>, partyId: string): (messages: seq<Rsvp>)
    ensures IsMessageWall(messages, rows, partyId)
  {
    SortNewestFirst(Filter(rows, partyId))
  }

  /** A wall shows exactly the party's rows that carry a message. */
  lemma WallMembers(messages: seq<Rsvp>, rows: seq<Rsvp>, partyId: string, x: Rsvp)
    requires IsMessageWall(messages, rows, partyId)
    ensures x in messages <==> x in rows && OnWall(x, partyId)
  {
    assert x in messages <==> x in multiset(messages);
    assert x in Filter(rows, partyId) <==> x in multiset(Filter(rows, partyId));
  }

  predicate DistinctTimes(rows: seq<Rsvp>) {
    forall j, k :: 0 <= j < k < |rows| ==> rows[j].createdAt != rows[k].createdAt
  }

  /**
   * When no two rows share a creation time, the order is fully determined: two
   * newest-first listings of the same rows are equal.
   */
  lemma {:induction false} NewestFirstUnique(a: seq<Rsvp>, b: seq<Rsvp>)
    requires NewestFirst(a) && NewestFirst(b) && DistinctTimes(a)
    requires multiset(a) == multiset(b)
    ensures a == b
  {
    assert |a| == |multiset(a)| == |b|;
    if a != [] {
      SameHead(a, b);
      TailMultiset(a);
      TailMultiset(b);
      TailOrdered(a);
      TailOrdered(b);
      NewestFirstUnique(a[1..], b[1..]);
      assert a == [a[0]] + a[1..] && b == [b[0]] + b[1..];
    }
  }

  lemma SameHead(a: seq<Rsvp>, b: seq<Rsvp>)
    requires NewestFirst(a) && NewestFirst(b) && DistinctTimes(a)
    requires multiset(a) == multiset(b) && a != []
    ensures b != [] && a[0] == b[0]
  {
    assert a[0] in multiset(b);
    assert b != [] && b[0] in multiset(a);
    var j :| 0 <= j < |a| && a[j] == b[0];
    var k :| 0 <= k < |b| && b[k] == a[0];
    assert b[0].createdAt >= b[k].createdAt;
    assert a[0].createdAt >= a[j].createdAt;
    assert j == 0;
  }

  lemma TailMultiset(a: seq<Rsvp>)
    requires a != []
    ensures multiset(a[1..]) == multiset(a) - multiset{a[0]}
  {
    assert a == [a[0]] + a[1..];
  }

  lemma TailOrdered(a: seq<Rsvp>)
    requires a != []
    ensures NewestFirst(a) ==> NewestFirst(a[1..])
    ensures DistinctTimes(a) ==> DistinctTimes(a[1..])
  {
  }

  /** With distinct creation times, every wall of the party equals the one computed here. */
  lemma WallDetermined(messages: seq<Rsvp>, rows: seq<Rsvp>, partyId: string)
    requires IsMessageWall(messages, rows, partyId)
    requires DistinctTimes(Messages(rows, partyId))
    ensures messages == Messages(rows, partyId)
  {
    NewestFirstUnique(Messages(rows, partyId), messages);
  }
}
