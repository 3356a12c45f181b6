/**
 * Vote totals of a poll: the sum of the counts in its `Votes` map, which is
 * keyed by option text (so an option submitted twice has one count).
 */
module VoteTally {

  /** The sum of every count in the map, in no particular key order. */
  ghost function SumVotes(votes: map<string, int>): int
    decreases |votes|
  {
    if votes == map[] then 0
    else
      var k :| k in votes;
      votes[k] + SumVotes(votes - {k})
  }

  /** Any key may be taken out first: the sum does not depend on the order of the map. */
  lemma {:induction false} SumVotesRemove(votes: map<string, int>, k: string)
    requires k in votes
    ensures SumVotes(votes) == votes[k] + SumVotes(votes - {k})
    decreases |votes|
  {
    var j :| j in votes && SumVotes(votes) == votes[j] + SumVotes(votes - {j});
    if j != k {
      assert (votes - {j}).Keys == votes.Keys - {j};
      assert (votes - {k}).Keys == votes.Keys - {k};
      SumVotesRemove(votes - {j}, k);
      SumVotesRemove(votes - {k}, j);
      assert votes - {j} - {k} == votes - {k} - {j};
    }
  }

  /** Raising one existing count by one raises the sum by exactly one. */
  lemma SumVotesIncrement(votes: map<string, int>, k: string)
    requires k in votes
    ensures SumVotes(votes[k := votes[k] + 1]) == SumVotes(votes) + 1
  {
    var after := votes[k := votes[k] + 1];
    SumVotesRemove(votes, k);
    SumVotesRemove(after, k);
    assert after - {k} == votes - {k};
  }

  /** A map holding only zero counts sums to zero. */
  lemma {:induction false} SumVotesZero(votes: map<string, int>)
    requires forall k | k in votes :: votes[k] == 0
    ensures SumVotes(votes) == 0
    decreases |votes|
  {
    if votes != map[] {
      var k :| k in votes;
      SumVotesRemove(votes, k);
      assert (votes - {k}).Keys == votes.Keys - {k};
      SumVotesZero(votes - {k});
    }
  }

  /** Counts that are never negative give a total that is never negative. */
  lemma {:induction false} SumVotesNonNegative(votes: map<string, int>)
    requires forall k | k in votes :: votes[k] >= 0
    ensures SumVotes(votes) >= 0
    decreases |votes|
  {
    if votes != map[] {
      var k :| k in votes;
      SumVotesRemove(votes, k);
      assert (votes - {k}).Keys == votes.Keys - {k};
      SumVotesNonNegative(votes - {k});
    }
  }

  /** getTotalVotes: a loop over the map adding each count. */
  method TotalVotes(votes: map<string, int>) returns (total: int)
    ensures total == SumVotes(votes)
  {
    total := 0;
    var rest := votes;
    while rest != map[]
      invariant total + SumVotes(rest) == SumVotes(votes)
      decreases |rest|
    {
      var k :| k in rest;
      SumVotesRemove(rest, k);
      total := total + rest[k];
      assert (rest - {k}).Keys == rest.Keys - {k};
      rest := rest - {k};
    }
  }
}
