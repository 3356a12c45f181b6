/**
 * The in-memory poll store of the Go poll app: polls keyed by id, poll
 * creation from a submitted form, the once-per-session voting rule, and the
 * newest-first listing of the home page. `uuid.New()` and `time.Now()` are
 * passed in as `id` and `now` (an integer timestamp); the cookie session's
 * `voted` entry is the map of a VotingSession object.
 */
module Polls {
  import opened VoteTally

  datatype Poll = Poll(id: string, question: string, options: seq<string>, votes: map<string, int>, createdAt: int)

  /** The shape every stored poll has: at least two non-empty options, one count per option text, no negative count. */
  ghost predicate WellFormed(p: Poll) {
    && |p.options| >= 2
    && (forall i | 0 <= i < |p.options| :: p.options[i] != "")
    && p.votes.Keys == (set o | o in p.options)
    && (forall o | o in p.votes :: p.votes[o] >= 0)
  }

  /** Every poll is stored under its own id and is well formed. */
  ghost predicate ValidStore(polls: map<string, Poll>) {
    forall k | k in polls :: polls[k].id == k && WellFormed(polls[k])
  }

  // ---------------------------------------------------------------- creation

  datatype CreateResponse =
    | Created(id: string)      // redirect to the new poll
    | MissingFields            // "Question and at least 2 options are required"
    | TooFewValidOptions       // "At least 2 valid options are required"

  /** The submitted options with the empty strings dropped, in their original order. */
  function NonEmptyOptions(options: seq<string>): (r: seq<string>)
    ensures |r| <= |options|
    ensures forall o :: o in r <==> o in options && o != ""
  {
    if options == [] then []
    else (if options[0] != "" then [options[0]] else []) + NonEmptyOptions(options[1..])
  }

  /** Filtering distributes over concatenation: it keeps the relative order of what it keeps. */
  lemma {:induction false} NonEmptyOptionsAppend(a: seq<string>, b: seq<string>)
    ensures NonEmptyOptions(a + b) == NonEmptyOptions(a) + NonEmptyOptions(b)
  {
    if a == [] {
      assert a + b == b;
    } else {
      assert (a + b)[1..] == a[1..] + b;
      NonEmptyOptionsAppend(a[1..], b);
    }
  }

  /** Options that are all non-empty are kept exactly as submitted. */
  lemma {:induction false} NonEmptyOptionsKeepsAll(options: seq<string>)
    requires forall i | 0 <= i < |options| :: options[i] != ""
    ensures NonEmptyOptions(options) == options
  {
    if options != [] {
      NonEmptyOptionsKeepsAll(options[1..]);
      assert options == [options[0]] + options[1..];
    }
  }

  /** The loop that builds validOptions by append. */
  method ValidOptions(options: seq<string>) returns (valid: seq<string>)
    ensures valid == NonEmptyOptions(options)
  {
    valid := [];
    var i := 0;
    while i < |options|
      invariant 0 <= i <= |options|
      invariant valid == NonEmptyOptions(options[..i])
    {
      var opt := options[i];
      NonEmptyOptionsAppend(options[..i], [opt]);
      assert options[..i + 1] == options[..i] + [opt];
      if opt != "" {
        valid := valid + [opt];
      }
      i := i + 1;
    }
    assert options[..i] == options;
  }

  /** The loop that sets every valid option's count to 0. */
  method InitialVotes(options: seq<string>) returns (votes: map<string, int>)
    ensures votes.Keys == (set o | o in options)
    ensures forall o | o in votes :: votes[o] == 0
    ensures SumVotes(votes) == 0
  {
    votes := map[];
    var i := 0;
    while i < |options|
      invariant 0 <= i <= |options|
      invariant votes.Keys == (set o | o in options[..i])
      invariant forall o | o in votes :: votes[o] == 0
    {
      assert options[..i + 1] == options[..i] + [options[i]];
      votes := votes[options[i] := 0];
      i := i + 1;
    }
    assert options[..i] == options;
    SumVotesZero(votes);
  }

  // ---------------------------------------------------------------- voting

  datatype VoteResponse =
    | NoOptionSelected  // "No option selected"
    | AlreadyVoted      // redirect to the poll, nothing recorded
    | PollNotFound      // "Poll not found"
    | OptionIgnored     // redirect to the poll, the option is not one of the poll's
    | Counted           // redirect to the poll, one vote recorded

  /** The outcome of a vote and the poll store and session map after it. */
  datatype Ballot = Ballot(response: VoteResponse, polls: map<string, Poll>, voted: map<string, bool>)

  /** `votedPolls[pollID]`: a missing key reads as false. */
  predicate HasVoted(voted: map<string, bool>, pollId: string)
    ensures pollId !in voted ==> !HasVoted(voted, pollId)
    ensures HasVoted(voted, pollId) ==> voted[pollId]
  {
    pollId in voted && voted[pollId]
  }

  /** One vote request, with the checks in the handler's order. */
  function CastVote(polls: map<string, Poll>, voted: map<string, bool>, pollId: string, option: string): (b: Ballot)
    ensures b.polls.Keys == polls.Keys
    ensures forall q | q in polls && q != pollId :: b.polls[q] == polls[q]
    ensures voted.Keys <= b.voted.Keys <= voted.Keys + {pollId}
    ensures forall q | q in voted && q != pollId :: b.voted[q] == voted[q]
    ensures forall q | HasVoted(voted, q) :: HasVoted(b.voted, q)
  {
    if option == "" then Ballot(NoOptionSelected, polls, voted)
    else if HasVoted(voted, pollId) then Ballot(AlreadyVoted, polls, voted)
    else if pollId !in polls then Ballot(PollNotFound, polls, voted)
    else if option !in polls[pollId].votes then Ballot(OptionIgnored, polls, voted)
    else
      var p := polls[pollId];
      Ballot(Counted, polls[pollId := p.(votes := p.votes[option := p.votes[option] + 1])], voted[pollId := true])
  }

  /** A vote is counted exactly when the option is non-empty, the session has not voted, the poll exists and has that option. */
  lemma CastVoteCountedIff(polls: map<string, Poll>, voted: map<string, bool>, pollId: string, option: string)
    ensures CastVote(polls, voted, pollId, option).response == Counted
      <==> option != "" && !HasVoted(voted, pollId) && pollId in polls && option in polls[pollId].votes
  {
  }

  /** Every outcome but Counted changes neither the counts nor the session map. */
  lemma CastVoteNoEffect(polls: map<string, Poll>, voted: map<string, bool>, pollId: string, option: string)
    requires CastVote(polls, voted, pollId, option).response != Counted
    ensures CastVote(polls, voted, pollId, option).polls == polls
    ensures CastVote(polls, voted, pollId, option).voted == voted
  {
  }

  /**
   * A counted vote raises exactly the chosen option's count of the chosen poll by one, so the
   * poll's total rises by one; it marks the poll as voted; every other poll and count is unchanged.
   */
  lemma CastVoteCounted(polls: map<string, Poll>, voted: map<string, bool>, pollId: string, option: string)
    requires CastVote(polls, voted, pollId, option).response == Counted
    ensures var b := CastVote(polls, voted, pollId, option);
      && b.polls.Keys == polls.Keys
      && (forall q | q in polls && q != pollId :: b.polls[q] == polls[q])
      && b.polls[pollId].votes.Keys == polls[pollId].votes.Keys
      && b.polls[pollId].votes[option] == polls[pollId].votes[option] + 1
      && (forall o | o in polls[pollId].votes && o != option :: b.polls[pollId].votes[o] == polls[pollId].votes[o])
      && b.polls[pollId] == polls[pollId].(votes := b.polls[pollId].votes)
      && SumVotes(b.polls[pollId].votes) == SumVotes(polls[pollId].votes) + 1
      && HasVoted(b.voted, pollId)
      && (forall q | q != pollId :: HasVoted(b.voted, q) == HasVoted(voted, q))
  {
    SumVotesIncrement(polls[pollId].votes, option);
  }

  /** The session's voted marks only grow. */
  lemma CastVoteVotedGrows(polls: map<string, Poll>, voted: map<string, bool>, pollId: string, option: string)
    ensures forall q | HasVoted(voted, q) :: HasVoted(CastVote(polls, voted, pollId, option).voted, q)
  {
  }

  /** Voting keeps every stored poll under its id and well formed. */
  lemma CastVoteKeepsValid(polls: map<string, Poll>, voted: map<string, bool>, pollId: string, option: string)
    requires ValidStore(polls)
    ensures ValidStore(CastVote(polls, voted, pollId, option).polls)
  {
    var b := CastVote(polls, voted, pollId, option);
    if b.response == Counted {
      var p := polls[pollId];
      var q := b.polls[pollId];
      assert q.votes.Keys == p.votes.Keys;
      assert WellFormed(q);
    }
  }

  /**
   * The same session voting on the same poll again and again, with the given options in turn.
   * Only `.polls` and `.voted` carry meaning; `.response` is that of the last vote, and an
   * empty series, which no request produces, reports AlreadyVoted.
   */
  function CastVotes(polls: map<string, Poll>, voted: map<string, bool>, pollId: string, options: seq<string>): (b: Ballot)
    decreases |options|
  {
    if options == [] then Ballot(AlreadyVoted, polls, voted)
    else
      var first := CastVote(polls, voted, pollId, options[0]);
      if |options| == 1 then first else CastVotes(first.polls, first.voted, pollId, options[1..])
  }

  /** Once a session has voted on a poll, no later vote of that session on that poll changes anything. */
  lemma {:induction false} CastVotesAfterVoted(polls: map<string, Poll>, voted: map<string, bool>, pollId: string, options: seq<string>)
    requires HasVoted(voted, pollId)
    ensures CastVotes(polls, voted, pollId, options).polls == polls
    ensures CastVotes(polls, voted, pollId, options).voted == voted
    decreases |options|
  {
    if |options| > 1 {
      CastVotesAfterVoted(polls, voted, pollId, options[1..]);
    }
  }

  /** At most one vote per session per poll: however many votes the session sends, the poll's total rises by at most one. */
  lemma {:induction false} AtMostOneVotePerSession(polls: map<string, Poll>, voted: map<string, bool>, pollId: string, options: seq<string>)
    requires pollId in polls
    ensures pollId in CastVotes(polls, voted, pollId, options).polls
    ensures var after := CastVotes(polls, voted, pollId, options).polls[pollId].votes;
      SumVotes(after) <= SumVotes(polls[pollId].votes) + 1
    decreases |options|
  {
    if options != [] {
      var first := CastVote(polls, voted, pollId, options[0]);
      if first.response == Counted {
        CastVoteCounted(polls, voted, pollId, options[0]);
        if |options| > 1 {
          CastVotesAfterVoted(first.polls, first.voted, pollId, options[1..]);
        }
      } else if |options| > 1 {
        AtMostOneVotePerSession(first.polls, first.voted, pollId, options[1..]);
      }
    }
  }

  /**
   * The guard holds only along the chain of voted maps the server hands back: a client that
   * drops its cookie, or replays the one it held before voting, is counted again.
   */
  lemma VoteWithoutMarkCountsAgain(polls: map<string, Poll>, voted: map<string, bool>, pollId: string, option: string)
    requires CastVote(polls, voted, pollId, option).response == Counted
    ensures var first := CastVote(polls, voted, pollId, option);
      var again := CastVote(first.polls, voted, pollId, option);
      && again.response == Counted
      && again.polls[pollId].votes[option] == polls[pollId].votes[option] + 2
      && SumVotes(again.polls[pollId].votes) == SumVotes(polls[pollId].votes) + 2
  {
    var first := CastVote(polls, voted, pollId, option);
    CastVoteCounted(polls, voted, pollId, option);
    CastVoteCounted(first.polls, voted, pollId, option);
  }

  // ---------------------------------------------------------------- listing

  /** Sorted by creation time, newest first. */
  predicate NewestFirst(s: seq<Poll>) {
    forall i, j | 0 <= i < j < |s| :: s[i].createdAt >= s[j].createdAt
  }

  /** A poll no older than every poll of a sorted list may be put in front of it. */
  lemma PrependNewest(x: Poll, t: seq<Poll>)
    requires NewestFirst(t)
    requires forall y | y in t :: y.createdAt <= x.createdAt
    ensures NewestFirst([x] + t)
  {
  }

  /** Puts `p` in front of the first poll that is not newer than it. */
  function InsertByTime(p: Poll, s: seq<Poll>): (r: seq<Poll>)
    ensures multiset(r) == multiset(s) + multiset{p}
  {
    if s == [] then [p]
    else if p.createdAt >= s[0].createdAt then [p] + s
    else
      assert s == [s[0]] + s[1..];
      [s[0]] + InsertByTime(p, s[1..])
  }

  /** Inserting into a newest-first list keeps it newest first. */
  lemma {:induction false} InsertByTimeSorted(p: Poll, s: seq<Poll>)
    requires NewestFirst(s)
    ensures NewestFirst(InsertByTime(p, s))
  {
    if s == [] {
    } else if p.createdAt >= s[0].createdAt {
      PrependNewest(p, s);
    } else {
      var rest := InsertByTime(p, s[1..]);
      InsertByTimeSorted(p, s[1..]);
      forall y | y in rest ensures y.createdAt <= s[0].createdAt {
        assert y in multiset(rest);
        if y != p {
          assert y in multiset(s[1..]);
          var j :| 0 <= j < |s[1..]| && s[1..][j] == y;
          assert s[j + 1] == y;
        }
      }
      PrependNewest(s[0], rest);
    }
  }

  /** sort.Slice with the `After` comparison: a permutation sorted newest first (ties in no promised order). */
  function SortNewestFirst(s: seq<Poll>): (r: seq<Poll>)
    ensures NewestFirst(r)
    ensures multiset(r) == multiset(s)
  {
    if s == [] then []
    else
      assert s == [s[0]] + s[1..];
      var sortedTail := SortNewestFirst(s[1..]);
      InsertByTimeSorted(s[0], sortedTail);
      InsertByTime(s[0], sortedTail)
  }

  /** No value occurs twice. */
  predicate Distinct(s: seq<Poll>) {
    forall i, j | 0 <= i < j < |s| :: s[i] != s[j]
  }

  /** A list has no repeated value exactly when its multiset holds every value at most once. */
  lemma {:induction false} DistinctIffSingleCopies(s: seq<Poll>)
    ensures Distinct(s) <==> forall x :: multiset(s)[x] <= 1
  {
    if s != [] {
      var t := s[1..];
      assert s == [s[0]] + t;
      assert multiset(s) == multiset{s[0]} + multiset(t);
      DistinctIffSingleCopies(t);
      if forall x :: multiset(s)[x] <= 1 {
        assert multiset(s)[s[0]] == 1 + multiset(t)[s[0]];
        forall x ensures multiset(t)[x] <= 1 {
          assert multiset(s)[x] >= multiset(t)[x];
        }
      }
      if s[0] !in t && forall x :: multiset(t)[x] <= 1 {
        forall x ensures multiset(s)[x] <= 1 {
          if x == s[0] {
            assert multiset(t)[x] == 0;
          }
        }
      }
      assert Distinct(s) <==> s[0] !in t && Distinct(t) by {
        if Distinct(s) {
          forall i, j | 0 <= i < j < |t| ensures t[i] != t[j] {
            assert t[i] == s[i + 1] && t[j] == s[j + 1];
          }
        }
        if s[0] !in t && Distinct(t) {
          forall i, j | 0 <= i < j < |s| ensures s[i] != s[j] {
            if i == 0 {
              assert s[j] == t[j - 1];
            } else {
              assert s[i] == t[i - 1] && s[j] == t[j - 1];
            }
          }
        }
      }
    }
  }

  /** Reordering a list that holds every stored poll exactly once gives another such list. */
  lemma PermutedListing(polls: map<string, Poll>, collected: seq<Poll>, list: seq<Poll>)
    requires multiset(list) == multiset(collected)
    requires |collected| == |polls| && Distinct(collected)
    requires forall i | 0 <= i < |collected| :: collected[i] in polls.Values
    requires forall k | k in polls :: polls[k] in collected
    ensures |list| == |polls| && Distinct(list)
    ensures forall i | 0 <= i < |list| :: list[i] in polls.Values
    ensures forall k | k in polls :: polls[k] in list
  {
    assert |multiset(list)| == |multiset(collected)|;
    forall i | 0 <= i < |list| ensures list[i] in polls.Values {
      assert list[i] in multiset(collected);
    }
    forall k | k in polls ensures polls[k] in list {
      assert polls[k] in multiset(collected);
    }
    DistinctIffSingleCopies(collected);
    DistinctIffSingleCopies(list);
  }

  // ---------------------------------------------------------------- shared state

  /** The `voted` entry of one client's cookie session; a session without one starts empty. */
  class VotingSession {
    var voted: map<string, bool>

    constructor ()
      ensures voted == map[]
    {
      voted := map[];
    }
  }

  /** `appData.Polls`. */
  class PollStore {
    var polls: map<string, Poll>

    ghost predicate Valid()
      reads this
    {
      ValidStore(polls)
    }

    constructor ()
      ensures Valid() && polls == map[]
    {
      polls := map[];
    }

    /** The POST branch of the create handler. */
    method Create(question: string, options: seq<string>, id: string, now: int) returns (r: CreateResponse)
      requires Valid()
      modifies this
      ensures Valid()
      ensures r == MissingFields <==> question == "" || |options| < 2
      ensures r == TooFewValidOptions <==> question != "" && |options| >= 2 && |NonEmptyOptions(options)| < 2
      ensures !r.Created? ==> polls == old(polls)
      ensures r.Created? ==>
        && r.id == id
        && polls.Keys == old(polls).Keys + {id}
        && (forall k | k in old(polls) && k != id :: polls[k] == old(polls)[k])
        && polls[id] == Poll(id, question, NonEmptyOptions(options), polls[id].votes, now)
        && polls[id].votes.Keys == (set o | o in NonEmptyOptions(options))
        && (forall o | o in polls[id].votes :: polls[id].votes[o] == 0)
        && SumVotes(polls[id].votes) == 0
    {
      if question == "" || |options| < 2 {
        return MissingFields;
      }
      var valid := ValidOptions(options);
      if |valid| < 2 {
        return TooFewValidOptions;
      }
      var votes := InitialVotes(valid);
      var poll := Poll(id, question, valid, votes, now);
      assert WellFormed(poll) by {
        forall i | 0 <= i < |valid| ensures valid[i] != "" {
          assert valid[i] in valid;
        }
      }
      polls := polls[id := poll];
      r := Created(id);
    }

    /** The vote handler from the option check on; `session` is the client's cookie session. */
    method Vote(session: VotingSession, pollId: string, option: string) returns (response: VoteResponse)
      requires Valid()
      modifies this, session
      ensures Valid()
      ensures var b := CastVote(old(polls), old(session.voted), pollId, option);
        response == b.response && polls == b.polls && session.voted == b.voted
    {
      ghost var b := CastVote(polls, session.voted, pollId, option);
      if option == "" {
        return NoOptionSelected;
      }
      if HasVoted(session.voted, pollId) {
        return AlreadyVoted;
      }
      if pollId !in polls {
        return PollNotFound;
      }
      var poll := polls[pollId];
      if option in poll.votes {
        CastVoteKeepsValid(polls, session.voted, pollId, option);
        polls := polls[pollId := poll.(votes := poll.votes[option := poll.votes[option] + 1])];
        session.voted := session.voted[pollId := true];
        assert polls == b.polls && session.voted == b.voted;
        response := Counted;
      } else {
        response := OptionIgnored;
      }
    }

    /** The home page's list: every stored poll exactly once, newest first. */
    method Listing() returns (list: seq<Poll>)
      requires Valid()
      ensures |list| == |polls|
      ensures forall i | 0 <= i < |list| :: list[i] in polls.Values
      ensures forall k | k in polls :: polls[k] in list
      ensures forall i, j | 0 <= i < j < |list| :: list[i] != list[j]
      ensures NewestFirst(list)
    {
      var keys := polls.Keys;
      var collected: seq<Poll> := [];
      while keys != {}
        invariant keys <= polls.Keys
        invariant |collected| + |keys| == |polls|
        invariant forall i | 0 <= i < |collected| :: collected[i] in polls.Values && collected[i].id !in keys
        invariant forall k | k in polls && k !in keys :: polls[k] in collected
        invariant Distinct(collected)
        decreases |keys|
      {
        var k :| k in keys;
        collected := collected + [polls[k]];
        keys := keys - {k};
      }
      list := SortNewestFirst(collected);
      PermutedListing(polls, collected, list);
    }

    /** getTotalVotes for a stored poll. */
    method PollTotal(pollId: string) returns (total: int)
      requires pollId in polls && Valid()
      ensures total == SumVotes(polls[pollId].votes) && total >= 0
    {
      total := TotalVotes(polls[pollId].votes);
      SumVotesNonNegative(polls[pollId].votes);
    }
  }
}
