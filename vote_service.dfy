/**
 * The vote store as the service holds it: one object whose two map fields the
 * vote handler updates in place. Each request is handled as one atomic step
 * (the service serialises them with a lock), so each handler is one method.
 */
module VoteService {
  import opened VoteModel

  class VoteStore {
    /** Category label -> number of votes. */
    var voteCounts: map<string, int>
    /** User id -> the label that user last voted for. */
    var userVotes: map<string, string>

    /** The fields as a value of the model. */
    ghost function State(): Store
      reads this
    {
      Store(voteCounts, userVotes)
    }

    ghost predicate Valid()
      reads this
    {
      VoteModel.Valid(State())
    }

    /** Start-up: the three categories seeded at zero, no user record. */
    constructor ()
      ensures Valid() && State() == Initial()
      ensures voteCounts.Keys == Categories && userVotes == map[]
    {
      voteCounts := map[Hot := 0, JustRight := 0, Cold := 0];
      userVotes := map[];
    }

    /** Record the vote of `userId` for the category labelled `vote`. */
    method CastVote(userId: string, vote: string) returns (outcome: Outcome)
      requires Valid()
      modifies this
      ensures Valid()
      ensures Cast(old(State()), Request(userId, vote)) == Step(State(), outcome)
      // Only a label outside the seeded categories is refused, and then nothing changes.
      ensures outcome == InvalidVoteOption <==> vote !in Categories
      ensures outcome == InvalidVoteOption ==> voteCounts == old(voteCounts) && userVotes == old(userVotes)
      // The tally keeps exactly the seeded categories.
      ensures voteCounts.Keys == Categories
      // An accepted vote is the user's record from now on; other records stay.
      ensures outcome == Accepted ==> userVotes == old(userVotes)[userId := vote]
      // The chosen category gains one, also when it already was the user's record.
      ensures outcome == Accepted ==> voteCounts[vote] == old(voteCounts[vote]) + 1
      // A previous, different category loses one.
      ensures outcome == Accepted && userId in old(userVotes) && old(userVotes[userId]) != vote ==>
        voteCounts[old(userVotes[userId])] == old(voteCounts[userVotes[userId]]) - 1
      // Every other count stays.
      ensures forall c :: c in voteCounts && c != vote && !(userId in old(userVotes) && old(userVotes[userId]) == c) ==>
        voteCounts[c] == old(voteCounts)[c]
    {
      if vote !in voteCounts {
        return InvalidVoteOption;
      }
      var counts, records := voteCounts, userVotes;
      if userId in records {
        var previousVote := records[userId];
        if previousVote != vote {
          counts := counts[previousVote := CountOf(counts, previousVote) - 1];
        }
      }
      counts := counts[vote := CountOf(counts, vote) + 1];
      records := records[userId := vote];
      assert Cast(State(), Request(userId, vote)) == Step(Store(counts, records), Accepted);
      CastPreservesValid(State(), Request(userId, vote));
      voteCounts, userVotes := counts, records;
      outcome := Accepted;
    }

    /** The current tally; nothing changes. */
    method Snapshot() returns (tally: map<string, int>)
      requires Valid()
      ensures tally == voteCounts
      ensures tally.Keys == Categories
      ensures forall c :: c in tally ==> tally[c] >= |Voters(userVotes, c)| && tally[c] >= 0
      ensures Total(tally) >= |userVotes|
    {
      tally := voteCounts;
      TallyCoversUsers(State());
    }
  }
}
