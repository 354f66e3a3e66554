/**
 * The in-memory vote store of the voting service, as values.
 *
 * The service keeps two maps: the tally `voteCounts` (category label -> count),
 * seeded with three categories at zero, and `userVotes` (user id -> the label
 * that user last voted for). A vote request is validated against the keys of
 * the tally and then applied in a fixed read-modify-write sequence. This module
 * gives that sequence as the function `Cast`, a run of requests as `Replay`,
 * and proves what the store guarantees across any run.
 */
module VoteModel {

  datatype Option<T> = None | Some(value: T)

  /** The three seeded category labels ("hot", "just right", "cold"). */
  const Hot: string := "あつい"
  const JustRight: string := "ちょうどよい"
  const Cold: string := "さむい"
  const Categories: set<string> := {Hot, JustRight, Cold}

  /** What a vote request comes back with; the only error is an unknown label. */
  datatype Outcome = Accepted | InvalidVoteOption

  /** The two maps the service holds. */
  datatype Store = Store(voteCounts: map<string, int>, userVotes: map<string, string>)

  /** One decoded vote request: any user id (the empty one included) and any label. */
  datatype Request = Request(userId: string, vote: string)

  /** The store after a request, and what the request came back with. */
  datatype Step = Step(store: Store, outcome: Outcome)

  /** Reading a map of counts as the service's language does: a missing key reads as zero. */
  function CountOf(counts: map<string, int>, c: string): (n: int)
  {
    if c in counts then counts[c] else 0
  }

  /** The users whose current record is category `c`. */
  function Voters(userVotes: map<string, string>, c: string): (us: set<string>)
  {
    set u | u in userVotes && userVotes[u] == c
  }

  /** The record of user `u`, if the user has one. */
  function RecordOf(userVotes: map<string, string>, u: string): (r: Option<string>)
  {
    if u in userVotes then Some(userVotes[u]) else None
  }

  /** Sum of the tally over the three categories. */
  function Total(counts: map<string, int>): (n: int)
  {
    CountOf(counts, Hot) + CountOf(counts, JustRight) + CountOf(counts, Cold)
  }

  /** The store at start-up: every category at zero, no user record. */
  function Initial(): (s: Store)
    ensures s.voteCounts.Keys == Categories
    ensures forall c :: c in s.voteCounts ==> s.voteCounts[c] == 0
    ensures s.userVotes == map[]
  {
    Store(map[Hot := 0, JustRight := 0, Cold := 0], map[])
  }

  /** The tally holds exactly the seeded categories and every record names one of them. */
  ghost predicate WellKeyed(s: Store)
  {
    && s.voteCounts.Keys == Categories
    && forall u :: u in s.userVotes ==> s.userVotes[u] in Categories
  }

  /**
   * The invariant every reachable store keeps: each category's count is at least
   * the number of users currently on it. It is not an equality, since voting
   * again for one's own category still adds one.
   */
  ghost predicate Valid(s: Store)
  {
    && WellKeyed(s)
    && forall c :: c in s.voteCounts ==> s.voteCounts[c] >= |Voters(s.userVotes, c)|
  }

  /** The user's previous vote, when there is one and it differs from the new one. */
  function Switched(s: Store, req: Request): (previous: Option<string>)
  {
    if req.userId in s.userVotes && s.userVotes[req.userId] != req.vote
    then Some(s.userVotes[req.userId]) else None
  }

  /**
   * One vote request: reject a label that is not a key of the tally; otherwise
   * take one from the user's previous, different category, add one to the new
   * category whatever the previous vote was, and overwrite the user's record.
   */
  function Cast(s: Store, req: Request): (r: Step)
    // An unknown label is refused and nothing changes.
    ensures r.outcome == InvalidVoteOption <==> req.vote !in s.voteCounts
    ensures r.outcome == InvalidVoteOption ==> r.store == s
    // An accepted vote becomes the user's record; no other user's record changes.
    ensures r.outcome == Accepted ==> r.store.userVotes == s.userVotes[req.userId := req.vote]
    // The chosen category gains one, even when it is already the user's record.
    ensures r.outcome == Accepted ==>
      CountOf(r.store.voteCounts, req.vote) == CountOf(s.voteCounts, req.vote) + 1
    // A previous, different category loses one.
    ensures r.outcome == Accepted && Switched(s, req).Some? ==>
      CountOf(r.store.voteCounts, Switched(s, req).value) == CountOf(s.voteCounts, Switched(s, req).value) - 1
    // No other count changes.
    ensures forall c :: c != req.vote && Switched(s, req) != Some(c) ==>
      CountOf(r.store.voteCounts, c) == CountOf(s.voteCounts, c)
    // The only key that can appear is the previous category (a missing one is read as zero).
    ensures r.store.voteCounts.Keys ==
      s.voteCounts.Keys + (if r.outcome == Accepted && Switched(s, req).Some? then {Switched(s, req).value} else {})
  {
    if req.vote !in s.voteCounts then
      Step(s, InvalidVoteOption)
    else
      var switched := Switched(s, req);
      var decremented :=
        if switched.Some? then s.voteCounts[switched.value := CountOf(s.voteCounts, switched.value) - 1]
        else s.voteCounts;
      var counts := decremented[req.vote := CountOf(decremented, req.vote) + 1];
      Step(Store(counts, s.userVotes[req.userId := req.vote]), Accepted)
  }

  /** The store after the requests `reqs`, handled one at a time in order. */
  function Replay(s: Store, reqs: seq<Request>): (t: Store)
    decreases |reqs|
  {
    if reqs == [] then s
    else Cast(Replay(s, reqs[..|reqs| - 1]), reqs[|reqs| - 1]).store
  }

  /** The label of the last request in `reqs` from user `u` that names a category, if any. */
  function LastAccepted(reqs: seq<Request>, u: string): (v: Option<string>)
    decreases |reqs|
  {
    if reqs == [] then None
    else
      var last := reqs[|reqs| - 1];
      if last.userId == u && last.vote in Categories then Some(last.vote)
      else LastAccepted(reqs[..|reqs| - 1], u)
  }

  /** How the set of users on category `c` changes when user `u` now votes `v`. */
  lemma VotersAfterVote(userVotes: map<string, string>, u: string, v: string, c: string)
    ensures Voters(userVotes[u := v], c) ==
      if c == v then Voters(userVotes, c) + {u} else Voters(userVotes, c) - {u}
  {
  }

  /** Every request, accepted or refused, keeps the invariant. */
  lemma CastPreservesValid(s: Store, req: Request)
    requires Valid(s)
    ensures Valid(Cast(s, req).store)
    ensures Cast(s, req).store.voteCounts.Keys == Categories
  {
    var r := Cast(s, req);
    if r.outcome == Accepted {
      var t := r.store;
      forall c | c in t.voteCounts
        ensures t.voteCounts[c] >= |Voters(t.userVotes, c)|
      {
        VotersAfterVote(s.userVotes, req.userId, req.vote, c);
        var before := Voters(s.userVotes, c);
        if c == req.vote {
          assert |before + {req.userId}| <= |before| + 1;
        } else if Switched(s, req) == Some(c) {
          assert req.userId in before;
          assert |before - {req.userId}| == |before| - 1;
        } else {
          assert |before - {req.userId}| <= |before|;
        }
      }
    }
  }

  /** Any run of requests from a valid store ends in a valid store. */
  lemma {:induction false} ReplayPreservesValid(s: Store, reqs: seq<Request>)
    requires Valid(s)
    ensures Valid(Replay(s, reqs))
    decreases |reqs|
  {
    if reqs != [] {
      ReplayPreservesValid(s, reqs[..|reqs| - 1]);
      CastPreservesValid(Replay(s, reqs[..|reqs| - 1]), reqs[|reqs| - 1]);
    }
  }

  /**
   * From start-up, whatever requests arrive, the tally keeps exactly the three
   * categories and no count goes below zero.
   */
  lemma ReachableTally(reqs: seq<Request>)
    ensures Replay(Initial(), reqs).voteCounts.Keys == Categories
    ensures forall c :: c in Replay(Initial(), reqs).voteCounts ==> Replay(Initial(), reqs).voteCounts[c] >= 0
  {
    ReplayPreservesValid(Initial(), reqs);
  }

  /** A request from user `u` naming a category becomes u's record; other users' records stay. */
  lemma CastRecord(s: Store, req: Request, u: string)
    requires WellKeyed(s)
    ensures RecordOf(Cast(s, req).store.userVotes, u) ==
      if req.userId == u && req.vote in Categories then Some(req.vote) else RecordOf(s.userVotes, u)
  {
  }

  /**
   * Each user holds exactly one current vote: the last accepted one in the run,
   * or, when the run accepted none from that user, the record they had before.
   */
  lemma {:induction false} ReplayLastVoteWins(s: Store, reqs: seq<Request>, u: string)
    requires Valid(s)
    ensures RecordOf(Replay(s, reqs).userVotes, u) ==
      if LastAccepted(reqs, u).Some? then LastAccepted(reqs, u) else RecordOf(s.userVotes, u)
    decreases |reqs|
  {
    if reqs != [] {
      var prefix, last := reqs[..|reqs| - 1], reqs[|reqs| - 1];
      ReplayLastVoteWins(s, prefix, u);
      ReplayPreservesValid(s, prefix);
      CastRecord(Replay(s, prefix), last, u);
    }
  }

  /** The users with a record split into the three disjoint groups of voters. */
  lemma UsersByCategory(userVotes: map<string, string>)
    requires forall u :: u in userVotes ==> userVotes[u] in Categories
    ensures |userVotes| ==
      |Voters(userVotes, Hot)| + |Voters(userVotes, JustRight)| + |Voters(userVotes, Cold)|
  {
    var h, j, c := Voters(userVotes, Hot), Voters(userVotes, JustRight), Voters(userVotes, Cold);
    assert userVotes.Keys == h + j + c;
    assert h * j == {} && (h + j) * c == {};
    assert |h + j| == |h| + |j|;
    assert |h + j + c| == |h + j| + |c|;
  }

  /** The sum of the tally is never less than the number of users who have voted. */
  lemma TallyCoversUsers(s: Store)
    requires Valid(s)
    ensures Total(s.voteCounts) >= |s.userVotes|
  {
    UsersByCategory(s.userVotes);
  }

  /**
   * The tally is not the count of users per category: one user voting for the
   * same category twice leaves that category at 2 with a single user on it.
   */
  lemma RepeatVoteInflatesTally()
    ensures var s := Replay(Initial(), [Request("u1", Hot), Request("u1", Hot)]);
      && CountOf(s.voteCounts, Hot) == 2
      && Voters(s.userVotes, Hot) == {"u1"}
      && Total(s.voteCounts) == |s.userVotes| + 1
  {
    var reqs := [Request("u1", Hot), Request("u1", Hot)];
    assert reqs[..1][..0] == [];
    var s1 := Cast(Initial(), reqs[0]).store;
    assert Replay(Initial(), reqs[..1]) == s1;
    assert s1.voteCounts == map[Hot := 1, JustRight := 0, Cold := 0];
    var s := Cast(s1, reqs[1]).store;
    assert Replay(Initial(), reqs) == s;
    assert s.voteCounts == map[Hot := 2, JustRight := 0, Cold := 0];
    assert s.userVotes == map["u1" := Hot];
    assert Voters(s.userVotes, Hot) == {"u1"};
  }

  /** The worked run: switch, repeat, then a second user. */
  lemma ScenarioRun()
    ensures var reqs := [Request("u1", Hot), Request("u1", Cold), Request("u1", Cold), Request("u2", Hot)];
      && Replay(Initial(), reqs[..1]).voteCounts == map[Hot := 1, JustRight := 0, Cold := 0]
      && Replay(Initial(), reqs[..2]).voteCounts == map[Hot := 0, JustRight := 0, Cold := 1]
      && Replay(Initial(), reqs[..3]).voteCounts == map[Hot := 0, JustRight := 0, Cold := 2]
      && Replay(Initial(), reqs).voteCounts == map[Hot := 1, JustRight := 0, Cold := 2]
  {
    var reqs := [Request("u1", Hot), Request("u1", Cold), Request("u1", Cold), Request("u2", Hot)];
    assert reqs[..4] == reqs;
    assert reqs[..3][..2] == reqs[..2];
    assert reqs[..2][..1] == reqs[..1];
    assert reqs[..1][..0] == [];
  }
}
