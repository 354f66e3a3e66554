# Vote store of the voting service

The service keeps its whole state in two maps: the tally `voteCounts`
(category label → count), seeded at start-up with the three categories
"あつい", "ちょうどよい" and "さむい" at zero, and `userVotes` (user id → the
label that user last voted for). A vote request is checked against the keys of
the tally; an accepted one takes one from the user's previous category when it
differs from the new one, adds one to the new category in every case, and
overwrites the user's record. A results request returns the tally.

This project models that store:

- `vote_model.dfy`, module `VoteModel`: the state as a value (`Store`), one
  request as the function `Cast`, a run of requests handled in order as
  `Replay`, the invariant `Valid`, and the lemmas about them.
- `vote_service.dfy`, module `VoteService`: the class `VoteStore` with the
  two map fields, whose `CastVote` method updates them and is proved against
  `Cast`, and whose `Snapshot` method reads the tally.

The re-vote behaviour is kept as the code has it: voting again for one's own
category adds one more to it. So a count is not the number of users on that
category; what holds is count ≥ users on it (`Valid`), and the sum of the
tally is at least the number of users who have voted. One might expect each
count to equal the number of users on that category, and the sum to equal the
number of distinct voters; the code does not keep that, and
`RepeatVoteInflatesTally` exhibits the difference.

Reading a missing map key gives zero in the service's language, so
`voteCounts[previousVote]--` on a label that is not a key would add it with
-1. `CountOf` models this read and `Cast`'s contract states which key can
appear; under `Valid` a previous vote is always a seeded category, so the key
set never changes.

User ids are not validated: any string, the empty one included, is accepted.

## Model

| member | source | states |
|---|---|---|
| VoteModel.Initial | main.go:20-29 | start-up state: the tally holds exactly the three categories, each at zero, and there is no user record |
| VoteModel.Cast | main.go:48-67 | a label that is not a key of the tally is refused (iff) and leaves both maps as they were; an accepted vote becomes the user's record with every other record kept; the chosen category gains one even when it already is the user's record; a previous, different category loses one; no other count changes; the only key that can appear is the previous category |
| VoteModel.CastPreservesValid | main.go:58-67 | every request keeps the invariant: the tally keys are exactly the three categories, every record names one of them, and each count is at least the number of users whose record is that category |
| VoteModel.ReplayPreservesValid | main.go:58-67 | any run of requests from a valid store ends in a valid store |
| VoteModel.ReachableTally | main.go:22-67 | from start-up, after any run of requests, the tally keys are exactly the three categories and no count is negative |
| VoteModel.CastRecord | main.go:48-67 | a request from a user naming a category becomes that user's record; a refused request or another user's request leaves the user's record as it was |
| VoteModel.ReplayLastVoteWins | main.go:58-67 | after any run, each user's record is the last label they sent that names a category, or, when there is none, the record they had before the run |
| VoteModel.TallyCoversUsers | main.go:58-67 | in a valid store the sum of the tally is at least the number of users with a record |
| VoteModel.RepeatVoteInflatesTally | main.go:60-67 | one user voting twice for the same category leaves that category at 2 with one user on it, so the sum of the tally exceeds the number of users by one |
| VoteModel.ScenarioRun | main.go:48-67 | the tally after each step of the run: u1 votes hot, switches to cold, votes cold again, then u2 votes hot |
| VoteService.VoteStore.constructor | main.go:20-29 | the store starts as `Initial`: three categories at zero, no record |
| VoteService.VoteStore.CastVote | main.go:48-67 | the new fields and the outcome are exactly `Cast` of the old ones; the invariant is kept; only an unknown label is refused, and then nothing changes; the record, the gained, the lost and the unchanged counts as in `Cast`; the key set stays the three categories |
| VoteService.VoteStore.Snapshot | main.go:83-89 | returns the current tally and changes nothing; it has exactly the three categories, each count is at least its number of voters and not negative, and its sum is at least the number of users who have voted |

## Left out

- HTTP method checks, JSON decoding and encoding, status codes and response
  text (main.go:37-46, 69-73, 78-81, 86-89): transport; a request enters the
  model as an already decoded `Request` and leaves as an `Outcome` or a map.
- Logging (main.go:69-70) and the router, CORS set-up and server start in
  `main` (main.go:93-116): I/O and a foreign library.
- The mutex (main.go:32, 54-55, 83-84): each request is modelled as one atomic
  step, which is what the lock provides for the read-modify-write at
  main.go:58-67.
- The unlocked read at main.go:48: the label check reads `voteCounts` before
  the lock at main.go:54 is taken, so it races with the locked writes at
  main.go:61 and main.go:66, and the Go runtime can abort the process with a
  concurrent map read and map write. The model treats the check as part of the
  same atomic step and does not capture this race or the crash it can cause.
- VoteModel.ReachableTally: counts are unbounded integers in the model. Go's
  `int` is fixed-width (64 bits on the usual targets), so
  `voteCounts[req.Vote]++` at main.go:66 wraps around after enough
  increments, which one user's repeat votes alone can reach; "no count is
  negative" holds only because the model does not wrap.
- VoteService.VoteStore.Snapshot: `tally[c] >= 0` and the bound by the number
  of voters rest on the same unbounded counts; with 64-bit wrap-around they
  fail once one category has been incremented 2^63 times.
- VoteService.VoteStore.CastVote: computes the new maps in locals and assigns
  both fields at the end, rather than updating `voteCounts` twice in place;
  the intermediate state is never observable while the lock is held.
- The order of keys in the encoded results: a Dafny map has none.
