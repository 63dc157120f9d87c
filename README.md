# Target-acquisition challenge server: verified model of the challenge lifecycle

The server hands out short-lived spatial challenges: a player at the origin
and 5 to 8 randomly placed targets named `T1`, `T2`, .... The client must
name the target closest to the player within one second. The server keeps
each issued challenge in a global map together with its precomputed
expected answer and its creation instant. A background sweep drops records
older than two seconds. An answer is graded as not found, timed out, right
or wrong. A wrong answer is reported with the distances of the expected and
the chosen target.

This project models that lifecycle in Dafny and proves its properties:

- `decimal.dfy` (module `Decimal`): the `%d` rendering used for `TARG-<n>`
  and `T<i>`, with its parser. The round trip proves the identifiers
  injective.
- `geometry.dfy` (module `Geometry`): `distance3D` as a squared distance
  over `real`. `findClosestTarget` is a loop proved equal to a recursive
  arg-min with "first wins ties".
- `generator.dfy` (module `Generator`): `generateChallenge`. The random
  draws and the clock are parameters. The method fills an array in a loop.
- `store.dfy` (module `ChallengeStore`): the `activeChallenges` map as the
  class `Store`. It has insert, lookup, delete, the expiry sweep (a loop
  over the keys) and the count.
- `handlers.dfy` (module `Handlers`): the bookkeeping of the two
  endpoints. Issue means generate, compute the answer, then store. Answer
  means look up, check the deadline, grade, then delete. The verdict is a
  tagged datatype.

Time is an integer number of nanoseconds, like Go's `time.Time` and
`time.Duration`. The deadline is one second. The sweep's cutoff is
`now - 2s`, and a record is dropped when its creation instant is strictly
before the cutoff.

In four places the evidently intended behaviour of the server and what
its code does part ways. The model follows the code:

- One would expect an answer to consume its record atomically, with the
  lookup and the removal in one critical section. The code looks up under
  the read lock (main.go:155-157) and deletes later under the write lock
  (main.go:217-219). So two concurrent answers for one id can both be
  graded. The model runs each critical section as one sequential step and
  proves no at-most-once property.
- One would expect a late answer to consume the record as well. The code
  returns on timeout before the delete (main.go:166-170), so the record
  stays until the sweep removes it. `Handlers.AnswerTwiceLate` shows a
  second late answer timing out again instead of finding nothing.
- One would expect the nearest-target function to return the empty
  answer only for an empty target list. The code also returns `""` when
  the closest target's own id is `""`. `Geometry.EmptyAnswerIffNoTargets`
  therefore assumes non-empty ids, which generated challenges have.
- A wrong answer is meant to report the distances of both ids. The code's
  feedback loop reports 0 for an id that names no target. When several
  targets share an id, it reports the last one's distance.

## Model

| member | source | states |
|---|---|---|
| `Decimal.NatToString` | main.go:85 | `%d` of a natural number is a non-empty string of decimal digits with no leading zero |
| `Decimal.ParseNatToString` | main.go:74 | parsing the rendered digits of `n` gives back `n` (round trip) |
| `Decimal.NatToStringInjective` | main.go:85 | two numbers render to the same digits exactly when they are equal |
| `Decimal.PrefixedNatInjective` | main.go:85 | with a fixed prefix (`T`, `TARG-`), identifiers coincide exactly when their numbers do |
| `Geometry.SqDist` | main.go:45-49 | the squared distance is non-negative, and zero exactly when the two points have the same coordinates |
| `Geometry.SqDistSymmetric` | main.go:45-49 | the distance from p to q equals the distance from q to p |
| `Geometry.SqrtPreservesOrder` | main.go:59-63 | for non-negative square roots, `sqrt(s) < sqrt(t)` exactly when `s < t`, so comparing squared distances picks the same target as comparing distances |
| `Geometry.ClosestIndex` | main.go:58-67 | for non-empty targets, the scan's index is the first closest one: nothing is strictly closer and every earlier target is strictly farther |
| `Geometry.FirstClosestUnique` | main.go:63 | because `<` is strict, only one index can be the first closest one |
| `Geometry.ClosestTargetId` | main.go:53-70 | `""` for no targets; otherwise the id of the first closest target, and that id is the same whichever first-closest index is picked |
| `Geometry.EmptyAnswerIffNoTargets` | main.go:54-56 | when every target id is non-empty, the answer is `""` exactly when there are no targets |
| `Geometry.FindClosestTarget` | main.go:53-70 | the loop keeping `closestID`/`minDistance` returns the id of the first closest target (its invariant is the arg-min of the prefix scanned so far) |
| `Generator.GenerateChallenge` | main.go:73-98 | the array-filling loop yields exactly the challenge the draws determine: id `TARG-<idDraw>`, player at the origin, `5 + countDraw` targets, target i named `T(i+1)` with scaled coordinates, the given timestamp |
| `Generator.GeneratedWellFormed` | main.go:77-90 | a generated challenge has the player at the origin, 5 to 8 targets, target i named `T(i+1)`, and pairwise distinct, non-empty target ids |
| `Generator.GeneratedWithinBounds` | main.go:86-88 | for draws in [0,1), every target has x and y in [-100,100) and z in [-50,50) |
| `Generator.ChallengeIdDecodes` | main.go:74 | the challenge id is `TARG-` followed by digits that parse back to the drawn number n, with 0 <= n < 999999 |
| `Generator.ChallengeIdCollision` | main.go:74 | two challenge ids collide exactly when the same number was drawn |
| `ChallengeStore.Unexpired` | main.go:105-110 | a sweep at `now` adds no key; it keeps unchanged every record created at or after `now - 2s` and keeps nothing older |
| `ChallengeStore.UnexpiredIdempotent` | main.go:101-111 | sweeping again at the same instant removes nothing more |
| `ChallengeStore.UnexpiredLater` | main.go:101-111 | sweeping at t1 and then at t2 >= t1 leaves the same map as sweeping at t2 alone |
| `ChallengeStore.Store.constructor` | main.go:40 | the store starts empty and satisfies the record invariant |
| `ChallengeStore.Store.Put` | main.go:122-128 | insert sets the entry for the id and overwrites an existing one; every other key is unchanged |
| `ChallengeStore.Store.Get` | main.go:155-157 | the lookup finds a record exactly when the id is present, and returns the stored record |
| `ChallengeStore.Store.Delete` | main.go:217-219 | delete removes the id if present and changes nothing else |
| `ChallengeStore.Store.CleanupExpired` | main.go:101-111 | the loop deleting while iterating leaves exactly the records the sweep keeps, and it preserves the record invariant |
| `ChallengeStore.Store.StoredRecordConsistent` | main.go:116-128 | every record of a valid store is filed under its own id, has distinct target ids, and expects the id of its first closest target |
| `ChallengeStore.Store.ActiveCount` | main.go:224-226 | the status count is the number of stored records |
| `Handlers.MatchedSqDist` | main.go:190-199 | the feedback distance of an id that names no target is 0 |
| `Handlers.MatchedSqDistIsLastMatch` | main.go:191-198 | the feedback distance of an id is that of the last target with that id |
| `Handlers.FeedbackDistances` | main.go:190-199 | the single feedback loop computes both the expected and the chosen feedback distance |
| `Handlers.Grade` | main.go:165-214 | a found record times out exactly when elapsed > 1s; otherwise the answer succeeds exactly when it equals the stored expected answer; a failure reports the expected and the chosen id |
| `Handlers.TimelyAnswerSucceedsIffClosest` | main.go:173 | for a record with distinct target ids and the closest target's id as expected answer (every stored record), answered in time, naming target j succeeds exactly when j is the first closest target |
| `Handlers.TimelyGradeMatchesClosest` | main.go:165-173 | for such a record, the verdict `Grade` gives a timely answer succeeds exactly when the target it names is the first closest one |
| `Handlers.StoredGradeMatchesClosest` | main.go:155-173 | in a store that keeps its record invariant, every stored record is graded that way |
| `Handlers.WrongTimelyAnswerFeedback` | main.go:185-209 | for such a record, a timely wrong answer naming a real target fails; it reports that target's distance and, as expected distance, the distance of the first closest target (whose id is the expected answer), which is no larger and equal only when the expected target comes earlier (a tie) |
| `Handlers.UnknownTargetFeedback` | main.go:190-199 | a timely answer naming no target fails with chosen distance 0 |
| `Handlers.SweepOnlyRemovesLateRecords` | main.go:105-107 | a record still answerable in time is never swept, and a swept record would only have timed out |
| `Handlers.WorkedExample` | main.go:172-209 | with player (0,0,0), T1 = (10,0,0) and T2 = (3,0,0), T2 is expected; answering T2 in time succeeds; answering T1 fails with squared distances 9 and 100 |
| `Handlers.IssueChallenge` | main.go:116-128 | issuing stores, under the generated id, the challenge with `ExpectedAnswer` = the first closest target's id and `CreatedAt = now`; it overwrites on collision, leaves other keys alone, and keeps the store invariant |
| `Handlers.AnswerChallenge` | main.go:155-219 | an unknown id gives NotFound and a late answer gives Timeout, both leaving the map unchanged; otherwise the verdict is `Grade` of the stored record, and only that id is removed; in a valid store a timely answer succeeds exactly when it names the first closest target |
| `Handlers.AnswerTwiceInTime` | main.go:216-219 | after a graded answer, answering the same id again gives NotFound |
| `Handlers.AnswerTwiceLate` | main.go:164-170 | a late answer leaves the record, so a second late answer times out again and the map is unchanged |

## Left out

- HTTP routing, request decoding, status codes, JSON encoding, `log.Printf` and the help text (main.go:114, 130-143, 149-153, 229-236, 251-299). They are I/O plumbing. A malformed request body, which is rejected before any store access, is not modelled.
- `sync.RWMutex` and the ticker goroutine (main.go:41, 102-103, 243-249). Each critical section is one sequential method call. Interleavings between the lookup and the delete of an answer are not modelled, and at-most-once grading is not claimed.
- `math/rand` and `time.Now`/`time.Since` become parameters: the drawn numbers, the coordinate draws, the Unix timestamp and the current instant. The sweep period of two seconds is part of the goroutine and is not modelled.
- IEEE-754 `float64` arithmetic, `math.Sqrt` and the `%.2f`/`%.3f` formatting (main.go:49, 178, 206-207) are not modelled. Coordinates are reals, and distances are compared as squares.
- Handlers.Grade: a failure carries squared distances, not the square roots the source reports.
- `int64` overflow of nanosecond instants and of Unix seconds is not modelled; integers are unbounded.
- The status report's constant fields (the "1 second" and "2 seconds" texts and the player position) are not modelled.
