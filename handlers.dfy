/** The decision logic of the two challenge endpoints: issuing a challenge
    (`coordinatesChallengeHandler`, lines 116-128) and grading an answer
    (`coordinatesAnswerHandler`, lines 155-219), with the HTTP request and
    response replaced by parameters and a tagged verdict. `now` is the clock
    reading the source takes with `time.Now()` / `time.Since`. */
module Handlers {
  import opened Geometry
  import opened Generator
  import opened ChallengeStore

  /** The outcome of an answer. The distances of a failure are squared
      distances (the source reports their square roots). */
  datatype Verdict =
    | NotFound
    | Timeout(elapsed: int)
    | Success(challengeId: string, targetId: string, elapsed: int)
    | Failure(challengeId: string, correctTarget: string, chosenTarget: string,
              correctSqDistance: real, chosenSqDistance: real)

  /** `i` is the last position whose target is named `id`. */
  ghost predicate IsLastMatch(targets: seq<Coordinate>, id: string, i: int) {
    && 0 <= i < |targets|
    && targets[i].id == id
    && forall j :: i < j < |targets| ==> targets[j].id != id
  }

  /** The feedback distance for `id`: the feedback loop overwrites its
      variable at every target named `id`, so the last such target counts;
      the variable keeps its zero value when no target has that name. */
  function MatchedSqDist(player: Coordinate, targets: seq<Coordinate>, id: string): (r: real)
    ensures (forall i :: 0 <= i < |targets| ==> targets[i].id != id) ==> r == 0.0
  {
    if |targets| == 0 then 0.0
    else if targets[|targets| - 1].id == id then SqDist(player, targets[|targets| - 1])
    else MatchedSqDist(player, targets[..|targets| - 1], id)
  }

  /** When some target is named `id`, the feedback distance is that of the
      last one so named. */
  lemma {:induction false} MatchedSqDistIsLastMatch(player: Coordinate, targets: seq<Coordinate>, id: string, i: int)
    requires IsLastMatch(targets, id, i)
    ensures MatchedSqDist(player, targets, id) == SqDist(player, targets[i])
  {
    if i < |targets| - 1 {
      var prefix := targets[..|targets| - 1];
      assert IsLastMatch(prefix, id, i);
      MatchedSqDistIsLastMatch(player, prefix, id, i);
    }
  }

  /** Lines 190-199: one pass over the targets computing the distance of the
      expected and of the chosen target. */
  method FeedbackDistances(player: Coordinate, targets: seq<Coordinate>, expected: string, chosen: string)
    returns (correctSqDistance: real, chosenSqDistance: real)
    ensures correctSqDistance == MatchedSqDist(player, targets, expected)
    ensures chosenSqDistance == MatchedSqDist(player, targets, chosen)
  {
    correctSqDistance, chosenSqDistance := 0.0, 0.0;
    for i := 0 to |targets|
      invariant correctSqDistance == MatchedSqDist(player, targets[..i], expected)
      invariant chosenSqDistance == MatchedSqDist(player, targets[..i], chosen)
    {
      assert targets[..i + 1][..i] == targets[..i];
      var dist := SqDist(player, targets[i]);
      if targets[i].id == expected {
        correctSqDistance := dist;
      }
      if targets[i].id == chosen {
        chosenSqDistance := dist;
      }
    }
    assert targets[..|targets|] == targets;
  }

  /** How a found record is graded (lines 165-214): too late when more than
      the deadline has passed since the record was stored, otherwise right
      exactly when the answer is the stored expected answer, otherwise
      wrong, reporting both identifiers. */
  function Grade(data: ChallengeData, challengeId: string, closestId: string, now: int): (v: Verdict)
    ensures !v.NotFound?
    ensures v.Timeout? <==> now - data.createdAt > AnswerDeadline
    ensures v.Success? <==> now - data.createdAt <= AnswerDeadline && closestId == data.expectedAnswer
    ensures v.Success? ==> v.targetId == closestId
    ensures v.Failure? ==> v.correctTarget == data.expectedAnswer && v.chosenTarget == closestId
  {
    var elapsed := now - data.createdAt;
    if elapsed > AnswerDeadline then Timeout(elapsed)
    else if closestId == data.expectedAnswer then Success(challengeId, closestId, elapsed)
    else
      var targets := data.challenge.targets;
      var player := data.challenge.playerPos;
      Failure(challengeId, data.expectedAnswer, closestId,
              MatchedSqDist(player, targets, data.expectedAnswer),
              MatchedSqDist(player, targets, closestId))
  }

  /** In a well-formed challenge the target named `targets[j].id` is
      target `j` itself. */
  lemma DistinctIdsLastMatch(targets: seq<Coordinate>, j: int)
    requires DistinctIds(targets) && 0 <= j < |targets|
    ensures IsLastMatch(targets, targets[j].id, j)
  {
  }

  /** For a record whose targets have distinct identifiers and whose
      expected answer is the closest target's (as every stored record has),
      answered in time, naming target `j` succeeds exactly when `j` is the
      first target at the smallest distance from the player. */
  lemma TimelyAnswerSucceedsIffClosest(id: string, data: ChallengeData, now: int, j: int)
    requires DistinctIds(data.challenge.targets)
    requires data.expectedAnswer == ClosestTargetId(data.challenge.playerPos, data.challenge.targets)
    requires now - data.createdAt <= AnswerDeadline
    requires 0 <= j < |data.challenge.targets|
    ensures var c := data.challenge;
      Grade(data, id, c.targets[j].id, now).Success? <==> IsFirstClosest(c.playerPos, c.targets, j)
  {
  }

  /** Verdict `v` for an answer naming `closestId` to the record `data`
      succeeds, when given in time, exactly if the target so named is the
      first closest one. */
  ghost predicate SucceedsIffNamesClosest(data: ChallengeData, closestId: string, now: int, v: Verdict) {
    var c := data.challenge;
    now - data.createdAt <= AnswerDeadline ==>
      forall j :: 0 <= j < |c.targets| && c.targets[j].id == closestId ==>
        (v.Success? <==> IsFirstClosest(c.playerPos, c.targets, j))
  }

  /** The same for every target the answer may name, stated of the verdict
      `Grade` returns. */
  lemma TimelyGradeMatchesClosest(data: ChallengeData, id: string, closestId: string, now: int)
    requires DistinctIds(data.challenge.targets)
    requires data.expectedAnswer == ClosestTargetId(data.challenge.playerPos, data.challenge.targets)
    ensures SucceedsIffNamesClosest(data, closestId, now, Grade(data, id, closestId, now))
  {
    var c := data.challenge;
    forall j | 0 <= j < |c.targets| && c.targets[j].id == closestId && now - data.createdAt <= AnswerDeadline
      ensures Grade(data, id, closestId, now).Success? <==> IsFirstClosest(c.playerPos, c.targets, j)
    {
      TimelyAnswerSucceedsIffClosest(id, data, now, j);
    }
  }

  /** In a valid store every record is graded that way. */
  lemma StoredGradeMatchesClosest(store: Store, id: string, closestId: string, now: int)
    requires id in store.active
    ensures store.Valid() ==>
      SucceedsIffNamesClosest(store.active[id], closestId, now, Grade(store.active[id], id, closestId, now))
  {
    if store.Valid() {
      store.StoredRecordConsistent(id);
      TimelyGradeMatchesClosest(store.active[id], id, closestId, now);
    }
  }

  /** For such a record answered in time with the name of target `j` that
      is not the expected one, the failure reports the distance of the
      first closest target, which is the expected one and is no larger than that of target `j`, and equal only
      when target `j` comes after it (the tie went to the earlier target). */
  lemma WrongTimelyAnswerFeedback(id: string, data: ChallengeData, now: int, j: int)
    requires DistinctIds(data.challenge.targets)
    requires data.expectedAnswer == ClosestTargetId(data.challenge.playerPos, data.challenge.targets)
    requires now - data.createdAt <= AnswerDeadline
    requires 0 <= j < |data.challenge.targets|
    requires data.challenge.targets[j].id != data.expectedAnswer
    ensures var c := data.challenge;
      var v := Grade(data, id, c.targets[j].id, now);
      && v.Failure?
      && v.correctTarget == data.expectedAnswer
      && v.chosenSqDistance == SqDist(c.playerPos, c.targets[j])
      && (exists k :: && IsFirstClosest(c.playerPos, c.targets, k)
                      && c.targets[k].id == data.expectedAnswer
                      && v.correctSqDistance == SqDist(c.playerPos, c.targets[k]))
      && v.correctSqDistance <= v.chosenSqDistance
      && (v.correctSqDistance == v.chosenSqDistance ==>
            exists k :: 0 <= k < j && c.targets[k].id == data.expectedAnswer)
  {
    var c := data.challenge;
    var k := ClosestIndex(c.playerPos, c.targets);
    assert data.expectedAnswer == c.targets[k].id;
    DistinctIdsLastMatch(c.targets, k);
    DistinctIdsLastMatch(c.targets, j);
    MatchedSqDistIsLastMatch(c.playerPos, c.targets, c.targets[k].id, k);
    MatchedSqDistIsLastMatch(c.playerPos, c.targets, c.targets[j].id, j);
    assert k != j;
    if SqDist(c.playerPos, c.targets[k]) == SqDist(c.playerPos, c.targets[j]) {
      assert k < j;
    }
  }

  /** An answer that names no target of the challenge fails with a chosen
      distance of zero. */
  lemma UnknownTargetFeedback(data: ChallengeData, challengeId: string, closestId: string, now: int)
    requires now - data.createdAt <= AnswerDeadline
    requires closestId != data.expectedAnswer
    requires forall i :: 0 <= i < |data.challenge.targets| ==> data.challenge.targets[i].id != closestId
    ensures Grade(data, challengeId, closestId, now).Failure?
    ensures Grade(data, challengeId, closestId, now).chosenSqDistance == 0.0
  {
  }

  /** A record that can still be answered in time is never swept, and a
      record the sweep removes could only have been answered too late. */
  lemma SweepOnlyRemovesLateRecords(data: ChallengeData, now: int)
    ensures now - data.createdAt <= AnswerDeadline ==> !Expired(data, now)
    ensures Expired(data, now) ==> Grade(data, data.challenge.challengeId, "", now).Timeout?
  {
  }

  /** A two-target scenario: player at the origin, `T1` at
      (10, 0, 0) and `T2` at (3, 0, 0). `T2` is expected; naming it in time
      succeeds, naming `T1` fails with squared distances 9 and 100. */
  lemma WorkedExample(challenge: TargetChallenge, t1: Coordinate, t2: Coordinate, createdAt: int, now: int)
    requires challenge.playerPos == PlayerAtOrigin
    requires t1.id == "T1" && t1.x == 10.0 && t1.y == 0.0 && t1.z == 0.0
    requires t2.id == "T2" && t2.x == 3.0 && t2.y == 0.0 && t2.z == 0.0
    requires challenge.targets == [t1, t2]
    requires 0 <= now - createdAt <= AnswerDeadline
    ensures ClosestTargetId(challenge.playerPos, challenge.targets) == "T2"
    ensures var data := ChallengeData(challenge, "T2", createdAt);
      && Grade(data, challenge.challengeId, "T2", now) == Success(challenge.challengeId, "T2", now - createdAt)
      && Grade(data, challenge.challengeId, "T1", now) == Failure(challenge.challengeId, "T2", "T1", 9.0, 100.0)
  {
    var p := challenge.playerPos;
    var d1, d2 := SqDist(p, t1), SqDist(p, t2);
    assert d1 == 100.0 by {
      calc {
        d1;
        == Square(0.0 - 10.0) + Square(0.0 - 0.0) + Square(0.0 - 0.0);
        == { assert Square(0.0 - 10.0) == (-10.0) * (-10.0); assert Square(0.0 - 0.0) == 0.0 * 0.0; }
           (-10.0) * (-10.0) + 0.0 * 0.0 + 0.0 * 0.0;
        == 100.0;
      }
    }
    assert d2 == 9.0 by {
      calc {
        d2;
        == Square(0.0 - 3.0) + Square(0.0 - 0.0) + Square(0.0 - 0.0);
        == { assert Square(0.0 - 3.0) == (-3.0) * (-3.0); assert Square(0.0 - 0.0) == 0.0 * 0.0; }
           (-3.0) * (-3.0) + 0.0 * 0.0 + 0.0 * 0.0;
        == 9.0;
      }
    }
    var ts := challenge.targets;
    assert ts[..1] == [t1];
    assert MatchedSqDist(p, ts, "T2") == d2;
    assert MatchedSqDist(p, ts, "T1") == d1 by {
      assert MatchedSqDist(p, [t1], "T1") == d1;
    }
  }

  /** `coordinatesChallengeHandler` without the HTTP response and logging:
      generate, compute the expected answer once, store it with the
      issue instant. */
  method IssueChallenge(store: Store, idDraw: nat, countDraw: nat, coordDraws: seq<real>,
                        unixSeconds: int, now: int)
    returns (c: TargetChallenge)
    requires ValidDraws(idDraw, countDraw, coordDraws)
    modifies store
    ensures c == Generated(idDraw, countDraw, coordDraws, unixSeconds)
    ensures store.active == old(store.active)[c.challengeId :=
      ChallengeData(c, ClosestTargetId(c.playerPos, c.targets), now)]
    ensures exists k :: (IsFirstClosest(c.playerPos, c.targets, k)
      && store.active[c.challengeId].expectedAnswer == c.targets[k].id)
    ensures |store.active| == |old(store.active)| + (if c.challengeId in old(store.active) then 0 else 1)
    ensures old(store.Valid()) ==> store.Valid()
  {
    c := GenerateChallenge(idDraw, countDraw, coordDraws, unixSeconds);
    GeneratedWellFormed(idDraw, countDraw, coordDraws, unixSeconds);
    var expectedAnswer := FindClosestTarget(c.playerPos, c.targets);
    store.Put(c.challengeId, ChallengeData(c, expectedAnswer, now));
  }

  /** `coordinatesAnswerHandler` after decoding: look the record up, refuse
      an unknown id, refuse a late answer WITHOUT deleting the record, else
      grade and then delete the record in a separate step. */
  method AnswerChallenge(store: Store, challengeId: string, closestId: string, now: int)
    returns (v: Verdict)
    modifies store
    ensures challengeId !in old(store.active) ==> v == NotFound
    ensures challengeId in old(store.active) ==>
      v == Grade(old(store.active)[challengeId], challengeId, closestId, now)
    ensures v.NotFound? || v.Timeout? ==> store.active == old(store.active)
    ensures v.Success? || v.Failure? ==> store.active == old(store.active) - {challengeId}
    ensures old(store.Valid()) ==> store.Valid()
    ensures old(store.Valid()) && challengeId in old(store.active) ==>
      SucceedsIffNamesClosest(old(store.active)[challengeId], closestId, now, v)
  {
    var found := store.Get(challengeId);
    if found.None? {
      return NotFound;
    }
    var data := found.value;
    StoredGradeMatchesClosest(store, challengeId, closestId, now);
    var elapsed := now - data.createdAt;
    if elapsed > AnswerDeadline {
      return Timeout(elapsed);
    }
    if closestId == data.expectedAnswer {
      v := Success(challengeId, closestId, elapsed);
    } else {
      var correctSqDistance, chosenSqDistance :=
        FeedbackDistances(data.challenge.playerPos, data.challenge.targets, data.expectedAnswer, closestId);
      v := Failure(challengeId, data.expectedAnswer, closestId, correctSqDistance, chosenSqDistance);
    }
    store.Delete(challengeId);
  }

  /** A graded answer removes the record, so answering the same id again
      finds nothing. */
  method AnswerTwiceInTime(store: Store, challengeId: string, closestId: string, now: int)
    returns (first: Verdict, second: Verdict)
    requires challengeId in store.active
    requires now - store.active[challengeId].createdAt <= AnswerDeadline
    modifies store
    ensures first.Success? || first.Failure?
    ensures second == NotFound
    ensures store.active == old(store.active) - {challengeId}
  {
    first := AnswerChallenge(store, challengeId, closestId, now);
    second := AnswerChallenge(store, challengeId, closestId, now);
  }

  /** A late answer leaves the record in place: answering again (still too
      late) times out again rather than finding nothing, until the sweep
      removes the record. */
  method AnswerTwiceLate(store: Store, challengeId: string, closestId: string, now: int, later: int)
    returns (first: Verdict, second: Verdict)
    requires challengeId in store.active
    requires now - store.active[challengeId].createdAt > AnswerDeadline
    requires later >= now
    modifies store
    ensures first.Timeout? && second.Timeout?
    ensures store.active == old(store.active)
  {
    first := AnswerChallenge(store, challengeId, closestId, now);
    second := AnswerChallenge(store, challengeId, closestId, later);
  }
}
