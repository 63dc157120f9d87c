/** Challenge generation (`generateChallenge`). The pseudo-random draws and
    the clock reading are parameters, in the order the source consumes them:
    `idDraw` is the result of `rand.Intn(999999)`, `countDraw` that of
    `rand.Intn(4)`, and `coordDraws` holds the `rand.Float64()` results,
    three per target (x, y, z), target by target. */
module Generator {
  import opened Geometry
  import opened Decimal

  /** Exclusive bound passed to `rand.Intn` for the challenge number. */
  const ChallengeNumberRange: nat := 999999
  /** Fewest targets in a challenge. */
  const MinTargets: nat := 5
  /** Exclusive bound passed to `rand.Intn` for the extra targets. */
  const ExtraTargetRange: nat := 4
  /** Width of the x and y ranges, and of the z range. */
  const HorizontalSpan: real := 200.0
  const VerticalSpan: real := 100.0

  const ChallengePrefix: string := "TARG-"
  const TargetPrefix: string := "T"

  datatype TargetChallenge = TargetChallenge(
    challengeId: string,
    playerPos: Coordinate,
    targets: seq<Coordinate>,
    timestamp: int)

  /** The player always stands at the origin. */
  const PlayerAtOrigin: Coordinate := Coordinate("PLAYER", 0.0, 0.0, 0.0)

  function ChallengeIdFor(n: nat): string {
    ChallengePrefix + NatToString(n)
  }

  /** Identifier of the target at 0-based position `i`: `T1`, `T2`, ... */
  function TargetIdFor(i: nat): string {
    TargetPrefix + NatToString(i + 1)
  }

  /** Maps a draw from [0, 1) to a coordinate centred on zero. */
  function Spread(draw: real, span: real): real {
    (draw - 0.5) * span
  }

  /** What the source's `rand` calls can return for one challenge. */
  predicate ValidDraws(idDraw: nat, countDraw: nat, coordDraws: seq<real>) {
    && idDraw < ChallengeNumberRange
    && countDraw < ExtraTargetRange
    && |coordDraws| >= 3 * (MinTargets + countDraw)
  }

  /** Every coordinate draw lies in [0, 1), as `rand.Float64` guarantees. */
  predicate UnitDraws(coordDraws: seq<real>) {
    forall k :: 0 <= k < |coordDraws| ==> 0.0 <= coordDraws[k] < 1.0
  }

  function TargetFor(i: nat, coordDraws: seq<real>): Coordinate
    requires 3 * i + 2 < |coordDraws|
  {
    Coordinate(
      TargetIdFor(i),
      Spread(coordDraws[3 * i], HorizontalSpan),
      Spread(coordDraws[3 * i + 1], HorizontalSpan),
      Spread(coordDraws[3 * i + 2], VerticalSpan))
  }

  /** The challenge the source builds from the given draws and clock. */
  function Generated(idDraw: nat, countDraw: nat, coordDraws: seq<real>, unixSeconds: int): TargetChallenge
    requires ValidDraws(idDraw, countDraw, coordDraws)
  {
    var n := MinTargets + countDraw;
    TargetChallenge(
      ChallengeIdFor(idDraw),
      PlayerAtOrigin,
      seq(n, i requires 0 <= i < n => TargetFor(i, coordDraws)),
      unixSeconds)
  }

  /** `generateChallenge`: fills a fresh slice of targets one by one. */
  method GenerateChallenge(idDraw: nat, countDraw: nat, coordDraws: seq<real>, unixSeconds: int)
    returns (c: TargetChallenge)
    requires ValidDraws(idDraw, countDraw, coordDraws)
    ensures c == Generated(idDraw, countDraw, coordDraws, unixSeconds)
  {
    var challengeId := ChallengePrefix + NatToString(idDraw);
    var playerPos := Coordinate("PLAYER", 0.0, 0.0, 0.0);
    var numTargets := MinTargets + countDraw;
    var targets := new Coordinate[numTargets];
    for i := 0 to numTargets
      invariant forall j :: 0 <= j < i ==> targets[j] == TargetFor(j, coordDraws)
    {
      targets[i] := Coordinate(
        TargetPrefix + NatToString(i + 1),
        (coordDraws[3 * i] - 0.5) * HorizontalSpan,
        (coordDraws[3 * i + 1] - 0.5) * HorizontalSpan,
        (coordDraws[3 * i + 2] - 0.5) * VerticalSpan);
    }
    c := TargetChallenge(challengeId, playerPos, targets[..], unixSeconds);
  }

  predicate DistinctIds(targets: seq<Coordinate>) {
    forall i, j :: 0 <= i < j < |targets| ==> targets[i].id != targets[j].id
  }

  /** The shape every generated challenge has. */
  predicate WellFormed(c: TargetChallenge) {
    && c.playerPos == PlayerAtOrigin
    && MinTargets <= |c.targets| < MinTargets + ExtraTargetRange
    && (forall i :: 0 <= i < |c.targets| ==> c.targets[i].id == TargetIdFor(i))
    && DistinctIds(c.targets)
    && HasNonEmptyIds(c.targets)
  }

  /** The player is at the origin, there are 5 to 8 targets, target `i` is
      named `T(i+1)`, and so no two targets share an identifier. */
  lemma GeneratedWellFormed(idDraw: nat, countDraw: nat, coordDraws: seq<real>, unixSeconds: int)
    requires ValidDraws(idDraw, countDraw, coordDraws)
    ensures WellFormed(Generated(idDraw, countDraw, coordDraws, unixSeconds))
    ensures |Generated(idDraw, countDraw, coordDraws, unixSeconds).targets| == MinTargets + countDraw
  {
    var ts := Generated(idDraw, countDraw, coordDraws, unixSeconds).targets;
    forall i, j | 0 <= i < j < |ts|
      ensures ts[i].id != ts[j].id
    {
      PrefixedNatInjective(TargetPrefix, i + 1, j + 1);
    }
  }

  /** For draws in [0, 1), x and y lie in [-100, 100) and z in [-50, 50). */
  lemma GeneratedWithinBounds(idDraw: nat, countDraw: nat, coordDraws: seq<real>, unixSeconds: int)
    requires ValidDraws(idDraw, countDraw, coordDraws) && UnitDraws(coordDraws)
    ensures forall t :: t in Generated(idDraw, countDraw, coordDraws, unixSeconds).targets ==>
      && -100.0 <= t.x < 100.0
      && -100.0 <= t.y < 100.0
      && -50.0 <= t.z < 50.0
  {
  }

  /** The challenge identifier is `TARG-` followed by the decimal digits of
      the drawn number, which lies in [0, 999999) and can be read back. */
  lemma ChallengeIdDecodes(idDraw: nat, countDraw: nat, coordDraws: seq<real>, unixSeconds: int)
    requires ValidDraws(idDraw, countDraw, coordDraws)
    ensures var id := Generated(idDraw, countDraw, coordDraws, unixSeconds).challengeId;
      && |id| > |ChallengePrefix|
      && id[..|ChallengePrefix|] == ChallengePrefix
      && AllDigits(id[|ChallengePrefix|..])
      && ParseDigits(id[|ChallengePrefix|..]) == idDraw < ChallengeNumberRange
  {
    var id := Generated(idDraw, countDraw, coordDraws, unixSeconds).challengeId;
    assert id[|ChallengePrefix|..] == NatToString(idDraw);
    ParseNatToString(idDraw);
  }

  /** Two challenges get the same identifier exactly when the same number
      was drawn; the source does nothing else against collisions. */
  lemma ChallengeIdCollision(a: nat, b: nat)
    ensures ChallengeIdFor(a) == ChallengeIdFor(b) <==> a == b
  {
    PrefixedNatInjective(ChallengePrefix, a, b);
  }
}
