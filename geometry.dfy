/** Points in space, the distance between them and the nearest-target scan
    (`distance3D` and `findClosestTarget`).

    The source compares `math.Sqrt` of the sum of squares; this model
    compares the sums of squares themselves. `SqrtPreservesOrder` shows that
    the two comparisons agree, so the scan picks the same target. */
module Geometry {

  datatype Coordinate = Coordinate(id: string, x: real, y: real, z: real)

  function Square(a: real): real {
    a * a
  }

  lemma SquareSign(a: real)
    ensures Square(a) >= 0.0
    ensures Square(a) == 0.0 <==> a == 0.0
  {
    if a > 0.0 {
      calc { Square(a); == a * a; > 0.0; }
    } else if a < 0.0 {
      calc { Square(a); == a * a; > 0.0; }
    }
  }

  /** Square of the Euclidean distance between `p` and `q` (the radicand of
      `distance3D`). It is never negative and is zero exactly when the two
      points have the same coordinates, whatever their identifiers. */
  function SqDist(p: Coordinate, q: Coordinate): (d: real)
    ensures d >= 0.0
    ensures d == 0.0 <==> SamePosition(p, q)
  {
    SquareSign(p.x - q.x);
    SquareSign(p.y - q.y);
    SquareSign(p.z - q.z);
    Square(p.x - q.x) + Square(p.y - q.y) + Square(p.z - q.z)
  }

  predicate SamePosition(p: Coordinate, q: Coordinate) {
    p.x == q.x && p.y == q.y && p.z == q.z
  }

  /** Distance does not depend on the order of its arguments. */
  lemma SqDistSymmetric(p: Coordinate, q: Coordinate)
    ensures SqDist(p, q) == SqDist(q, p)
  {
  }

  /** `r` is the (non-negative) square root of `s`, as `math.Sqrt` computes it. */
  ghost predicate IsSqrt(r: real, s: real) {
    r >= 0.0 && r * r == s
  }

  /** Comparing square roots with `<` gives the same answer as comparing the
      squares, so a scan over squared distances keeps the same target. */
  lemma SqrtPreservesOrder(a: real, s: real, b: real, t: real)
    requires IsSqrt(a, s) && IsSqrt(b, t)
    ensures a < b <==> s < t
  {
    if a < b {
      calc { s; == a * a; <= a * b; < b * b; == t; }
    } else {
      calc { t; == b * b; <= b * a; <= a * a; == s; }
    }
  }

  /** Index `k` is the target the scan should report: no target is strictly
      closer to `player`, and every earlier target is strictly farther
      (earlier targets win ties). */
  ghost predicate IsFirstClosest(player: Coordinate, targets: seq<Coordinate>, k: int) {
    && 0 <= k < |targets|
    && (forall j :: 0 <= j < |targets| ==> SqDist(player, targets[k]) <= SqDist(player, targets[j]))
    && (forall j :: 0 <= j < k ==> SqDist(player, targets[k]) < SqDist(player, targets[j]))
  }

  /** Index of the first closest target: the scan of `findClosestTarget`
      over the targets in order, replacing the candidate only on a strictly
      smaller distance. */
  function ClosestIndex(player: Coordinate, targets: seq<Coordinate>): (k: nat)
    requires |targets| > 0
    ensures IsFirstClosest(player, targets, k)
  {
    if |targets| == 1 then 0
    else
      var k := ClosestIndex(player, targets[..|targets| - 1]);
      if SqDist(player, targets[|targets| - 1]) < SqDist(player, targets[k]) then |targets| - 1 else k
  }

  /** The identifier `findClosestTarget` returns: the empty string when there
      are no targets, else the identifier of the first closest target. */
  function ClosestTargetId(player: Coordinate, targets: seq<Coordinate>): (r: string)
    ensures |targets| == 0 ==> r == ""
    ensures |targets| > 0 ==> exists k :: IsFirstClosest(player, targets, k) && r == targets[k].id
    ensures forall k :: IsFirstClosest(player, targets, k) ==> r == targets[k].id
  {
    if |targets| == 0 then "" else
      var k := ClosestIndex(player, targets);
      FirstClosestUnique(player, targets, k);
      targets[k].id
  }

  /** Only one index can be the first closest target. */
  lemma FirstClosestUnique(player: Coordinate, targets: seq<Coordinate>, k: int)
    requires IsFirstClosest(player, targets, k)
    ensures forall j :: IsFirstClosest(player, targets, j) ==> j == k
  {
    forall j | IsFirstClosest(player, targets, j)
      ensures j == k
    {
      assert SqDist(player, targets[k]) <= SqDist(player, targets[j]);
      assert SqDist(player, targets[j]) <= SqDist(player, targets[k]);
    }
  }

  predicate HasNonEmptyIds(targets: seq<Coordinate>) {
    forall i :: 0 <= i < |targets| ==> targets[i].id != ""
  }

  /** When no target has an empty identifier, the empty answer means
      exactly that there were no targets. */
  lemma EmptyAnswerIffNoTargets(player: Coordinate, targets: seq<Coordinate>)
    requires HasNonEmptyIds(targets)
    ensures ClosestTargetId(player, targets) == "" <==> |targets| == 0
  {
  }

  /** `findClosestTarget`: a single pass that remembers the best identifier
      and its distance, replacing them only on a strictly smaller distance. */
  method FindClosestTarget(playerPos: Coordinate, targets: seq<Coordinate>) returns (closestId: string)
    ensures closestId == ClosestTargetId(playerPos, targets)
    ensures |targets| > 0 ==> exists k :: IsFirstClosest(playerPos, targets, k) && closestId == targets[k].id
  {
    if |targets| == 0 {
      return "";
    }
    closestId := targets[0].id;
    var minDistance := SqDist(playerPos, targets[0]);
    ghost var k := 0;
    for i := 1 to |targets|
      invariant k == ClosestIndex(playerPos, targets[..i])
      invariant closestId == targets[k].id && minDistance == SqDist(playerPos, targets[k])
    {
      assert targets[..i + 1][..i] == targets[..i];
      var dist := SqDist(playerPos, targets[i]);
      if dist < minDistance {
        minDistance := dist;
        closestId := targets[i].id;
        k := i;
      }
    }
    assert targets[..|targets|] == targets;
  }
}
