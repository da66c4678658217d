/**
 * The diagnostics of geomUtils/inc/mesh.h: getValence, isValenceBounded and
 * the two whole-mesh checks run by checkMesh. Each walks the swing fan of a
 * corner with a Swing_iterator or visits every corner, so each is a loop.
 * The messages the checks print become the list of corners they complain
 * about.
 */
module MeshChecks {
  import opened Wrappers
  import opened CornerOps

  /** The run from beginSwing(c) to endSwing(c) with at most `fuel` visits. */
  function FanWithin(ot: seq<int>, nc: int, c: int, fuel: nat): Option<seq<int>>
    requires Bounded(ot, nc) && 0 <= c < nc
  {
    SwingRun(ot, nc, c, c, fuel)
  }

  /** A walk that finishes with some fuel finishes the same way with more. */
  lemma {:induction false} WalkMoreFuel(ot: seq<int>, nc: int, it: SwingIter, stop: int, fuel: nat, more: nat)
    requires Bounded(ot, nc) && 0 <= it.corner < nc
    requires Walk(ot, nc, it, stop, fuel).Some? && fuel <= more
    ensures Walk(ot, nc, it, stop, more) == Walk(ot, nc, it, stop, fuel)
    decreases fuel
  {
    if it != SwingIter(stop, true) {
      WalkMoreFuel(ot, nc, Advance(ot, nc, it), stop, fuel - 1, more - 1);
    }
  }

  /** A fan that closes within a bound closes within every larger bound, with the same corners. */
  lemma FanMoreFuel(ot: seq<int>, nc: int, c: int, fuel: nat, more: nat)
    requires Bounded(ot, nc) && 0 <= c < nc
    requires FanWithin(ot, nc, c, fuel).Some? && fuel <= more
    ensures FanWithin(ot, nc, c, more) == FanWithin(ot, nc, c, fuel)
  {
    WalkMoreFuel(ot, nc, SwingIter(c, false), c, fuel, more);
  }

  /**
   * getValence(corner): the number of corners met swinging around the
   * vertex of `corner` until the walk is back at `corner`. The source loops
   * until then; here the walk gives up after `fuel` visits and answers None.
   * The count is the period of swinging: the first k >= 1 with s^k(c) == c.
   */
  method GetValence(ot: seq<int>, nc: int, corner: int, fuel: nat) returns (valence: Option<nat>)
    requires Bounded(ot, nc) && 0 <= corner < nc
    ensures valence.None? <==> FanWithin(ot, nc, corner, fuel).None?
    ensures valence.Some? ==>
      1 <= valence.value <= fuel && SwingPow(ot, nc, corner, valence.value) == corner &&
      forall j :: 0 < j < valence.value ==> SwingPow(ot, nc, corner, j) != corner
  {
    ghost var whole := FanWithin(ot, nc, corner, fuel);
    var count := 0;
    var it := SwingIter(corner, false);
    while it != SwingIter(corner, true)
      invariant 0 <= it.corner < nc && 0 <= count <= fuel
      invariant Remaining(ot, nc, whole, it, corner, fuel, count)
      decreases fuel - count
    {
      if count == fuel {
        return None;
      }
      WalkStep(ot, nc, whole, it, corner, fuel, count);
      it := Advance(ot, nc, it);
      count := count + 1;
    }
    SwingRunIsOrbit(ot, nc, corner, fuel);
    valence := Some(count);
  }

  /**
   * After `count` steps of a walk with `fuel` visits in all, the rest of the
   * walk decides whether the whole one finishes, and supplies its remaining
   * corners.
   */
  ghost predicate Remaining(ot: seq<int>, nc: int, whole: Option<seq<int>>, it: SwingIter, stop: int, fuel: nat, count: nat)
    requires Bounded(ot, nc) && 0 <= it.corner < nc && count <= fuel
  {
    var rest := Walk(ot, nc, it, stop, fuel - count);
    (whole.Some? <==> rest.Some?) &&
    (whole.Some? ==> |whole.value| == count + |rest.value|)
  }

  /** One more step of the walk keeps Remaining, or shows that the walk runs out. */
  lemma WalkStep(ot: seq<int>, nc: int, whole: Option<seq<int>>, it: SwingIter, stop: int, fuel: nat, count: nat)
    requires Bounded(ot, nc) && 0 <= it.corner < nc && count < fuel
    requires it != SwingIter(stop, true)
    requires Remaining(ot, nc, whole, it, stop, fuel, count)
    ensures Remaining(ot, nc, whole, Advance(ot, nc, it), stop, fuel, count + 1)
  {
  }

  /**
   * isValenceBounded(cIndex, maxValence): count the corners of the swing fan
   * and give up with false as soon as the count passes `maxValence`; true
   * when the fan closes first.
   */
  method IsValenceBounded(ot: seq<int>, nc: int, cIndex: int, maxValence: int) returns (bounded: bool)
    requires Bounded(ot, nc) && 0 <= cIndex < nc
    ensures bounded <==> 0 <= maxValence && FanWithin(ot, nc, cIndex, maxValence).Some?
  {
    ghost var fuel: nat := if maxValence < 0 then 0 else maxValence;
    ghost var whole := FanWithin(ot, nc, cIndex, fuel);
    var valence := 0;
    var it := SwingIter(cIndex, false);
    while it != SwingIter(cIndex, true)
      invariant 0 <= it.corner < nc && 0 <= valence <= fuel
      invariant Remaining(ot, nc, whole, it, cIndex, fuel, valence)
      decreases fuel - valence
    {
      valence := valence + 1;
      if valence > maxValence {
        return false;
      }
      WalkStep(ot, nc, whole, it, cIndex, fuel, valence - 1);
      it := Advance(ot, nc, it);
    }
    return true;
  }

  /** Corner `x` and its opposite point at each other (reading o(o(x)) needs o(x) to be a corner). */
  predicate Mutual(ot: seq<int>, nc: int, x: int)
    requires Bounded(ot, nc) && 0 <= x < nc
  {
    0 <= ot[x] && ot[ot[x]] == x
  }

  /** Strictly increasing: each corner reported once, in the order visited. */
  predicate Increasing(s: seq<int>)
  {
    forall i, j :: 0 <= i < j < |s| ==> s[i] < s[j]
  }

  /**
   * checkOConsistency: visit every corner and report those whose opposite's
   * opposite is not the corner itself. A boundary corner (o == -1) is
   * reported as well: the source would read o(-1) there.
   */
  method CheckOConsistency(ot: seq<int>, nc: int) returns (reported: seq<int>)
    requires Bounded(ot, nc)
    ensures forall x :: x in reported <==> 0 <= x < nc && !Mutual(ot, nc, x)
    ensures Increasing(reported)
  {
    reported := [];
    var c := 0;
    while c < nc
      invariant 0 <= c <= nc
      invariant forall x :: x in reported <==> 0 <= x < c && !Mutual(ot, nc, x)
      invariant Increasing(reported)
      invariant forall i :: 0 <= i < |reported| ==> reported[i] < c
    {
      if ot[c] < 0 || ot[ot[c]] != c {
        reported := reported + [c];
      }
      c := c + 1;
    }
  }

  /**
   * On a consistent table checkOConsistency reports exactly the boundary
   * corners; conversely a table on which it reports nothing, and where no
   * corner faces itself, is consistent and closed.
   */
  lemma ReportsBoundaries(ot: seq<int>, nc: int)
    requires Bounded(ot, nc)
    ensures Consistent(ot, nc) ==> forall x :: 0 <= x < nc ==> (!Mutual(ot, nc, x) <==> ot[x] == -1)
    ensures (forall x :: 0 <= x < nc ==> Mutual(ot, nc, x) && ot[x] != x) ==>
      Consistent(ot, nc) && forall x :: 0 <= x < nc ==> ot[x] != -1
  {
  }

  /** The swing fan of corner `x` closes within `fuel` corners. */
  ghost predicate Closes(ot: seq<int>, nc: int, x: int, fuel: nat)
    requires Bounded(ot, nc) && 0 <= x < nc
  {
    FanWithin(ot, nc, x, fuel).Some?
  }

  /**
   * checkMaxValence: visit every corner and report those whose swing fan
   * does not close within MAX_VALENCE corners.
   */
  method CheckMaxValence(ot: seq<int>, nc: int) returns (reported: seq<int>)
    requires Bounded(ot, nc)
    ensures forall x :: x in reported <==> 0 <= x < nc && !Closes(ot, nc, x, MAX_VALENCE)
    ensures Increasing(reported)
  {
    reported := ReportUnbounded(ot, nc, MAX_VALENCE);
  }

  /** The loop of checkMaxValence for a bound `maxValence`. */
  method ReportUnbounded(ot: seq<int>, nc: int, maxValence: nat) returns (reported: seq<int>)
    requires Bounded(ot, nc)
    ensures forall x :: x in reported <==> 0 <= x < nc && !Closes(ot, nc, x, maxValence)
    ensures Increasing(reported)
  {
    reported := [];
    var c := 0;
    while c < nc
      invariant 0 <= c <= nc
      invariant forall x :: x in reported <==> 0 <= x < c && !Closes(ot, nc, x, maxValence)
      invariant Increasing(reported)
      invariant forall i :: 0 <= i < |reported| ==> reported[i] < c
    {
      var ok := IsValenceBounded(ot, nc, c, maxValence);
      assert ok <==> Closes(ot, nc, c, maxValence);
      if !ok {
        reported := reported + [c];
      }
      c := c + 1;
    }
  }

  /**
   * checkMesh: checkOConsistency, then checkMaxValence. On a closed table
   * whose opposites are an involution the first reports nothing.
   */
  method CheckMesh(ot: seq<int>, nc: int) returns (inconsistent: seq<int>, unbounded: seq<int>)
    requires Bounded(ot, nc)
    ensures forall x :: x in inconsistent <==> 0 <= x < nc && !Mutual(ot, nc, x)
    ensures forall x :: x in unbounded <==> 0 <= x < nc && !Closes(ot, nc, x, MAX_VALENCE)
    ensures Consistent(ot, nc) && (forall x :: 0 <= x < nc ==> ot[x] != -1) ==> inconsistent == []
  {
    inconsistent := CheckOConsistency(ot, nc);
    unbounded := CheckMaxValence(ot, nc);
    ReportsBoundaries(ot, nc);
    if Consistent(ot, nc) && (forall x :: 0 <= x < nc ==> ot[x] != -1) && inconsistent != [] {
      assert inconsistent[0] in inconsistent;
    }
  }
}
