/**
 * The polygonal curve of nonRefactored/geomComponents/src/curve.cpp,
 * structure only: points are of an opaque type `Pt`, and each way the
 * source builds a new point from others is a function parameter.
 */
module Curves {

  /** next(index) on a curve of `n` points: wraps round on a closed curve, stops at the last point on an open one. */
  function Next(i: int, n: nat, closed: bool): (j: int)
    requires 0 <= i < n
    ensures 0 <= j < n
    ensures closed ==> j == if i + 1 == n then 0 else i + 1
    ensures !closed ==> j == if i + 1 == n then n - 1 else i + 1
  {
    if closed then (i + 1) % n
    else if i + 1 < n - 1 then i + 1 else n - 1
  }

  /** prev(index) on a curve of `n` points: wraps round on a closed curve, stops at the first point on an open one. */
  function Prev(i: int, n: nat, closed: bool): (j: int)
    requires 0 <= i < n
    ensures 0 <= j < n
    ensures closed ==> j == if i == 0 then n - 1 else i - 1
    ensures !closed ==> j == if i == 0 then 0 else i - 1
  {
    if closed then (i - 1 + n) % n
    else if i - 1 > 0 then i - 1 else 0
  }

  /** On a closed curve next and prev undo each other. */
  lemma ClosedNextPrev(i: int, n: nat)
    requires 0 <= i < n
    ensures Prev(Next(i, n, true), n, true) == i
    ensures Next(Prev(i, n, true), n, true) == i
  {
  }

  /** On an open curve they undo each other away from the ends, and each end is a fixed point. */
  lemma OpenNextPrev(i: int, n: nat)
    requires 0 <= i < n
    ensures i + 1 < n ==> Prev(Next(i, n, false), n, false) == i
    ensures 0 < i ==> Next(Prev(i, n, false), n, false) == i
    ensures Next(i, n, false) == i <==> i == n - 1
    ensures Prev(i, n, false) == i <==> i == 0
  {
  }

  class Curve<Pt> {
    var points: seq<Pt>
    const closed: bool

    /** Curve(fClosed): no points yet. */
    constructor (fClosed: bool)
      ensures points == [] && closed == fClosed
    {
      points := [];
      closed := fClosed;
    }

    /** nv(): the number of points. */
    function Nv(): (n: nat)
      reads this
      ensures n == |points|
    {
      |points|
    }

    /** addPoint(point): the point goes last. */
    method AddPoint(point: Pt)
      modifies this
      ensures points == old(points) + [point]
      ensures Nv() == old(Nv()) + 1
    {
      points := points + [point];
    }

    /** setPoint(index, point): only that slot changes. */
    method SetPoint(index: int, point: Pt)
      requires 0 <= index < |points|
      modifies this
      ensures points == old(points)[index := point]
    {
      points := points[index := point];
    }

    /**
     * tuck(amount) and untuck(amount): every point is moved towards (or
     * away from) the midpoint of its two neighbours; `shift(p, before, after)`
     * is that move, amount and sign included.
     */
    method Tuck(shift: (Pt, Pt, Pt) -> Pt)
      modifies this
      ensures |points| == |old(points)|
      ensures forall i :: 0 <= i < |points| ==>
        points[i] == shift(old(points)[i], old(points)[Prev(i, |points|, closed)], old(points)[Next(i, |points|, closed)])
    {
      var tucked: seq<Pt> := [];
      var i := 0;
      while i < |points|
        invariant 0 <= i <= |points| && |tucked| == i
        invariant forall k :: 0 <= k < i ==>
          tucked[k] == shift(points[k], points[Prev(k, |points|, closed)], points[Next(k, |points|, closed)])
      {
        tucked := tucked + [shift(points[i], points[Prev(i, |points|, closed)], points[Next(i, |points|, closed)])];
        i := i + 1;
      }
      points := tucked;
    }

    /**
     * refine(): after every point comes the midpoint `mid` of it and its
     * next point, so the count doubles and point i moves to 2i.
     */
    method Refine(mid: (Pt, Pt) -> Pt)
      modifies this
      ensures |points| == 2 * |old(points)|
      ensures forall i :: 0 <= i < |old(points)| ==>
        points[2 * i] == old(points)[i] &&
        points[2 * i + 1] == mid(old(points)[i], old(points)[Next(i, |old(points)|, closed)])
    {
      var refined: seq<Pt> := [];
      var i := 0;
      while i < |points|
        invariant 0 <= i <= |points| && |refined| == 2 * i
        invariant forall k :: 0 <= k < i ==>
          refined[2 * k] == points[k] && refined[2 * k + 1] == mid(points[k], points[Next(k, |points|, closed)])
      {
        refined := refined + [points[i], mid(points[i], points[Next(i, |points|, closed)])];
        i := i + 1;
      }
      points := refined;
    }

    /** dual(): every point is replaced by the midpoint of it and its next point. */
    method Dual(mid: (Pt, Pt) -> Pt)
      modifies this
      ensures |points| == |old(points)|
      ensures forall i :: 0 <= i < |points| ==>
        points[i] == mid(old(points)[i], old(points)[Next(i, |points|, closed)])
    {
      var dualPoints: seq<Pt> := [];
      var i := 0;
      while i < |points|
        invariant 0 <= i <= |points| && |dualPoints| == i
        invariant forall k :: 0 <= k < i ==> dualPoints[k] == mid(points[k], points[Next(k, |points|, closed)])
      {
        dualPoints := dualPoints + [mid(points[i], points[Next(i, |points|, closed)])];
        i := i + 1;
      }
      points := dualPoints;
    }
  }
}
