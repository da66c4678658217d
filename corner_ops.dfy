/**
 * Corner operators of the corner-table mesh (geomUtils/inc/mesh.h and
 * geomUtils/src/mesh.cpp). A corner index `c` belongs to triangle `c / 3`;
 * the opposite table maps a corner to the corner across its opposite edge,
 * with -1 marking a boundary.
 *
 * Indices are C++ `int`s and `/`, `%` truncate toward zero, so the operators
 * are also defined on the sentinel -1: `n(-1) == 0`, `p(-1) == 1`. This is
 * what makes a swing across a boundary land on corner 0.
 */
module CornerOps {
  import opened Wrappers

  /** Largest fan the swing loops are allowed to walk (mesh.h, MAX_VALENCE). */
  const MAX_VALENCE: nat := 100

  /** C++ integer quotient by three: truncates toward zero. */
  function Quot3(a: int): (q: int)
    ensures a >= 0 ==> q == a / 3
    ensures a < 0 ==> q == -((-a) / 3)
  {
    if a >= 0 then a / 3 else -((-a) / 3)
  }

  /** C++ remainder by three: takes the sign of the dividend. */
  function Rem3(a: int): (r: int)
    ensures a == 3 * Quot3(a) + r
    ensures a >= 0 ==> 0 <= r < 3
    ensures a < 0 ==> -3 < r <= 0
  {
    a - 3 * Quot3(a)
  }

  /** t(c): the triangle of a corner. */
  function T(c: int): (t: int)
    ensures c >= 0 ==> 3 * t <= c < 3 * t + 3
    ensures c == -1 ==> t == 0
  {
    Quot3(c)
  }

  /** c(t): the first corner of a triangle. */
  function Corner(t: int): int
  {
    t * 3
  }

  /** offset(c): the position of a corner inside its triangle. */
  function Offset(c: int): (k: int)
    ensures c >= 0 ==> 0 <= k < 3 && Corner(T(c)) + k == c
  {
    Rem3(c)
  }

  /** n(c): the next corner around the same triangle. */
  function N(c: int): (r: int)
    requires c >= -1
    ensures c >= 0 ==> T(r) == T(c) && r != c && 0 <= r
    ensures c == -1 ==> r == 0
  {
    if c == -1 then 0 else if Offset(c) == 2 then c - 2 else c + 1
  }

  /** p(c): the previous corner around the same triangle. */
  function P(c: int): (r: int)
    requires c >= -1
    ensures c >= 0 ==> T(r) == T(c) && r != c && 0 <= r
    ensures c == -1 ==> r == 1
  {
    if c == -1 then 1 else if Offset(c) == 0 then c + 2 else c - 1
  }

  /** The source writes n and p as `3 * t(c) + (c + 1) % 3` and `3 * t(c) + (c + 2) % 3`. */
  lemma NextPrevArithmetic(c: int)
    requires c >= -1
    ensures N(c) == 3 * T(c) + Rem3(c + 1)
    ensures P(c) == 3 * T(c) + Rem3(c + 2)
  {
  }

  /** n and p are mutually inverse, n has order three, and p is n twice. */
  lemma NextPrev(c: int)
    requires c >= 0
    ensures N(P(c)) == c && P(N(c)) == c
    ensures N(N(c)) == P(c) && P(P(c)) == N(c)
    ensures N(N(N(c))) == c
  {
  }

  /** A corner below a multiple of three keeps its n and p below it too. */
  lemma StaysBelow(c: int, nc: int)
    requires 0 <= c < nc && nc % 3 == 0
    ensures N(c) < nc && P(c) < nc
  {
  }

  /**
   * The live part of an opposite table: `nc` corners, every entry -1 or a
   * live corner. Entries at and above `nc` are stale and ignored.
   */
  ghost predicate Bounded(ot: seq<int>, nc: int)
  {
    0 <= nc <= |ot| && nc % 3 == 0 &&
    forall c :: 0 <= c < nc ==> -1 <= ot[c] < nc
  }

  /** The central invariant: opposites are a fixed-point-free involution. */
  ghost predicate Consistent(ot: seq<int>, nc: int)
  {
    Bounded(ot, nc) &&
    forall c :: 0 <= c < nc && ot[c] != -1 ==> ot[c] != c && ot[ot[c]] == c
  }

  /** l(c) = o(n(c)): the corner on the left. */
  function L(ot: seq<int>, nc: int, c: int): (r: int)
    requires Bounded(ot, nc) && 0 <= c < nc
    ensures -1 <= r < nc
  {
    StaysBelow(c, nc);
    ot[N(c)]
  }

  /** r(c) = o(p(c)): the corner on the right. */
  function R(ot: seq<int>, nc: int, c: int): (r: int)
    requires Bounded(ot, nc) && 0 <= c < nc
    ensures -1 <= r < nc
  {
    StaysBelow(c, nc);
    ot[P(c)]
  }

  /** s(c) = n(l(c)): the next corner of the same vertex, swinging. */
  function S(ot: seq<int>, nc: int, c: int): (r: int)
    requires Bounded(ot, nc) && 0 <= c < nc
    ensures 0 <= r < nc
    ensures L(ot, nc, c) == -1 ==> r == 0
  {
    StaysBelow(if L(ot, nc, c) == -1 then 0 else L(ot, nc, c), nc);
    N(L(ot, nc, c))
  }

  /** u(c) = p(r(c)): the previous corner of the same vertex (unswing). */
  function U(ot: seq<int>, nc: int, c: int): (r: int)
    requires Bounded(ot, nc) && 0 <= c < nc
    ensures 0 <= r < nc
    ensures R(ot, nc, c) == -1 ==> r == 1
  {
    StaysBelow(if R(ot, nc, c) == -1 then 0 else R(ot, nc, c), nc);
    P(R(ot, nc, c))
  }

  /** On a consistent table, unswing undoes swing wherever there is a left neighbour. */
  lemma UnswingSwing(ot: seq<int>, nc: int, c: int)
    requires Consistent(ot, nc) && 0 <= c < nc
    requires L(ot, nc, c) != -1
    ensures U(ot, nc, S(ot, nc, c)) == c
  {
    var l := L(ot, nc, c);
    NextPrev(l);
    NextPrev(c);
    assert ot[l] == N(c);
  }

  /** On a consistent table, swing undoes unswing wherever there is a right neighbour. */
  lemma SwingUnswing(ot: seq<int>, nc: int, c: int)
    requires Consistent(ot, nc) && 0 <= c < nc
    requires R(ot, nc, c) != -1
    ensures S(ot, nc, U(ot, nc, c)) == c
  {
    var r := R(ot, nc, c);
    NextPrev(r);
    NextPrev(c);
    assert ot[r] == P(c);
  }

  /** Across a boundary the swing does not stop: it continues at corner 0. */
  lemma SwingAcrossBoundary(ot: seq<int>, nc: int, c: int)
    requires Bounded(ot, nc) && 0 <= c < nc
    requires L(ot, nc, c) == -1
    ensures S(ot, nc, c) == 0 && T(S(ot, nc, c)) == 0
  {
  }

  /** `s` applied `k` times. */
  function SwingPow(ot: seq<int>, nc: int, c: int, k: nat): (r: int)
    requires Bounded(ot, nc) && 0 <= c < nc
    ensures 0 <= r < nc
  {
    if k == 0 then c else S(ot, nc, SwingPow(ot, nc, c, k - 1))
  }

  /**
   * The Swing_iterator: the corner it stands on and whether it has been
   * advanced at least once. begin(c) is (c, false) and end(c) is (c, true).
   */
  datatype SwingIter = SwingIter(corner: int, stepped: bool)

  /** Swing_iterator::operator++ (mesh.h): swing once and mark the iterator as stepped. */
  function Advance(ot: seq<int>, nc: int, it: SwingIter): (r: SwingIter)
    requires Bounded(ot, nc) && 0 <= it.corner < nc
    ensures r.stepped && 0 <= r.corner < nc
    ensures Consistent(ot, nc) && L(ot, nc, it.corner) != -1 ==>
              U(ot, nc, r.corner) == it.corner
  {
    assert Consistent(ot, nc) && L(ot, nc, it.corner) != -1 ==>
             U(ot, nc, S(ot, nc, it.corner)) == it.corner by {
      if Consistent(ot, nc) && L(ot, nc, it.corner) != -1 {
        UnswingSwing(ot, nc, it.corner);
      }
    }
    SwingIter(S(ot, nc, it.corner), true)
  }

  /**
   * The corners a loop `for (it; it != endSwing(stop); ++it)` visits, given
   * at most `fuel` visits; None if it would need more.
   */
  function Walk(ot: seq<int>, nc: int, it: SwingIter, stop: int, fuel: nat): Option<seq<int>>
    requires Bounded(ot, nc) && 0 <= it.corner < nc
    decreases fuel
  {
    if it == SwingIter(stop, true) then Some([])
    else if fuel == 0 then None
    else match Walk(ot, nc, Advance(ot, nc, it), stop, fuel - 1)
      case None => None
      case Some(rest) => Some([it.corner] + rest)
  }

  /** The corners visited by iterating from beginSwing(start) to endSwing(stop). */
  function SwingRun(ot: seq<int>, nc: int, start: int, stop: int, fuel: nat): Option<seq<int>>
    requires Bounded(ot, nc) && 0 <= start < nc
  {
    Walk(ot, nc, SwingIter(start, false), stop, fuel)
  }

  /** A finished walk lists the successive swings of its first corner. */
  lemma {:induction false} WalkOrbit(ot: seq<int>, nc: int, it: SwingIter, stop: int, fuel: nat)
    requires Bounded(ot, nc) && 0 <= it.corner < nc
    requires Walk(ot, nc, it, stop, fuel).Some?
    ensures var run := Walk(ot, nc, it, stop, fuel).value;
      |run| <= fuel && (!it.stepped ==> |run| > 0) &&
      forall j :: 0 <= j < |run| ==> run[j] == SwingPow(ot, nc, it.corner, j)
    decreases fuel
  {
    if it != SwingIter(stop, true) {
      var next := Advance(ot, nc, it);
      WalkOrbit(ot, nc, next, stop, fuel - 1);
      var rest := Walk(ot, nc, next, stop, fuel - 1).value;
      forall j | 0 < j <= |rest|
        ensures SwingPow(ot, nc, it.corner, j) == SwingPow(ot, nc, next.corner, j - 1)
      {
        SwingPowShift(ot, nc, it.corner, j);
      }
    }
  }

  /** A finished walk ends at the first swing of its first corner that reaches `stop`. */
  lemma {:induction false} WalkStops(ot: seq<int>, nc: int, it: SwingIter, stop: int, fuel: nat)
    requires Bounded(ot, nc) && 0 <= it.corner < nc
    requires Walk(ot, nc, it, stop, fuel).Some?
    ensures var run := Walk(ot, nc, it, stop, fuel).value;
      SwingPow(ot, nc, it.corner, |run|) == stop &&
      (forall j :: 0 < j < |run| ==> SwingPow(ot, nc, it.corner, j) != stop) &&
      (it.stepped && |run| > 0 ==> it.corner != stop)
    decreases fuel
  {
    if it != SwingIter(stop, true) {
      var next := Advance(ot, nc, it);
      WalkStops(ot, nc, next, stop, fuel - 1);
      var rest := Walk(ot, nc, next, stop, fuel - 1).value;
      forall j | 0 < j <= |rest| + 1
        ensures SwingPow(ot, nc, it.corner, j) == SwingPow(ot, nc, next.corner, j - 1)
      {
        SwingPowShift(ot, nc, it.corner, j);
      }
    }
  }

  lemma {:induction false} SwingPowShift(ot: seq<int>, nc: int, c: int, j: nat)
    requires Bounded(ot, nc) && 0 <= c < nc && j > 0
    ensures SwingPow(ot, nc, c, j) == SwingPow(ot, nc, S(ot, nc, c), j - 1)
    decreases j
  {
    if j > 1 {
      SwingPowShift(ot, nc, c, j - 1);
    }
  }

  /**
   * A closed swing run is the orbit of its start: it lists s^0(c), s^1(c), ...
   * and its length is the first k >= 1 with s^k(c) == c.
   */
  lemma SwingRunIsOrbit(ot: seq<int>, nc: int, c: int, fuel: nat)
    requires Bounded(ot, nc) && 0 <= c < nc
    requires SwingRun(ot, nc, c, c, fuel).Some?
    ensures var run := SwingRun(ot, nc, c, c, fuel).value;
      1 <= |run| <= fuel &&
      (forall j :: 0 <= j < |run| ==> run[j] == SwingPow(ot, nc, c, j)) &&
      SwingPow(ot, nc, c, |run|) == c &&
      (forall j :: 0 < j < |run| ==> SwingPow(ot, nc, c, j) != c)
  {
    WalkOrbit(ot, nc, SwingIter(c, false), c, fuel);
    WalkStops(ot, nc, SwingIter(c, false), c, fuel);
  }
}
