/**
 * The edit primitives of the corner-table mesh (geomUtils/inc/mesh.h,
 * MESH_ALGORITHMS region) as functions on a value that holds every table
 * the primitives touch. The `Mesh` class runs the same steps in place and
 * promises to end in the state these functions compute.
 *
 * Vectors are never shrunk by removals: entries at and above `nc` (corners)
 * or `nt` (triangles) are stale until `reclaimMemory`.
 */
module MeshTopology {
  import opened Wrappers
  import opened CornerOps

  /** One index-change notification: what lived at `from` now lives at `to` (-1: removed). */
  datatype Move = Move(from: int, to: int)

  /**
   * The tables of a mesh. `g` holds the opaque points, `removed` the vertex
   * tombstones, `vm`/`tm` the vertex and triangle markers; `tMoves` and
   * `vMoves` are the notifications sent so far, oldest first.
   */
  datatype MeshState<Pt> = MeshState(
    vt: seq<int>, ot: seq<int>, g: seq<Pt>, removed: seq<bool>,
    vm: seq<int>, tm: seq<int>,
    nv: int, nt: int, nc: int,
    tMoves: seq<Move>, vMoves: seq<Move>)

  /** The counters agree with each other and the vectors are long enough. */
  ghost predicate Sized<Pt>(m: MeshState<Pt>)
  {
    0 <= m.nt && m.nc == 3 * m.nt && 0 <= m.nv &&
    |m.vt| == |m.ot| == 3 * |m.tm| && m.nt <= |m.tm| &&
    |m.g| == |m.vm| == |m.removed| == m.nv
  }

  /** The shape invariant kept by every edit: the counters and vector sizes agree (Sized). */
  ghost predicate Valid<Pt>(m: MeshState<Pt>)
  {
    Sized(m)
  }

  /**
   * No corner is opposite a corner of its own triangle, on top of the
   * involution. computeO produces such tables (ComputeOpposites.FacingAcross).
   */
  ghost predicate Opposed(ot: seq<int>, nc: int)
  {
    Consistent(ot, nc) &&
    forall x :: 0 <= x < nc && ot[x] != -1 ==> T(ot[x]) != T(x)
  }

  /** Triangle `t` has no neighbours: its three opposite entries are -1. */
  ghost predicate Isolated(ot: seq<int>, t: int)
  {
    0 <= t && 3 * t + 3 <= |ot| &&
    ot[3 * t] == -1 && ot[3 * t + 1] == -1 && ot[3 * t + 2] == -1
  }

  /** Every live corner names a live vertex. */
  ghost predicate VerticesIn(vt: seq<int>, nc: int, nv: int)
  {
    0 <= nc <= |vt| && forall x :: 0 <= x < nc ==> 0 <= vt[x] < nv
  }

  /**
   * setOpposites(a, b): link both ways, skipping a side that is -1. The
   * source only tests for -1; any other index outside the table would be
   * written out of bounds there, and is skipped here as well.
   */
  function SetOpp(ot: seq<int>, a: int, b: int): (r: seq<int>)
    ensures |r| == |ot|
    ensures 0 <= a < |ot| ==> r[a] == b
    ensures 0 <= b < |ot| ==> r[b] == a
  {
    var r1 := if 0 <= a < |ot| then ot[a := b] else ot;
    if 0 <= b < |r1| then r1[b := a] else r1
  }

  /** setOpposites touches no entry but the two it links. */
  lemma SetOppOnly(ot: seq<int>, a: int, b: int)
    ensures forall x :: 0 <= x < |ot| && x != a && x != b ==> SetOpp(ot, a, b)[x] == ot[x]
  {
  }

  /** Linking two live corners keeps live entries in range. */
  lemma SetOppBounded(ot: seq<int>, nc: int, a: int, b: int)
    requires Bounded(ot, nc) && -1 <= a < nc && -1 <= b < nc
    ensures Bounded(SetOpp(ot, a, b), nc)
  {
  }

  /** Linking two distinct free corners keeps the table an involution. */
  lemma LinkKeepsConsistent(ot: seq<int>, nc: int, a: int, b: int)
    requires Consistent(ot, nc) && 0 <= a < nc && 0 <= b < nc && a != b
    requires ot[a] == -1 && ot[b] == -1
    ensures Consistent(SetOpp(ot, a, b), nc)
    ensures var r := SetOpp(ot, a, b); r[r[a]] == a && r[r[b]] == b
  {
    var r := SetOpp(ot, a, b);
    forall x | 0 <= x < nc && r[x] != -1
      ensures r[x] != x && r[r[x]] == x
    {
      if x != a && x != b {
        assert ot[x] != a && ot[x] != b;
      }
    }
  }

  /** `n(c)` and `n(n(c))` written for a corner that may be the sentinel. */
  lemma NextInTriangle(c: int, nc: int)
    requires 0 <= c < nc && nc % 3 == 0
    ensures N(c) < nc && N(N(c)) < nc && N(N(c)) == P(c)
  {
    NextPrev(c);
    StaysBelow(c, nc);
  }

  /**
   * zipAdjacent(c1, c2): once the edge between the triangles of `c1` and
   * `c2` goes away, their outer neighbours l(c1), r(c1) and l(c2), r(c2)
   * become each other's opposites.
   */
  function Zip(ot: seq<int>, nc: int, c1: int, c2: int): (r: seq<int>)
    requires Bounded(ot, nc) && 0 <= c1 < nc && 0 <= c2 < nc && c1 == ot[c2]
    ensures Bounded(r, nc)
  {
    var l1 := L(ot, nc, c1);
    var l2 := L(ot, nc, c2);
    var r1 := R(ot, nc, c1);
    var r2 := R(ot, nc, c2);
    SetOppBounded(ot, nc, l1, r1);
    SetOppBounded(SetOpp(ot, l1, r1), nc, l2, r2);
    SetOpp(SetOpp(ot, l1, r1), l2, r2)
  }

  /** setOTable(x, -1) for the corners n-ordered from `c`: the whole triangle of `c`. */
  function Invalidate(ot: seq<int>, nc: int, c: int): (r: seq<int>)
    requires Bounded(ot, nc) && 0 <= c < nc
    ensures |r| == |ot| && Bounded(r, nc) && Isolated(r, T(c))
    ensures forall x :: 0 <= x < |ot| && Outside(x, T(c)) ==> r[x] == ot[x]
  {
    NextInTriangle(c, nc);
    ot[c := -1][N(c) := -1][N(N(c)) := -1]
  }

  /**
   * Pass `i` of removeTriangle's relocation loop: corner `3 * to + i`
   * takes over the opposite of corner `3 * from + i`, and that opposite is
   * pointed back at it (setOpposites).
   */
  function RelocStep(cur: seq<int>, to: int, from: int, i: int): (r: seq<int>)
    requires 0 <= 3 * from + i < |cur|
    ensures |r| == |cur|
  {
    SetOpp(cur, 3 * to + i, cur[3 * from + i])
  }

  /** The first `k` passes of the relocation loop on the opposite table. */
  function RelocSteps(ot: seq<int>, to: int, from: int, k: nat): (r: seq<int>)
    requires 0 <= from && 3 * from + 3 <= |ot| && k <= 3
    ensures |r| == |ot|
  {
    if k == 0 then ot else RelocStep(RelocSteps(ot, to, from, k - 1), to, from, k - 1)
  }

  /** The three passes of the relocation loop on the opposite table. */
  function RelocOt(ot: seq<int>, to: int, from: int): (r: seq<int>)
    requires 0 <= from && 3 * from + 3 <= |ot|
    ensures |r| == |ot|
  {
    RelocSteps(ot, to, from, 3)
  }

  /** The relocation, pass by pass. */
  lemma RelocOtPasses(ot: seq<int>, to: int, from: int)
    requires 0 <= from && 3 * from + 3 <= |ot|
    ensures RelocOt(ot, to, from) == RelocStep(RelocStep(RelocStep(ot, to, from, 0), to, from, 1), to, from, 2)
  {
    assert RelocSteps(ot, to, from, 1) == RelocStep(ot, to, from, 0);
    assert RelocSteps(ot, to, from, 2) == RelocStep(RelocStep(ot, to, from, 0), to, from, 1);
  }

  /** The first `k` steps of the relocation loop on the vertex table. */
  function RelocV(vt: seq<int>, to: int, from: int, k: nat): (r: seq<int>)
    requires 0 <= to && 0 <= from && 3 * to + 3 <= |vt| && 3 * from + 3 <= |vt| && k <= 3
    ensures |r| == |vt|
    decreases k
  {
    if k == 0 then vt
    else
      var cur := RelocV(vt, to, from, k - 1);
      cur[3 * to + k - 1 := cur[3 * from + k - 1]]
  }

  /** The relocation copies the last triangle's vertices into the freed slot. */
  lemma RelocVMoves(vt: seq<int>, to: int, from: int)
    requires 0 <= to < from && 3 * from + 3 <= |vt|
    ensures var r := RelocV(vt, to, from, 3);
      r[3 * to] == vt[3 * from] && r[3 * to + 1] == vt[3 * from + 1] && r[3 * to + 2] == vt[3 * from + 2] &&
      (forall x :: 0 <= x < |vt| && Outside(x, to) ==> r[x] == vt[x])
  {
  }

  /** removeTriangle's effect on the vertex table: relocate unless the removed triangle is the last. */
  function RemovedV(vt: seq<int>, to: int, from: int): (r: seq<int>)
    requires 0 <= to <= from && 3 * from + 3 <= |vt|
    ensures |r| == |vt|
  {
    if to != from then RelocV(vt, to, from, 3) else vt
  }

  /** removeTriangle's effect on the opposite table: relocate unless the removed triangle is the last. */
  function RemovedOt(ot: seq<int>, nc: int, to: int, from: int): (r: seq<int>)
    requires 0 <= to <= from && 3 * from + 3 <= nc <= |ot|
    ensures |r| == |ot|
  {
    if to != from then RelocOt(ot, to, from) else ot
  }

  /** Where a corner lives once triangle `from` has been moved into slot `to`. */
  function Moved(x: int, to: int, from: int): (y: int)
    ensures !Outside(x, from) ==> !Outside(y, to) && y - 3 * to == x - 3 * from
    ensures Outside(x, from) ==> y == x
  {
    if Outside(x, from) then x else x - 3 * from + 3 * to
  }

  /**
   * removeTriangle(corner): the last triangle `nt - 1` is moved into the
   * slot of the removed one (its vertices, opposites and marker), a
   * notification `(nt - 1, t(corner))` is sent, and the counters drop.
   * Nothing moves and nothing is sent when the removed triangle is the last.
   */
  function RemoveTriangle<Pt>(m: MeshState<Pt>, corner: int): (r: MeshState<Pt>)
    requires Valid(m) && 0 <= corner < m.nc
    ensures Valid(r) && r.nt == m.nt - 1 && r.nc == m.nc - 3
  {
    var to := T(corner);
    var from := m.nt - 1;
    m.(vt := RemovedV(m.vt, to, from),
       ot := RemovedOt(m.ot, m.nc, to, from),
       tm := RemovedTm(m.tm, to, from),
       tMoves := m.tMoves + Notice(m.nt, corner),
       nt := m.nt - 1, nc := m.nc - 3)
  }

  /** removeTriangle's effect on the triangle markers: the last triangle's marker lands in the freed slot. */
  function RemovedTm(tm: seq<int>, to: int, from: int): (r: seq<int>)
    requires 0 <= to <= from < |tm|
    ensures |r| == |tm| && r[to] == tm[from]
  {
    if to != from then tm[to := tm[from]] else tm
  }

  /** The notification removeTriangle(corner) sends in a mesh of `nt` triangles: none when the last one goes. */
  function Notice(nt: int, corner: int): seq<Move>
  {
    if T(corner) != nt - 1 then [Move(nt - 1, T(corner))] else []
  }

  /**
   * What removeTriangle does to the markers and logs: the last triangle's
   * marker lands in the freed slot and exactly one notification is sent
   * when (and only when) a triangle moved; the vertex tables stay.
   */
  lemma RemoveTriangleLog<Pt>(m: MeshState<Pt>, corner: int)
    requires Valid(m) && 0 <= corner < m.nc
    ensures var r := RemoveTriangle(m, corner);
      r.g == m.g && r.removed == m.removed && r.vm == m.vm && r.vMoves == m.vMoves && r.nv == m.nv &&
      r.tMoves == m.tMoves + Notice(m.nt, corner) &&
      (T(corner) != m.nt - 1 ==> r.tm[T(corner)] == m.tm[m.nt - 1])
  {
  }

  /** The vertex table after a removal: every other live corner keeps its vertex at its new place. */
  lemma RemovedVMoves(vt: seq<int>, nc: int, to: int, from: int)
    requires 0 <= to <= from && nc == 3 * from + 3 <= |vt|
    ensures forall x :: 0 <= x < nc && Outside(x, to) ==> RemovedV(vt, to, from)[Moved(x, to, from)] == vt[x]
  {
    if to != from {
      var v := RelocV(vt, to, from, 3);
      RelocVMoves(vt, to, from);
      forall x | 0 <= x < nc && Outside(x, to)
        ensures v[Moved(x, to, from)] == vt[x]
      {
        if !Outside(x, from) {
          assert x == 3 * from || x == 3 * from + 1 || x == 3 * from + 2;
        }
      }
    }
  }

  /** RemovedVMoves at one corner. */
  lemma RemovedVAt(vt: seq<int>, nc: int, to: int, from: int, x: int)
    requires 0 <= to <= from && nc == 3 * from + 3 <= |vt|
    requires 0 <= x < nc && Outside(x, to)
    ensures RemovedV(vt, to, from)[Moved(x, to, from)] == vt[x]
  {
    RemovedVMoves(vt, nc, to, from);
  }

  /** removeTriangle moves the last triangle's vertices into the freed slot; every other live corner keeps its vertex. */
  lemma RemoveTriangleMoves<Pt>(m: MeshState<Pt>, corner: int)
    requires Valid(m) && 0 <= corner < m.nc
    ensures var r := RemoveTriangle(m, corner);
      forall x :: 0 <= x < m.nc && Outside(x, T(corner)) ==> r.vt[Moved(x, T(corner), m.nt - 1)] == m.vt[x]
  {
    var vt, nc, to, from := m.vt, m.nc, T(corner), m.nt - 1;
    RemovedVMoves(vt, nc, to, from);
    RemoveTriangleVt(m, corner);
  }

  /** RemoveTriangleMoves at one corner, with the removed and the last triangle named. */
  lemma RemoveTriangleMovesAt<Pt>(m: MeshState<Pt>, corner: int, x: int, to: int, from: int)
    requires Valid(m) && 0 <= corner < m.nc && to == T(corner) && from == m.nt - 1
    requires 0 <= x < m.nc && Outside(x, to)
    ensures 0 <= Moved(x, to, from) < m.nc - 3
    ensures RemoveTriangle(m, corner).vt[Moved(x, to, from)] == m.vt[x]
  {
    var vt, nc := m.vt, m.nc;
    RemovedVAt(vt, nc, to, from, x);
    RemoveTriangleVt(m, corner);
  }

  /** The opposite table removeTriangle leaves behind. */
  lemma RemoveTriangleOt<Pt>(m: MeshState<Pt>, corner: int)
    requires Valid(m) && 0 <= corner < m.nc
    ensures m.nc == 3 * (m.nt - 1) + 3 && 0 <= T(corner) <= m.nt - 1
    ensures RemoveTriangle(m, corner).ot == RemovedOt(m.ot, m.nc, T(corner), m.nt - 1)
  {
  }

  /** The vertex table removeTriangle leaves behind. */
  lemma RemoveTriangleVt<Pt>(m: MeshState<Pt>, corner: int)
    requires Valid(m) && 0 <= corner < m.nc
    ensures m.nc == 3 * (m.nt - 1) + 3 && 0 <= T(corner) <= m.nt - 1
    ensures RemoveTriangle(m, corner).vt == RemovedV(m.vt, T(corner), m.nt - 1)
  {
  }

  /** Corner `x` is not one of the corners of triangle `t` (the boundary -1 never is). */
  predicate Outside(x: int, t: int)
  {
    x < 3 * t || 3 * t + 3 <= x
  }

  /** The opposite of corner `3 * from + k` is a boundary, or a corner outside both triangles. */
  predicate FarSide(ot: seq<int>, to: int, from: int, k: int)
    requires 0 <= 3 * from + k < |ot|
  {
    -1 <= ot[3 * from + k] < |ot| && Outside(ot[3 * from + k], from) && Outside(ot[3 * from + k], to)
  }

  /** Three opposites that are pairwise different unless they are boundaries. */
  predicate Apart(a: int, b: int, c: int)
  {
    (a == -1 || (a != b && a != c)) && (b == -1 || b != c)
  }

  /** The relocation in closed form, when the moved triangle's neighbours lie elsewhere. */
  lemma RelocClosed(ot: seq<int>, nc: int, to: int, from: int)
    requires nc == 3 * from + 3 <= |ot| && 0 <= to < from
    requires FarSide(ot, to, from, 0) && FarSide(ot, to, from, 1) && FarSide(ot, to, from, 2)
    requires Apart(ot[3 * from], ot[3 * from + 1], ot[3 * from + 2])
    ensures var r := RelocOt(ot, to, from);
      var o0, o1, o2 := ot[3 * from], ot[3 * from + 1], ot[3 * from + 2];
      r[3 * to] == o0 && r[3 * to + 1] == o1 && r[3 * to + 2] == o2 &&
      (o0 != -1 ==> r[o0] == 3 * to) && (o1 != -1 ==> r[o1] == 3 * to + 1) &&
      (o2 != -1 ==> r[o2] == 3 * to + 2) &&
      forall y :: 0 <= y < |ot| && Outside(y, to) && y != o0 && y != o1 && y != o2 ==> r[y] == ot[y]
  {
    var f0, f1, f2 := 3 * from, 3 * from + 1, 3 * from + 2;
    var t0, t1, t2 := 3 * to, 3 * to + 1, 3 * to + 2;
    var o0, o1, o2 := ot[f0], ot[f1], ot[f2];
    RelocOtPasses(ot, to, from);
    var r1 := SetOpp(ot, t0, o0);
    SetOppOnly(ot, t0, o0);
    var r2 := SetOpp(r1, t1, r1[f1]);
    SetOppOnly(r1, t1, o1);
    LinkThrice(ot, t0, t1, t2, o0, o1, o2);
  }

  /** Three links made one after the other, in closed form, when the six ends are apart. */
  lemma LinkThrice(ot: seq<int>, t0: int, t1: int, t2: int, o0: int, o1: int, o2: int)
    requires 0 <= t0 < |ot| && 0 <= t1 < |ot| && 0 <= t2 < |ot| && t0 != t1 && t0 != t2 && t1 != t2
    requires -1 <= o0 < |ot| && -1 <= o1 < |ot| && -1 <= o2 < |ot| && Apart(o0, o1, o2)
    requires o0 != t0 && o0 != t1 && o0 != t2 && o1 != t0 && o1 != t1 && o1 != t2
    requires o2 != t0 && o2 != t1 && o2 != t2
    ensures var r := SetOpp(SetOpp(SetOpp(ot, t0, o0), t1, o1), t2, o2);
      r[t0] == o0 && r[t1] == o1 && r[t2] == o2 &&
      (o0 != -1 ==> r[o0] == t0) && (o1 != -1 ==> r[o1] == t1) && (o2 != -1 ==> r[o2] == t2) &&
      forall y :: 0 <= y < |ot| && y != t0 && y != t1 && y != t2 && y != o0 && y != o1 && y != o2 ==> r[y] == ot[y]
  {
    var r1 := SetOpp(ot, t0, o0);
    var r2 := SetOpp(r1, t1, o1);
    SetOppOnly(ot, t0, o0);
    SetOppOnly(r1, t1, o1);
    SetOppOnly(r2, t2, o2);
  }

  /** The facts about one set opposite that the proofs below use. */
  lemma Facing(ot: seq<int>, nc: int, x: int)
    requires Opposed(ot, nc) && 0 <= x < nc && ot[x] != -1
    ensures 0 <= ot[x] < nc && ot[ot[x]] == x && ot[x] != x
    ensures Outside(ot[x], T(x)) && Outside(x, T(ot[x]))
  {
    assert T(ot[x]) != T(x);
  }

  /** Corners of triangle `t` are exactly those not outside it. */
  lemma InTriangle(x: int, t: int)
    requires 0 <= x
    ensures !Outside(x, t) <==> T(x) == t
  {
  }

  /** An isolated triangle is not the opposite of anything. */
  lemma NotFacingIsolated(ot: seq<int>, nc: int, t: int, x: int)
    requires Opposed(ot, nc) && Isolated(ot, t) && 3 * t + 3 <= nc && 0 <= x < nc && ot[x] != -1
    ensures Outside(ot[x], t)
  {
    Facing(ot, nc, x);
  }

  /** In a table without self-facing triangles, the last triangle's neighbours can be relocated. */
  lemma RelocReady(ot: seq<int>, nc: int, to: int, from: int)
    requires Opposed(ot, nc) && nc == 3 * from + 3 && 0 <= to < from
    requires Isolated(ot, to)
    ensures FarSide(ot, to, from, 0) && FarSide(ot, to, from, 1) && FarSide(ot, to, from, 2)
    ensures Apart(ot[3 * from], ot[3 * from + 1], ot[3 * from + 2])
  {
    var f0, f1, f2 := 3 * from, 3 * from + 1, 3 * from + 2;
    InTriangle(f0, from);
    InTriangle(f1, from);
    InTriangle(f2, from);
    if ot[f0] != -1 { Facing(ot, nc, f0); NotFacingIsolated(ot, nc, to, f0); }
    if ot[f1] != -1 { Facing(ot, nc, f1); NotFacingIsolated(ot, nc, to, f1); }
    if ot[f2] != -1 { Facing(ot, nc, f2); NotFacingIsolated(ot, nc, to, f2); }
  }

  /** One corner of the relabelling proved by RelocateMoves. */
  lemma RelocMovesAt(ot: seq<int>, r: seq<int>, nc: int, to: int, from: int, x: int)
    requires Opposed(ot, nc) && nc == 3 * from + 3 && 0 <= to < from
    requires Isolated(ot, to) && |r| == |ot|
    requires var o0, o1, o2 := ot[3 * from], ot[3 * from + 1], ot[3 * from + 2];
      r[3 * to] == o0 && r[3 * to + 1] == o1 && r[3 * to + 2] == o2 &&
      (o0 != -1 ==> r[o0] == 3 * to) && (o1 != -1 ==> r[o1] == 3 * to + 1) &&
      (o2 != -1 ==> r[o2] == 3 * to + 2) &&
      forall y :: 0 <= y < |ot| && Outside(y, to) && y != o0 && y != o1 && y != o2 ==> r[y] == ot[y]
    requires 0 <= x < nc && Outside(x, to)
    ensures r[Moved(x, to, from)] == Moved(ot[x], to, from)
  {
    var f0, f1, f2 := 3 * from, 3 * from + 1, 3 * from + 2;
    if !Outside(x, from) {
      assert x == f0 || x == f1 || x == f2;
      if ot[x] != -1 {
        Facing(ot, nc, x);
        InTriangle(x, from);
      }
    } else if ot[x] != -1 && !Outside(ot[x], from) {
      Facing(ot, nc, x);
      assert ot[x] == f0 || ot[x] == f1 || ot[x] == f2;
    } else {
      if ot[x] != -1 {
        Facing(ot, nc, x);
        NotFacingIsolated(ot, nc, to, x);
      }
      if x == ot[f0] || x == ot[f1] || x == ot[f2] {
        var f := if x == ot[f0] then f0 else if x == ot[f1] then f1 else f2;
        Facing(ot, nc, f);
        assert false;
      }
    }
  }

  /**
   * Moving the last triangle into the slot of an isolated one relabels the
   * opposite table: the entry of a corner's new place is the new place of
   * its old opposite.
   */
  lemma RelocateMoves(ot: seq<int>, nc: int, to: int, from: int)
    requires Opposed(ot, nc) && nc == 3 * from + 3 && 0 <= to < from
    requires Isolated(ot, to)
    ensures var r := RelocOt(ot, to, from);
      forall x :: 0 <= x < nc && Outside(x, to) ==> r[Moved(x, to, from)] == Moved(ot[x], to, from)
  {
    var r := RelocOt(ot, to, from);
    RelocReady(ot, nc, to, from);
    RelocClosed(ot, nc, to, from);
    forall x | 0 <= x < nc && Outside(x, to)
      ensures r[Moved(x, to, from)] == Moved(ot[x], to, from)
    {
      RelocMovesAt(ot, r, nc, to, from, x);
    }
  }

  /** Moving one triangle into the slot of another keeps different triangles different. */
  lemma MovedApart(x: int, z: int, to: int, from: int)
    requires 0 <= x && 0 <= z && 0 <= to && Outside(x, to) && Outside(z, to) && T(x) != T(z)
    ensures T(Moved(x, to, from)) != T(Moved(z, to, from))
  {
    InTriangle(x, from);
    InTriangle(z, from);
    InTriangle(Moved(x, to, from), to);
    InTriangle(Moved(z, to, from), to);
  }

  /** One live corner of the table left by removing an isolated triangle. */
  lemma RemovedOpposedAt(ot: seq<int>, nc: int, to: int, from: int, y: int)
    requires Opposed(ot, nc) && nc == 3 * from + 3 && 0 <= to <= from && Isolated(ot, to)
    requires 0 <= y < nc - 3
    ensures var r := RemovedOt(ot, nc, to, from);
      -1 <= r[y] < nc - 3 && (r[y] != -1 ==> r[y] != y && r[r[y]] == y && T(r[y]) != T(y))
  {
    var x := if !Outside(y, to) then y - 3 * to + 3 * from else y;
    assert Moved(x, to, from) == y;
    RemovedOtAt(ot, nc, to, from, x);
    if ot[x] != -1 {
      var z := ot[x];
      Facing(ot, nc, x);
      NotFacingIsolated(ot, nc, to, x);
      RemovedOtAt(ot, nc, to, from, z);
      InTriangle(x, T(z));
      MovedApart(x, z, to, from);
    }
  }

  /**
   * Removing a triangle that has no neighbours keeps the opposite table an
   * involution without self-facing triangles, and relabels it by the move
   * of the last triangle into the freed slot.
   */
  lemma RemovedOtOpposed(ot: seq<int>, nc: int, to: int, from: int)
    requires Opposed(ot, nc) && nc == 3 * from + 3 && 0 <= to <= from && Isolated(ot, to)
    ensures Opposed(RemovedOt(ot, nc, to, from), nc - 3)
  {
    var r := RemovedOt(ot, nc, to, from);
    forall y | 0 <= y < nc - 3
      ensures -1 <= r[y] < nc - 3
      ensures r[y] != -1 ==> r[y] != y && r[r[y]] == y && T(r[y]) != T(y)
    {
      RemovedOpposedAt(ot, nc, to, from, y);
    }
  }

  /** A removal relabels every other opposite by the move of the last triangle. */
  lemma RemovedOtMoves(ot: seq<int>, nc: int, to: int, from: int)
    requires Opposed(ot, nc) && nc == 3 * from + 3 && 0 <= to <= from && Isolated(ot, to)
    ensures forall x :: 0 <= x < nc && Outside(x, to) ==>
      RemovedOt(ot, nc, to, from)[Moved(x, to, from)] == Moved(ot[x], to, from)
  {
    var r := RemovedOt(ot, nc, to, from);
    if to != from {
      RelocateMoves(ot, nc, to, from);
    } else {
      forall x | 0 <= x < nc && Outside(x, to)
        ensures r[Moved(x, to, from)] == Moved(ot[x], to, from)
      {
        if ot[x] != -1 {
          NotFacingIsolated(ot, nc, to, x);
        }
      }
    }
  }

  /** The relabelling of RemovedOtOpposed at one corner. */
  lemma RemovedOtAt(ot: seq<int>, nc: int, to: int, from: int, x: int)
    requires Opposed(ot, nc) && nc == 3 * from + 3 && 0 <= to <= from && Isolated(ot, to)
    requires 0 <= x < nc && Outside(x, to)
    ensures RemovedOt(ot, nc, to, from)[Moved(x, to, from)] == Moved(ot[x], to, from)
  {
    RemovedOtMoves(ot, nc, to, from);
  }

  /** Four opposites that are pairwise different unless they are boundaries. */
  predicate Apart4(a: int, b: int, c: int, d: int)
  {
    Apart(a, b, c) && (a == -1 || a != d) && (b == -1 || b != d) && (c == -1 || c != d)
  }

  /** The opposite table of collapseEdge once both doomed triangles are zipped and cleared. */
  function ZipClear(ot: seq<int>, nc: int, c1: int, c2: int): (r: seq<int>)
    requires Bounded(ot, nc) && 0 <= c1 < nc && 0 <= c2 < nc && c1 == ot[c2]
    ensures |r| == |ot| && Bounded(r, nc) && Isolated(r, T(c1)) && Isolated(r, T(c2))
  {
    var z := Zip(ot, nc, c1, c2);
    var r := Invalidate(Invalidate(z, nc, c1), nc, c2);
    assert Isolated(r, T(c1)) by {
      if T(c1) != T(c2) {
        InTriangle(3 * T(c1), T(c2));
        InTriangle(3 * T(c1) + 1, T(c2));
        InTriangle(3 * T(c1) + 2, T(c2));
      }
    }
    r
  }

  /** Two links made one after the other, in closed form, when the four ends are apart. */
  lemma LinkTwice(ot: seq<int>, l1: int, r1: int, l2: int, r2: int)
    requires -1 <= l1 < |ot| && -1 <= r1 < |ot| && -1 <= l2 < |ot| && -1 <= r2 < |ot|
    requires Apart4(l1, r1, l2, r2)
    ensures var z := SetOpp(SetOpp(ot, l1, r1), l2, r2);
      |z| == |ot| &&
      (l1 != -1 ==> z[l1] == r1) && (r1 != -1 ==> z[r1] == l1) &&
      (l2 != -1 ==> z[l2] == r2) && (r2 != -1 ==> z[r2] == l2) &&
      forall y :: 0 <= y < |ot| && y != l1 && y != r1 && y != l2 && y != r2 ==> z[y] == ot[y]
  {
  }

  /** ZipClear in closed form, when the four outer neighbours are distinct and outside. */
  lemma ZipClearClosed(ot: seq<int>, nc: int, c1: int, c2: int, l1: int, r1: int, l2: int, r2: int)
    requires Bounded(ot, nc) && 0 <= c1 < nc && 0 <= c2 < nc && c1 == ot[c2]
    requires l1 == ot[N(c1)] && r1 == ot[P(c1)] && l2 == ot[N(c2)] && r2 == ot[P(c2)]
    requires Apart4(l1, r1, l2, r2)
    requires Outside(l1, T(c1)) && Outside(l1, T(c2)) && Outside(r1, T(c1)) && Outside(r1, T(c2))
    requires Outside(l2, T(c1)) && Outside(l2, T(c2)) && Outside(r2, T(c1)) && Outside(r2, T(c2))
    ensures var w := ZipClear(ot, nc, c1, c2);
      (l1 != -1 ==> w[l1] == r1) && (r1 != -1 ==> w[r1] == l1) &&
      (l2 != -1 ==> w[l2] == r2) && (r2 != -1 ==> w[r2] == l2)
    ensures var w := ZipClear(ot, nc, c1, c2);
      forall y :: 0 <= y < |ot| && Outside(y, T(c1)) && Outside(y, T(c2)) && y != l1 && y != r1 && y != l2 && y != r2 ==>
        w[y] == ot[y]
  {
    StaysBelow(c1, nc);
    StaysBelow(c2, nc);
    LinkTwice(ot, l1, r1, l2, r2);
    var z := Zip(ot, nc, c1, c2);
    var i1 := Invalidate(z, nc, c1);
    var w := Invalidate(i1, nc, c2);
    assert w == ZipClear(ot, nc, c1, c2);
  }

  /** The corners of the triangle of `c` are `c`, `n(c)` and `p(c)`. */
  lemma TriangleMember(c: int, y: int)
    requires 0 <= c && 0 <= y
    ensures !Outside(y, T(c)) <==> y == c || y == N(c) || y == P(c)
  {
    NextPrevArithmetic(c);
  }

  /**
   * The edge opposite `c1` can be collapsed without pinching the mesh:
   * the outer neighbours of the triangle of `c1` are not in the triangle of
   * `c2`, and the two new links join different triangles.
   */
  ghost predicate Collapsible(ot: seq<int>, nc: int, c1: int, c2: int)
    requires Bounded(ot, nc) && 0 <= c1 < nc && 0 <= c2 < nc
  {
    var l1, r1, l2, r2 := L(ot, nc, c1), R(ot, nc, c1), L(ot, nc, c2), R(ot, nc, c2);
    Outside(l1, T(c2)) && Outside(r1, T(c2)) &&
    (l1 == -1 || r1 == -1 || T(l1) != T(r1)) &&
    (l2 == -1 || r2 == -1 || T(l2) != T(r2))
  }

  /** The facts ZipReady needs about one outer corner `x` of the two triangles. */
  ghost predicate FacesBack(ot: seq<int>, x: int)
    requires 0 <= x < |ot|
  {
    ot[x] != -1 ==> 0 <= ot[x] < |ot| && ot[ot[x]] == x && Outside(ot[x], T(x))
  }

  /** ZipReady on explicit facts, free of the quantifiers of Opposed. */
  lemma ZipReadyFacts(ot: seq<int>, c1: int, c2: int)
    requires 0 <= c1 < |ot| && 0 <= c2 < |ot| && ot[c1] == c2 && ot[c2] == c1 && T(c1) != T(c2)
    requires N(c1) < |ot| && P(c1) < |ot| && N(c2) < |ot| && P(c2) < |ot|
    requires FacesBack(ot, N(c1)) && FacesBack(ot, P(c1)) && FacesBack(ot, N(c2)) && FacesBack(ot, P(c2))
    requires Outside(ot[N(c1)], T(c2)) && Outside(ot[P(c1)], T(c2))
    ensures var l1, r1, l2, r2 := ot[N(c1)], ot[P(c1)], ot[N(c2)], ot[P(c2)];
      Apart4(l1, r1, l2, r2) &&
      Outside(l1, T(c1)) && Outside(l1, T(c2)) && Outside(r1, T(c1)) && Outside(r1, T(c2)) &&
      Outside(l2, T(c1)) && Outside(l2, T(c2)) && Outside(r2, T(c1)) && Outside(r2, T(c2))
  {
    NextPrev(c1);
    NextPrev(c2);
    var l1, r1, l2, r2 := ot[N(c1)], ot[P(c1)], ot[N(c2)], ot[P(c2)];
    if l2 != -1 { TriangleMember(c1, l2); }
    if r2 != -1 { TriangleMember(c1, r2); }
  }

  /** Under Collapsible, the four outer neighbours are distinct and lie outside both triangles. */
  lemma ZipReady(ot: seq<int>, nc: int, c1: int, c2: int)
    requires Opposed(ot, nc) && 0 <= c1 < nc && 0 <= c2 < nc && c1 == ot[c2]
    requires Collapsible(ot, nc, c1, c2)
    ensures T(c1) != T(c2) && c2 == ot[c1]
    ensures var l1, r1, l2, r2 := L(ot, nc, c1), R(ot, nc, c1), L(ot, nc, c2), R(ot, nc, c2);
      Apart4(l1, r1, l2, r2) &&
      Outside(l1, T(c1)) && Outside(l1, T(c2)) && Outside(r1, T(c1)) && Outside(r1, T(c2)) &&
      Outside(l2, T(c1)) && Outside(l2, T(c2)) && Outside(r2, T(c1)) && Outside(r2, T(c2))
  {
    Facing(ot, nc, c2);
    StaysBelow(c1, nc);
    StaysBelow(c2, nc);
    if ot[N(c1)] != -1 { Facing(ot, nc, N(c1)); }
    if ot[P(c1)] != -1 { Facing(ot, nc, P(c1)); }
    if ot[N(c2)] != -1 { Facing(ot, nc, N(c2)); }
    if ot[P(c2)] != -1 { Facing(ot, nc, P(c2)); }
    ZipReadyFacts(ot, c1, c2);
  }

  /** Every corner of an isolated triangle is a boundary. */
  lemma ClearedEntry(w: seq<int>, t: int, y: int)
    requires Isolated(w, t) && 0 <= y < |w|
    ensures !Outside(y, t) ==> w[y] == -1
  {
  }

  /** One entry of the zipped and cleared table still faces back from another triangle. */
  lemma ZipClearOpposedAt(ot: seq<int>, w: seq<int>, nc: int, c1: int, c2: int,
                          l1: int, r1: int, l2: int, r2: int, y: int)
    requires Opposed(ot, nc) && 0 <= c1 < nc && 0 <= c2 < nc && ot[c2] == c1 && ot[c1] == c2
    requires Bounded(w, nc) && |w| == |ot| && Isolated(w, T(c1)) && Isolated(w, T(c2))
    requires N(c1) < nc && P(c1) < nc && N(c2) < nc && P(c2) < nc
    requires l1 == ot[N(c1)] && r1 == ot[P(c1)] && l2 == ot[N(c2)] && r2 == ot[P(c2)]
    requires Apart4(l1, r1, l2, r2)
    requires l1 == -1 || r1 == -1 || T(l1) != T(r1)
    requires l2 == -1 || r2 == -1 || T(l2) != T(r2)
    requires (l1 != -1 ==> w[l1] == r1) && (r1 != -1 ==> w[r1] == l1)
    requires (l2 != -1 ==> w[l2] == r2) && (r2 != -1 ==> w[r2] == l2)
    requires forall x :: 0 <= x < |ot| && Outside(x, T(c1)) && Outside(x, T(c2)) && x != l1 && x != r1 && x != l2 && x != r2 ==>
      w[x] == ot[x]
    requires 0 <= y < nc && w[y] != -1
    ensures w[y] != y && w[w[y]] == y && T(w[y]) != T(y)
  {
    ClearedEntry(w, T(c1), y);
    ClearedEntry(w, T(c2), y);
    if !Outside(y, T(c1)) || !Outside(y, T(c2)) {
      assert false;
    } else if y == l1 || y == r1 || y == l2 || y == r2 {
    } else {
      var o := ot[y];
      Facing(ot, nc, y);
      if l1 != -1 { Facing(ot, nc, N(c1)); }
      if r1 != -1 { Facing(ot, nc, P(c1)); }
      if l2 != -1 { Facing(ot, nc, N(c2)); }
      if r2 != -1 { Facing(ot, nc, P(c2)); }
      TriangleMember(c1, o);
      TriangleMember(c2, o);
    }
  }

  /** Zipping and clearing two facing triangles keeps every link two-way and between triangles. */
  lemma ZipClearOpposed(ot: seq<int>, nc: int, c1: int, c2: int)
    requires Opposed(ot, nc) && 0 <= c1 < nc && 0 <= c2 < nc && c1 == ot[c2]
    requires Collapsible(ot, nc, c1, c2)
    ensures Opposed(ZipClear(ot, nc, c1, c2), nc)
  {
    var w := ZipClear(ot, nc, c1, c2);
    StaysBelow(c1, nc);
    StaysBelow(c2, nc);
    var l1, r1, l2, r2 := ot[N(c1)], ot[P(c1)], ot[N(c2)], ot[P(c2)];
    ZipReady(ot, nc, c1, c2);
    ZipClearClosed(ot, nc, c1, c2, l1, r1, l2, r2);
    forall y | 0 <= y < nc && w[y] != -1
      ensures w[y] != y && w[w[y]] == y && T(w[y]) != T(y)
    {
      ZipClearOpposedAt(ot, w, nc, c1, c2, l1, r1, l2, r2, y);
    }
  }

  /** setVTable over a list of corners: the listed corners take vertex `v`, the rest keep theirs. */
  function Relabel(vt: seq<int>, run: seq<int>, v: int): (r: seq<int>)
    requires forall i :: 0 <= i < |run| ==> 0 <= run[i] < |vt|
    ensures |r| == |vt|
    ensures forall x :: 0 <= x < |vt| ==> r[x] == if x in run then v else vt[x]
    decreases |run|
  {
    if run == [] then vt else Relabel(vt[run[0] := v], run[1..], v)
  }

  /** The fan of corner `c`, swinging from `c` back to `c`, if it closes within MAX_VALENCE steps. */
  function Fan(ot: seq<int>, nc: int, c: int): (r: Option<seq<int>>)
    requires Bounded(ot, nc) && 0 <= c < nc
    ensures r.Some? ==>
      1 <= |r.value| <= MAX_VALENCE && r.value[0] == c && forall i :: 0 <= i < |r.value| ==> 0 <= r.value[i] < nc
  {
    var run := SwingRun(ot, nc, c, c, MAX_VALENCE);
    if run.Some? then SwingRunIsOrbit(ot, nc, c, MAX_VALENCE); run else run
  }

  /** replaceVertex(v, p): vertex `v` gets point `p`. */
  function ReplaceVertex<Pt>(m: MeshState<Pt>, v: int, p: Pt): (r: MeshState<Pt>)
    requires 0 <= v < |m.g|
    ensures r.g == m.g[v := p] && r == m.(g := r.g)
  {
    m.(g := m.g[v := p])
  }

  /** removeVertex(v): `v` is tombstoned and a notification `(v, -1)` is sent. */
  function RemoveVertex<Pt>(m: MeshState<Pt>, v: int): (r: MeshState<Pt>)
    requires 0 <= v < |m.removed|
    ensures r == m.(removed := r.removed, vMoves := r.vMoves)
    ensures |r.removed| == |m.removed| && forall w :: 0 <= w < |m.removed| && w != v ==> r.removed[w] == m.removed[w]
    ensures r.vMoves == m.vMoves + [Move(v, -1)]
  {
    m.(removed := m.removed[v := true], vMoves := m.vMoves + [Move(v, -1)])
  }

  /**
   * What collapseEdge(corner, opp) demands: `corner` faces `opp` from
   * another triangle, the corners name existing vertices, and the fan of
   * p(corner) closes (the source loops forever on a fan that does not).
   */
  ghost predicate CanCollapse<Pt>(m: MeshState<Pt>, corner: int, opp: int)
  {
    Valid(m) && Bounded(m.ot, m.nc) && VerticesIn(m.vt, m.nc, m.nv) &&
    0 <= corner < m.nc && 0 <= opp < m.nc && corner == m.ot[opp] && T(corner) != T(opp) &&
    Fan(m.ot, m.nc, P(corner)).Some?
  }

  /** v(n(c)) and v(p(c)): the two ends of the edge facing corner `c`. */
  function EdgeEnds(vt: seq<int>, nc: int, nv: int, c: int): (e: (int, int))
    requires VerticesIn(vt, nc, nv) && 0 <= c < nc && nc % 3 == 0
    ensures 0 <= e.0 < nv && 0 <= e.1 < nv
  {
    StaysBelow(c, nc);
    (vt[N(c)], vt[P(c)])
  }

  /**
   * The first half of collapseEdge(corner, opp, p): the fan of p(corner)
   * takes the vertex of n(corner), the two triangles along the edge are
   * zipped out and cleared, that vertex moves to `p` and the vertex of
   * p(corner) is tombstoned.
   */
  function CollapsePrepare<Pt>(m: MeshState<Pt>, corner: int, opp: int, p: Pt): (r: MeshState<Pt>)
    requires CanCollapse(m, corner, opp)
    ensures Valid(r) && r.nt == m.nt && r.nc == m.nc && r.nv == m.nv
    ensures r.tMoves == m.tMoves && r.tm == m.tm && r.vm == m.vm
    ensures var e := EdgeEnds(m.vt, m.nc, m.nv, corner);
      r.g == m.g[e.0 := p] && r.removed == m.removed[e.1 := true] && r.vMoves == m.vMoves + [Move(e.1, -1)]
    ensures r.ot == ZipClear(m.ot, m.nc, corner, opp)
    ensures r.vt == Relabel(m.vt, Fan(m.ot, m.nc, P(corner)).value, EdgeEnds(m.vt, m.nc, m.nv, corner).0)
  {
    StaysBelow(corner, m.nc);
    var (v1, v2) := EdgeEnds(m.vt, m.nc, m.nv, corner);
    var fan := Fan(m.ot, m.nc, P(corner)).value;
    var m1 := m.(vt := Relabel(m.vt, fan, v1), ot := ZipClear(m.ot, m.nc, corner, opp));
    RemoveVertex(ReplaceVertex(m1, v1, p), v2)
  }

  /** The two removeTriangle calls that end collapseEdge: the higher triangle first, so the lower one stays put. */
  function RemovePair<Pt>(m: MeshState<Pt>, hi: int, lo: int): (r: MeshState<Pt>)
    requires Valid(m) && 0 <= lo < hi < m.nc && T(lo) != T(hi)
    ensures Valid(r) && r.nt == m.nt - 2 && r.nc == m.nc - 6 && r.nv == m.nv
  {
    LowerTriangle(lo, hi, m.nt);
    RemoveTriangle(RemoveTriangle(m, hi), lo)
  }

  /**
   * collapseEdge(corner, opp, p): CollapsePrepare, then the two cleared
   * triangles are removed. Returns the kept vertex v(n(corner)).
   */
  function CollapseEdge<Pt>(m: MeshState<Pt>, corner: int, opp: int, p: Pt): (res: (MeshState<Pt>, int))
    requires CanCollapse(m, corner, opp)
    ensures Valid(res.0) && res.0.nt == m.nt - 2 && res.0.nc == m.nc - 6 && res.0.nv == m.nv
    ensures res.1 == EdgeEnds(m.vt, m.nc, m.nv, corner).0
    ensures res.0.tMoves == PairLog(m.tMoves, m.nt, Higher(corner, opp), Lower(corner, opp))
  {
    var m1, hi, lo := CollapsePrepare(m, corner, opp, p), Higher(corner, opp), Lower(corner, opp);
    RemovePairLog(m1, hi, lo, m.tMoves, m.nt);
    (RemovePair(m1, hi, lo), EdgeEnds(m.vt, m.nc, m.nv, corner).0)
  }

  /** Removing two triangles sends one notification per triangle moved into a freed slot, in removal order. */
  lemma RemovePairLog<Pt>(m: MeshState<Pt>, hi: int, lo: int, log: seq<Move>, nt: int)
    requires Valid(m) && 0 <= lo < hi < m.nc && T(lo) != T(hi)
    requires log == m.tMoves && nt == m.nt
    ensures RemovePair(m, hi, lo).tMoves == PairLog(log, nt, hi, lo)
  {
  }

  /** The triangle log after removing the triangles of `hi` and then `lo` from a mesh of `nt` triangles. */
  function PairLog(log: seq<Move>, nt: int, hi: int, lo: int): seq<Move>
  {
    log + PairNotices(nt, hi, lo)
  }

  /** The notifications of removing the triangles of `hi` and then `lo` from a mesh of `nt` triangles. */
  function PairNotices(nt: int, hi: int, lo: int): seq<Move>
  {
    Notice(nt, hi) + Notice(nt - 1, lo)
  }

  /** Of two corners in different triangles of a mesh of `nt` triangles, the lower one is not in the last two. */
  lemma LowerTriangle(lo: int, hi: int, nt: int)
    requires 0 <= lo < hi < 3 * nt && T(lo) != T(hi)
    ensures T(lo) < T(hi) <= nt - 1 && lo < 3 * (nt - 1) && 3 * T(lo) + 3 <= 3 * (nt - 1)
  {
  }

  /** Removing an isolated triangle keeps the opposite table an involution between different triangles. */
  lemma RemoveTriangleOpposed<Pt>(m: MeshState<Pt>, corner: int)
    requires Valid(m) && 0 <= corner < m.nc
    requires Opposed(m.ot, m.nc) && Isolated(m.ot, T(corner))
    ensures Opposed(RemoveTriangle(m, corner).ot, m.nc - 3)
  {
    RemovalOpposed(m.ot, m.nc, T(corner), m.nt);
    RemoveTriangleOt(m, corner);
  }

  /** RemovedOtOpposed with the last triangle of a table of `nt` triangles. */
  lemma RemovalOpposed(ot: seq<int>, nc: int, to: int, nt: int)
    requires Opposed(ot, nc) && nc == 3 * nt && 0 <= to < nt && Isolated(ot, to)
    ensures 3 * (nt - 1) + 3 <= nc <= |ot|
    ensures Opposed(RemovedOt(ot, nc, to, nt - 1), nc - 3)
  {
    RemovedOtOpposed(ot, nc, to, nt - 1);
  }

  /** removeTriangle, field by field. */
  lemma RemoveTriangleIs<Pt>(m: MeshState<Pt>, corner: int)
    requires Valid(m) && 0 <= corner < m.nc
    ensures var to, from := T(corner), m.nt - 1;
      RemoveTriangle(m, corner) ==
      m.(vt := RemovedV(m.vt, to, from), ot := RemovedOt(m.ot, m.nc, to, from),
         tm := RemovedTm(m.tm, to, from), tMoves := m.tMoves + Notice(m.nt, corner), nt := m.nt - 1, nc := m.nc - 3)
  {
  }

  /** The counters of a valid mesh and the triangle of one of its live corners. */
  lemma SlotsAt<Pt>(m: MeshState<Pt>, corner: int)
    requires Valid(m) && 0 <= corner < m.nc
    ensures m.nc == 3 * (m.nt - 1) + 3 && 0 <= T(corner) <= m.nt - 1
  {
  }

  /** An isolated triangle below the removed one stays in place and isolated. */
  lemma RemovedKeepsIsolated(ot: seq<int>, nc: int, to: int, from: int, t: int)
    requires Opposed(ot, nc) && nc == 3 * from + 3 && 0 <= t < to <= from
    requires Isolated(ot, to) && Isolated(ot, t)
    ensures Isolated(RemovedOt(ot, nc, to, from), t)
  {
    RemovedOtMoves(ot, nc, to, from);
    var r := RemovedOt(ot, nc, to, from);
    assert r[Moved(3 * t, to, from)] == -1;
    assert r[Moved(3 * t + 1, to, from)] == -1;
    assert r[Moved(3 * t + 2, to, from)] == -1;
  }

  /** Removing an isolated triangle leaves every isolated triangle below it in place and isolated. */
  lemma RemoveTriangleKeepsIsolated<Pt>(m: MeshState<Pt>, corner: int, t: int)
    requires Valid(m) && 0 <= corner < m.nc && 0 <= t < T(corner)
    requires Opposed(m.ot, m.nc) && Isolated(m.ot, T(corner)) && Isolated(m.ot, t)
    ensures Isolated(RemoveTriangle(m, corner).ot, t)
  {
    var ot, nc, to, from := m.ot, m.nc, T(corner), m.nt - 1;
    RemovedKeepsIsolated(ot, nc, to, from, t);
    RemoveTriangleOt(m, corner);
  }

  /**
   * Removing an isolated triangle relabels the opposite of every other live
   * corner: corner `x`, now at Moved(x), faces the new place of its old opposite.
   */
  lemma RemoveTriangleRelabels<Pt>(m: MeshState<Pt>, corner: int, x: int, to: int, from: int)
    requires Valid(m) && 0 <= corner < m.nc && to == T(corner) && from == m.nt - 1
    requires Opposed(m.ot, m.nc) && Isolated(m.ot, to)
    requires 0 <= x < m.nc && Outside(x, to)
    ensures 0 <= Moved(x, to, from) < m.nc - 3
    ensures RemoveTriangle(m, corner).ot[Moved(x, to, from)] == Moved(m.ot[x], to, from)
  {
    var ot, nc := m.ot, m.nc;
    RemovedOtAt(ot, nc, to, from, x);
    var r, y := RemovedOt(ot, nc, to, from), Moved(x, to, from);
    assert 0 <= y < nc - 3 && r[y] == Moved(ot[x], to, from);
    RemoveTriangleOt(m, corner);
  }

  /** Removing two isolated triangles keeps the opposite table an involution between different triangles. */
  lemma RemovePairOpposed<Pt>(m: MeshState<Pt>, hi: int, lo: int)
    requires Valid(m) && 0 <= lo < hi < m.nc && T(lo) != T(hi)
    requires Opposed(m.ot, m.nc) && Isolated(m.ot, T(hi)) && Isolated(m.ot, T(lo))
    ensures Opposed(RemovePair(m, hi, lo).ot, RemovePair(m, hi, lo).nc)
  {
    RemovePairOt(m, hi, lo);
    PairOpposed(m.ot, m.nc, T(hi), T(lo), m.nt, RemovePair(m, hi, lo).ot, RemovePair(m, hi, lo).nc);
  }

  /** The opposite table of removing the triangles `th` and then `tl` (below it) from `nt` triangles. */
  function RemovedPairOt(ot: seq<int>, nc: int, th: int, tl: int, nt: int): (r: seq<int>)
    requires 0 <= tl < th < nt && nc == 3 * nt <= |ot|
    ensures |r| == |ot|
  {
    RemovedOt(RemovedOt(ot, nc, th, nt - 1), nc - 3, tl, nt - 2)
  }

  /** The opposite table RemovePair leaves behind. */
  lemma RemovePairOt<Pt>(m: MeshState<Pt>, hi: int, lo: int)
    requires Valid(m) && 0 <= lo < hi < m.nc && T(lo) != T(hi)
    ensures 0 <= T(lo) < T(hi) < m.nt && m.nc == 3 * m.nt <= |m.ot|
    ensures RemovePair(m, hi, lo).ot == RemovedPairOt(m.ot, m.nc, T(hi), T(lo), m.nt)
  {
    LowerTriangle(lo, hi, m.nt);
    RemovePairIs(m, hi, lo);
    RemoveTriangleOt(m, hi);
    RemoveTriangleOt(RemoveTriangle(m, hi), lo);
  }

  /** Removing two isolated triangles, on the table alone. */
  lemma PairOpposed(ot: seq<int>, nc: int, th: int, tl: int, nt: int, r: seq<int>, rc: int)
    requires Opposed(ot, nc) && nc == 3 * nt && 0 <= tl < th < nt && Isolated(ot, th) && Isolated(ot, tl)
    requires nc <= |ot| && r == RemovedPairOt(ot, nc, th, tl, nt) && rc == nc - 6
    ensures Opposed(r, rc)
  {
    RemovalOpposed(ot, nc, th, nt);
    RemovedKeepsIsolated(ot, nc, th, nt - 1, tl);
    RemovalOpposed(RemovedOt(ot, nc, th, nt - 1), nc - 3, tl, nt - 1);
  }

  /** RemovePair is the two removals, and the lower triangle is below the higher one. */
  lemma RemovePairIs<Pt>(m: MeshState<Pt>, hi: int, lo: int)
    requires Valid(m) && 0 <= lo < hi < m.nc && T(lo) != T(hi)
    ensures T(lo) < T(hi) <= m.nt - 1 && RemoveTriangle(m, hi).nt == m.nt - 1 && RemoveTriangle(m, hi).nc == m.nc - 3
    ensures RemovePair(m, hi, lo) == RemoveTriangle(RemoveTriangle(m, hi), lo)
  {
  }

  /** Where corner `x` lives after the triangles of corners `hi` and then `lo` were removed from `nt` triangles. */
  function Relocated(x: int, nt: int, hi: int, lo: int): int
  {
    Moved(Moved(x, T(hi), nt - 1), T(lo), nt - 2)
  }

  /** Relocated spelled out with the removed triangles and the two last triangles named. */
  lemma RelocatedIs(x: int, nt: int, hi: int, lo: int, th: int, tl: int, last: int, last2: int)
    requires th == T(hi) && tl == T(lo) && last == nt - 1 && last2 == last - 1
    ensures Relocated(x, nt, hi, lo) == Moved(Moved(x, th, last), tl, last2)
  {
  }

  /** The first move keeps a corner outside both removed triangles outside the second one. */
  lemma MovedOutside(x: int, th: int, tl: int, last: int)
    requires 0 <= tl < th <= last && 0 <= x < 3 * last + 3 && Outside(x, th) && Outside(x, tl)
    ensures Outside(Moved(x, th, last), tl)
  {
  }

  /** Removing two isolated triangles relabels the opposite of every other live corner by the two moves. */
  lemma RemovePairRelabels<Pt>(m: MeshState<Pt>, hi: int, lo: int, x: int)
    requires Valid(m) && 0 <= lo < hi < m.nc && T(lo) != T(hi)
    requires Opposed(m.ot, m.nc) && Isolated(m.ot, T(hi)) && Isolated(m.ot, T(lo))
    requires 0 <= x < m.nc && Outside(x, T(hi)) && Outside(x, T(lo))
    ensures 0 <= Relocated(x, m.nt, hi, lo) < m.nc - 6
    ensures RemovePair(m, hi, lo).ot[Relocated(x, m.nt, hi, lo)] == Relocated(m.ot[x], m.nt, hi, lo)
  {
    RemovePairOt(m, hi, lo);
    PairRelabels(m.ot, m.nc, hi, lo, m.nt, x, RemovePair(m, hi, lo).ot);
  }

  /** The relabelling of RemovePairRelabels, on the table alone. */
  lemma PairRelabels(ot: seq<int>, nc: int, hi: int, lo: int, nt: int, x: int, r: seq<int>)
    requires Opposed(ot, nc) && nc == 3 * nt && 0 <= T(lo) < T(hi) < nt && Isolated(ot, T(hi)) && Isolated(ot, T(lo))
    requires 0 <= x < nc && Outside(x, T(hi)) && Outside(x, T(lo))
    requires nc <= |ot| && r == RemovedPairOt(ot, nc, T(hi), T(lo), nt)
    ensures 0 <= Relocated(x, nt, hi, lo) < nc - 6 && r[Relocated(x, nt, hi, lo)] == Relocated(ot[x], nt, hi, lo)
  {
    var th, tl := T(hi), T(lo);
    PairMoves(ot, nc, th, tl, nt, x);
    RelocatedIs(x, nt, hi, lo, th, tl, nt - 1, nt - 2);
    RelocatedIs(ot[x], nt, hi, lo, th, tl, nt - 1, nt - 2);
  }

  /** PairRelabels with the removed triangles named. */
  lemma PairMoves(ot: seq<int>, nc: int, th: int, tl: int, nt: int, x: int)
    requires Opposed(ot, nc) && nc == 3 * nt && 0 <= tl < th < nt && Isolated(ot, th) && Isolated(ot, tl)
    requires 0 <= x < nc && Outside(x, th) && Outside(x, tl)
    ensures nc <= |ot| && 0 <= Moved(Moved(x, th, nt - 1), tl, nt - 2) < nc - 6
    ensures RemovedPairOt(ot, nc, th, tl, nt)[Moved(Moved(x, th, nt - 1), tl, nt - 2)] ==
      Moved(Moved(ot[x], th, nt - 1), tl, nt - 2)
  {
    FirstReady(ot, nc, th, tl, nt, x);
    RemovedOtAt(ot, nc, th, nt - 1, x);
    SecondMoves(ot, nc, th, tl, nt, Moved(x, th, nt - 1), Moved(ot[x], th, nt - 1));
  }

  /** The second removal of PairMoves, given the first's relabelling of `y`. */
  lemma SecondMoves(ot: seq<int>, nc: int, th: int, tl: int, nt: int, y: int, v: int)
    requires nc == 3 * nt && 0 <= tl < th < nt && nc <= |ot|
    requires Ready(RemovedOt(ot, nc, th, nt - 1), nc - 3, tl, nt - 2, y)
    requires RemovedOt(ot, nc, th, nt - 1)[y] == v
    ensures 0 <= Moved(y, tl, nt - 2) < nc - 6
    ensures RemovedPairOt(ot, nc, th, tl, nt)[Moved(y, tl, nt - 2)] == Moved(v, tl, nt - 2)
  {
    ReadyMoves(RemovedOt(ot, nc, th, nt - 1), nc - 3, tl, nt - 2, y);
  }

  /**
   * A live corner `y` outside the isolated triangle `t` of a table of
   * `from + 1` triangles whose opposites are an involution.
   */
  ghost predicate Ready(ot: seq<int>, nc: int, t: int, from: int, y: int)
  {
    Opposed(ot, nc) && nc == 3 * from + 3 && 0 <= t <= from && Isolated(ot, t) && 0 <= y < nc && Outside(y, t)
  }

  /** After the first removal of PairMoves, the moved corner is ready for the second. */
  lemma FirstReady(ot: seq<int>, nc: int, th: int, tl: int, nt: int, x: int)
    requires Opposed(ot, nc) && nc == 3 * nt && 0 <= tl < th < nt && Isolated(ot, th) && Isolated(ot, tl)
    requires 0 <= x < nc && Outside(x, th) && Outside(x, tl)
    ensures nc <= |ot| && Ready(RemovedOt(ot, nc, th, nt - 1), nc - 3, tl, nt - 2, Moved(x, th, nt - 1))
  {
    MovedOutside(x, th, tl, nt - 1);
    RemovedKeepsIsolated(ot, nc, th, nt - 1, tl);
    RemovalOpposed(ot, nc, th, nt);
  }

  /** RemovedOtAt for a ready table. */
  lemma ReadyMoves(ot: seq<int>, nc: int, t: int, from: int, y: int)
    requires Ready(ot, nc, t, from, y)
    ensures 0 <= Moved(y, t, from) < nc - 3
    ensures RemovedOt(ot, nc, t, from)[Moved(y, t, from)] == Moved(ot[y], t, from)
  {
    RemovedOtAt(ot, nc, t, from, y);
  }

  /** Removing two triangles: every other live corner keeps its vertex, wherever it was moved. */
  lemma RemovePairMoves<Pt>(m: MeshState<Pt>, hi: int, lo: int, x: int)
    requires Valid(m) && 0 <= lo < hi < m.nc && T(lo) != T(hi)
    requires 0 <= x < m.nc && Outside(x, T(hi)) && Outside(x, T(lo))
    ensures var r := RemovePair(m, hi, lo);
      0 <= Relocated(x, m.nt, hi, lo) < r.nc && r.vt[Relocated(x, m.nt, hi, lo)] == m.vt[x]
  {
    LowerTriangle(lo, hi, m.nt);
    var th, tl, last := T(hi), T(lo), m.nt - 1;
    MovedOutside(x, th, tl, last);
    var y := Moved(x, th, last);
    var m2 := RemoveTriangle(m, hi);
    RemoveTriangleMovesAt(m, hi, x, th, last);
    var last2 := last - 1;
    assert m2.nt - 1 == last2 && 0 <= lo < m2.nc;
    RemoveTriangleMovesAt(m2, lo, y, tl, last2);
    var z := Moved(y, tl, last2);
    RelocatedIs(x, m.nt, hi, lo, th, tl, last, last2);
    assert 0 <= z < m.nc - 6 && RemoveTriangle(m2, lo).vt[z] == m.vt[x];
    RemovePairIs(m, hi, lo);
  }

  /** Two appends in a row. */
  lemma AppendTwice<X>(a: seq<X>, b: seq<X>, c: seq<X>, d: seq<X>, e: seq<X>)
    requires b == a + d && c == b + e
    ensures c == a + d + e
  {
  }

  /** Removing two triangles leaves the vertices, their markers and the vertex log alone. */
  lemma RemovePairKeeps<Pt>(m: MeshState<Pt>, hi: int, lo: int)
    requires Valid(m) && 0 <= lo < hi < m.nc && T(lo) != T(hi)
    ensures var r := RemovePair(m, hi, lo);
      r.g == m.g && r.removed == m.removed && r.vm == m.vm && r.vMoves == m.vMoves && r.nv == m.nv
  {
  }

  /** The two corners collapseEdge passes to removeTriangle, higher first. */
  function Higher(a: int, b: int): int { if a > b then a else b }
  function Lower(a: int, b: int): int { if a < b then a else b }

  /** CollapseEdge is CollapsePrepare followed by RemovePair. */
  lemma CollapseEdgeIs<Pt>(m: MeshState<Pt>, corner: int, opp: int, p: Pt)
    requires CanCollapse(m, corner, opp)
    ensures var m1 := CollapsePrepare(m, corner, opp, p);
      0 <= Lower(corner, opp) < Higher(corner, opp) < m1.nc && T(Lower(corner, opp)) != T(Higher(corner, opp)) &&
      CollapseEdge(m, corner, opp, p).0 == RemovePair(m1, Higher(corner, opp), Lower(corner, opp))
  {
  }

  /**
   * collapseEdge keeps the opposite table an involution between different
   * triangles, provided the edge can be collapsed without pinching.
   */
  lemma CollapseKeepsOpposed<Pt>(m: MeshState<Pt>, corner: int, opp: int, p: Pt)
    requires CanCollapse(m, corner, opp) && Opposed(m.ot, m.nc) && Collapsible(m.ot, m.nc, corner, opp)
    ensures var r := CollapseEdge(m, corner, opp, p).0; Opposed(r.ot, r.nc)
  {
    var hi, lo := Higher(corner, opp), Lower(corner, opp);
    CollapseReady(m, corner, opp, p);
    RemovePairOpposed(CollapsePrepare(m, corner, opp, p), hi, lo);
    CollapseEdgeIs(m, corner, opp, p);
  }

  /** The prepared table of collapseEdge is ready for the removal of the two triangles. */
  lemma CollapseReady<Pt>(m: MeshState<Pt>, corner: int, opp: int, p: Pt)
    requires CanCollapse(m, corner, opp) && Opposed(m.ot, m.nc) && Collapsible(m.ot, m.nc, corner, opp)
    ensures var m1, hi, lo := CollapsePrepare(m, corner, opp, p), Higher(corner, opp), Lower(corner, opp);
      Valid(m1) && 0 <= lo < hi < m1.nc && T(lo) != T(hi) &&
      Opposed(m1.ot, m1.nc) && Isolated(m1.ot, T(hi)) && Isolated(m1.ot, T(lo))
  {
    ZipClearOpposed(m.ot, m.nc, corner, opp);
    CollapseEdgeIs(m, corner, opp, p);
  }

  /**
   * collapseEdge's effect on the vertices and the logs: the kept vertex
   * v(n(corner)) takes the point, v(p(corner)) is tombstoned with one
   * notification, and one triangle notification is sent per moved triangle.
   */
  lemma CollapseEdgeLog<Pt>(m: MeshState<Pt>, corner: int, opp: int, p: Pt)
    requires CanCollapse(m, corner, opp)
    ensures var r := CollapseEdge(m, corner, opp, p).0; var e := EdgeEnds(m.vt, m.nc, m.nv, corner);
      r.g == m.g[e.0 := p] && r.removed == m.removed[e.1 := true] && r.vMoves == m.vMoves + [Move(e.1, -1)] &&
      r.nv == m.nv
  {
    var m1 := CollapsePrepare(m, corner, opp, p);
    CollapseEdgeIs(m, corner, opp, p);
    RemovePairKeeps(m1, Higher(corner, opp), Lower(corner, opp));
  }

  /**
   * collapseEdge's effect on the vertex table: every corner outside the two
   * removed triangles, at its new place, names v(n(corner)) if it was in the
   * fan of p(corner) and its old vertex otherwise.
   */
  lemma CollapseEdgeVertices<Pt>(m: MeshState<Pt>, corner: int, opp: int, p: Pt, x: int)
    requires CanCollapse(m, corner, opp)
    requires 0 <= x < m.nc && Outside(x, T(corner)) && Outside(x, T(opp))
    ensures var r := CollapseEdge(m, corner, opp, p).0;
      var y := Relocated(x, m.nt, Higher(corner, opp), Lower(corner, opp));
      0 <= y < r.nc &&
      r.vt[y] == if x in Fan(m.ot, m.nc, P(corner)).value then EdgeEnds(m.vt, m.nc, m.nv, corner).0 else m.vt[x]
  {
    var m1 := CollapsePrepare(m, corner, opp, p);
    var hi, lo := Higher(corner, opp), Lower(corner, opp);
    CollapseEdgeIs(m, corner, opp, p);
    RemovePairMoves(m1, hi, lo, x);
  }
}
