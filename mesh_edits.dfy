/**
 * The remaining edit primitives of the corner-table mesh
 * (geomUtils/inc/mesh.h, MESH_ALGORITHMS region) on the value `MeshState`:
 * growing the mesh, collapsing a triangle, expanding a vertex, rotating the
 * corners of a triangle and compacting the vertex table.
 */
module MeshEdits {
  import opened Wrappers
  import opened CornerOps
  import opened MeshTopology

  /** The value of a default-constructed index: what vector::resize fills new slots with. */
  const DEFAULT_INDEX: int := 0

  /** addVertex(p): the point is appended as vertex `nv`, not tombstoned and unmarked. */
  function AddVertex<Pt>(m: MeshState<Pt>, p: Pt): (r: MeshState<Pt>)
    requires Valid(m)
    ensures Valid(r) && r.nv == m.nv + 1
    ensures r.g[m.nv] == p && !r.removed[m.nv] && r.vm[m.nv] == 0
    ensures forall w :: 0 <= w < m.nv ==> r.g[w] == m.g[w] && r.removed[w] == m.removed[w] && r.vm[w] == m.vm[w]
    ensures r.vt == m.vt && r.ot == m.ot && r.tm == m.tm && r.nt == m.nt && r.nc == m.nc
    ensures r.tMoves == m.tMoves && r.vMoves == m.vMoves
  {
    m.(g := m.g + [p], vm := m.vm + [0], removed := m.removed + [false], nv := m.nv + 1)
  }

  /**
   * addTriangle(v1, v2, v3) as written: push_back appends after the whole
   * vector, so after a removal (which leaves stale entries above nc) the new
   * vertices do not land on the new corners nc, nc + 1, nc + 2.
   */
  function AddTriangleAsWritten<Pt>(m: MeshState<Pt>, v1: int, v2: int, v3: int): (r: MeshState<Pt>)
    requires Valid(m)
    ensures Valid(r) && r.nt == m.nt + 1 && r.nc == m.nc + 3
    ensures |r.vt| == |m.vt| + 3 && r.vt[|m.vt|] == v1 && r.vt[|m.vt| + 1] == v2 && r.vt[|m.vt| + 2] == v3
  {
    m.(vt := m.vt + [v1, v2, v3], ot := m.ot + [DEFAULT_INDEX, DEFAULT_INDEX, DEFAULT_INDEX],
       tm := m.tm + [0], nt := m.nt + 1, nc := m.nc + 3)
  }

  /**
   * addTriangle(v1, v2, v3) as intended: the stale tail is dropped first, so
   * the new triangle `nt` has corners nc, nc + 1, nc + 2 naming v1, v2, v3.
   * Its opposite entries are default-constructed (not -1) and its marker is 0.
   */
  function AddTriangle<Pt>(m: MeshState<Pt>, v1: int, v2: int, v3: int): (r: MeshState<Pt>)
    requires Valid(m)
    ensures Valid(r) && r.nt == m.nt + 1 && r.nc == m.nc + 3 && |r.vt| == r.nc
    ensures r.vt[m.nc] == v1 && r.vt[m.nc + 1] == v2 && r.vt[m.nc + 2] == v3
    ensures r.ot[m.nc] == r.ot[m.nc + 1] == r.ot[m.nc + 2] == DEFAULT_INDEX && r.tm[m.nt] == 0
    ensures forall x :: 0 <= x < m.nc ==> r.vt[x] == m.vt[x] && r.ot[x] == m.ot[x]
    ensures forall t :: 0 <= t < m.nt ==> r.tm[t] == m.tm[t]
    ensures Bounded(m.ot, m.nc) ==> Bounded(r.ot, r.nc)
    ensures VerticesIn(m.vt, m.nc, m.nv) && 0 <= v1 < m.nv && 0 <= v2 < m.nv && 0 <= v3 < m.nv ==>
      VerticesIn(r.vt, r.nc, r.nv)
    ensures r.g == m.g && r.removed == m.removed && r.vm == m.vm && r.nv == m.nv
    ensures r.tMoves == m.tMoves && r.vMoves == m.vMoves
  {
    m.(vt := m.vt[..m.nc] + [v1, v2, v3], ot := m.ot[..m.nc] + [DEFAULT_INDEX, DEFAULT_INDEX, DEFAULT_INDEX],
       tm := m.tm[..m.nt] + [0], nt := m.nt + 1, nc := m.nc + 3)
  }

  /** Without a stale tail the two readings of addTriangle agree. */
  lemma AddTriangleAgrees<Pt>(m: MeshState<Pt>, v1: int, v2: int, v3: int)
    requires Valid(m) && |m.vt| == m.nc
    ensures AddTriangleAsWritten(m, v1, v2, v3) == AddTriangle(m, v1, v2, v3)
  {
    assert m.vt[..m.nc] == m.vt;
    assert m.ot[..m.nc] == m.ot;
    assert m.tm[..m.nt] == m.tm;
  }

  /** Every removal leaves a stale tail: the vectors keep their length while nc drops. */
  lemma RemovalLeavesTail<Pt>(m: MeshState<Pt>, corner: int)
    requires Valid(m) && 0 <= corner < m.nc
    ensures var r := RemoveTriangle(m, corner); |r.vt| >= r.nc + 3
  {
  }

  /**
   * After a removal, addTriangle as written gives the new triangle's first
   * corner the stale vertex left there, not `v1`.
   */
  lemma AddAfterRemoveIsStale()
    ensures var m := MeshState([0, 1, 2, 0, 2, 3], [-1, -1, -1, -1, -1, -1], [10, 11, 12, 13],
                               [false, false, false, false], [0, 0, 0, 0], [0, 0], 4, 2, 6, [], []);
      var r := AddTriangleAsWritten(RemoveTriangle(m, 3), 7, 8, 9);
      r.nc == 6 && r.vt[3] == 0 && r.vt[3] != 7
  {
    var m := MeshState([0, 1, 2, 0, 2, 3], [-1, -1, -1, -1, -1, -1], [10, 11, 12, 13],
                       [false, false, false, false], [0, 0, 0, 0], [0, 0], 4, 2, 6, [], []);
    RemoveTriangleVt(m, 3);
    var m1 := RemoveTriangle(m, 3);
    assert m1.vt == m.vt;
  }

  /** moveVertex(from, to): vertex `to` takes the point of `from` and a notification `(from, to)` is sent. */
  function MoveVertex<Pt>(m: MeshState<Pt>, from: int, to: int): (r: MeshState<Pt>)
    requires 0 <= from < |m.g| && 0 <= to < |m.g|
    ensures |r.g| == |m.g| && r.g[to] == m.g[from]
    ensures forall w :: 0 <= w < |m.g| && w != to ==> r.g[w] == m.g[w]
    ensures r == m.(g := r.g, vMoves := m.vMoves + [Move(from, to)])
  {
    m.(g := m.g[to := m.g[from]], vMoves := m.vMoves + [Move(from, to)])
  }

  /** resetMarkers: every vertex and triangle marker becomes 0 and every tombstone is lifted; sizes stay. */
  function ResetMarkers<Pt>(m: MeshState<Pt>): (r: MeshState<Pt>)
    ensures |r.vm| == |m.vm| && |r.tm| == |m.tm| && |r.removed| == |m.removed|
    ensures forall w :: 0 <= w < |r.vm| ==> r.vm[w] == 0
    ensures forall t :: 0 <= t < |r.tm| ==> r.tm[t] == 0
    ensures forall w :: 0 <= w < |r.removed| ==> !r.removed[w]
    ensures r == m.(vm := r.vm, tm := r.tm, removed := r.removed)
  {
    m.(vm := seq(|m.vm|, _ => 0), tm := seq(|m.tm|, _ => 0), removed := seq(|m.removed|, _ => false))
  }

  /**
   * c(t, v): the first corner of triangle `t`, in n-order from c(t), whose
   * vertex is `v`; -1 if no corner of `t` names `v`.
   */
  function CornerOf(vt: seq<int>, t: int, v: int): (c: int)
    requires 0 <= t && 3 * t + 3 <= |vt|
    ensures c == -1 <==> vt[3 * t] != v && vt[3 * t + 1] != v && vt[3 * t + 2] != v
    ensures c != -1 ==> 3 * t <= c < 3 * t + 3 && T(c) == t && vt[c] == v && forall x :: 3 * t <= x < c ==> vt[x] != v
  {
    if vt[3 * t] == v then 3 * t
    else if vt[3 * t + 1] == v then 3 * t + 1
    else if vt[3 * t + 2] == v then 3 * t + 2
    else -1
  }

  // ---------------------------------------------------------------------
  // collapseTriangle and the triangle-move handler it registers
  // ---------------------------------------------------------------------

  /** LRTriangleIndexChangeHandler: the two triangles it follows. */
  datatype LRHandler = LRHandler(l: int, r: int)

  /** onTriangleIndexChanged(old, new): the left triangle is checked first, the right only if it did not match. */
  function OnTriangleMoved(h: LRHandler, mv: Move): LRHandler
  {
    if mv.from == h.l then h.(l := mv.to)
    else if mv.from == h.r then h.(r := mv.to)
    else h
  }

  /** The handler after receiving the notifications of `log`, oldest first. */
  function Replay(h: LRHandler, log: seq<Move>): LRHandler
    decreases |log|
  {
    if log == [] then h else Replay(OnTriangleMoved(h, log[0]), log[1..])
  }

  /** Where triangle `t` lives once triangle `from` has been moved into slot `to`. */
  function TriangleMoved(t: int, to: int, from: int): int
  {
    if t == from then to else t
  }

  /** Replaying two logs one after the other is replaying their concatenation. */
  lemma {:induction false} ReplayAppend(h: LRHandler, a: seq<Move>, b: seq<Move>)
    ensures Replay(h, a + b) == Replay(Replay(h, a), b)
    decreases |a|
  {
    if a != [] {
      assert (a + b)[0] == a[0] && (a + b)[1..] == a[1..] + b;
      ReplayAppend(OnTriangleMoved(h, a[0]), a[1..], b);
    } else {
      assert a + b == b;
    }
  }

  /**
   * One removeTriangle notification moves each tracked triangle as the
   * removal moved it, as long as the two are different and neither is the
   * removed one.
   */
  lemma ReplayNotice(h: LRHandler, nt: int, corner: int)
    requires h.l != h.r && h.l != T(corner) && h.r != T(corner)
    ensures Replay(h, Notice(nt, corner)) ==
      LRHandler(TriangleMoved(h.l, T(corner), nt - 1), TriangleMoved(h.r, T(corner), nt - 1))
  {
    var log := Notice(nt, corner);
    if log != [] {
      assert log[1..] == [];
    }
  }

  /** A corner keeps its offset when its triangle moves, and lands in the moved triangle. */
  lemma MovedCorner(x: int, to: int, from: int)
    requires 0 <= x && 0 <= to
    ensures var y := Moved(x, to, from);
      0 <= y && T(y) == TriangleMoved(T(x), to, from) && Offset(y) == Offset(x) && 3 * T(y) + Offset(x) == y
  {
    assert Corner(T(x)) + Offset(x) == x;
  }

  /**
   * The two moves of collapseEdge's removals, on a corner `x` of triangle
   * `tx` outside both removed triangles `th` and `tl`: the corner keeps its
   * offset inside the triangle the moves take `tx` to, and the first move
   * never lands on the second removed triangle.
   */
  lemma TwoMoves(x: int, tx: int, th: int, tl: int, last: int)
    requires 3 * tx <= x < 3 * tx + 3 && 0 <= tl < th <= last
    requires Outside(x, th) && Outside(x, tl)
    ensures var y, ty := Moved(x, th, last), TriangleMoved(tx, th, last);
      ty != tl && tx != th &&
      Moved(y, tl, last - 1) - 3 * TriangleMoved(ty, tl, last - 1) == x - 3 * tx
  {
  }

  /**
   * The handler after the notifications of collapseEdge's two removals
   * (triangle `th` first, then `tl`): each tracked triangle went where the
   * two moves took it, provided the two tracked triangles stay apart from
   * each other and from the removed ones.
   */
  lemma ReplayBoth(h: LRHandler, nt: int, hi: int, lo: int, th: int, tl: int)
    requires th == T(hi) && tl == T(lo) && h.l != h.r && h.l != th && h.r != th
    requires TriangleMoved(h.l, th, nt - 1) != tl && TriangleMoved(h.r, th, nt - 1) != tl
    ensures Replay(h, Notice(nt, hi) + Notice(nt - 1, lo)) ==
      LRHandler(TriangleMoved(TriangleMoved(h.l, th, nt - 1), tl, nt - 2),
                TriangleMoved(TriangleMoved(h.r, th, nt - 1), tl, nt - 2))
  {
    ReplayAppend(h, Notice(nt, hi), Notice(nt - 1, lo));
    ReplayNotice(h, nt, hi);
    var h1 := Replay(h, Notice(nt, hi));
    ReplayNotice(h1, nt - 1, lo);
  }

  /** A corner outside both removed triangles, rebuilt from its triangle after the two moves and its offset. */
  lemma RebuiltCorner(x: int, nt: int, hi: int, lo: int, tx: int, th: int, tl: int, last: int)
    requires tx == T(x) && th == T(hi) && tl == T(lo) && last == nt - 1
    requires 0 <= x && 0 <= tl < th <= last && Outside(x, th) && Outside(x, tl)
    ensures tx != th && TriangleMoved(tx, th, last) != tl
    ensures 3 * TriangleMoved(TriangleMoved(tx, th, last), tl, nt - 2) + Offset(x) == Relocated(x, nt, hi, lo)
  {
    TwoMoves(x, tx, th, tl, last);
    assert Corner(tx) + Offset(x) == x;
    RelocatedIs(x, nt, hi, lo, th, tl, last, last - 1);
  }

  /** The corners rebuilt from what the handler reports after `log`, and the saved offsets of `cl` and `cr`. */
  function Rebuilt(cl: int, cr: int, log: seq<Move>): (int, int)
  {
    var h := Replay(LRHandler(T(cl), T(cr)), log);
    (3 * h.l + Offset(cl), 3 * h.r + Offset(cr))
  }

  /** Rebuilt in terms of the triangles the handler reports. */
  lemma RebuiltIs(cl: int, cr: int, log: seq<Move>, hl: int, hr: int)
    requires Replay(LRHandler(T(cl), T(cr)), log) == LRHandler(hl, hr)
    ensures Rebuilt(cl, cr, log) == (3 * hl + Offset(cl), 3 * hr + Offset(cr))
  {
  }

  /**
   * What the handler reports after the two removals of collapseEdge: for
   * two different tracked triangles, neither removed, the corners rebuilt
   * from the reported triangles and the saved offsets are the relocated
   * corners.
   */
  lemma HandlerTracks(cl: int, cr: int, nt: int, hi: int, lo: int)
    requires 0 <= cl && 0 <= cr && T(cl) != T(cr)
    requires 0 <= T(lo) < T(hi) <= nt - 1
    requires Outside(cl, T(hi)) && Outside(cl, T(lo)) && Outside(cr, T(hi)) && Outside(cr, T(lo))
    ensures var e := Rebuilt(cl, cr, PairNotices(nt, hi, lo));
      e.0 == Relocated(cl, nt, hi, lo) && e.1 == Relocated(cr, nt, hi, lo)
  {
    var th, tl, last, tcl, tcr := T(hi), T(lo), nt - 1, T(cl), T(cr);
    RebuiltCorner(cl, nt, hi, lo, tcl, th, tl, last);
    RebuiltCorner(cr, nt, hi, lo, tcr, th, tl, last);
    var h := LRHandler(tcl, tcr);
    ReplayBoth(h, nt, hi, lo, th, tl);
    assert PairNotices(nt, hi, lo) == Notice(nt, hi) + Notice(nt - 1, lo);
    RebuiltIs(cl, cr, PairNotices(nt, hi, lo),
      TriangleMoved(TriangleMoved(tcl, th, last), tl, nt - 2), TriangleMoved(TriangleMoved(tcr, th, last), tl, nt - 2));
  }

  /** The entries a log holds beyond its first |before| ones. */
  function Received(before: seq<Move>, after: seq<Move>): seq<Move>
  {
    if |before| <= |after| then after[|before|..] else []
  }

  /** What a log received in one append. */
  lemma ReceivedIs(before: seq<Move>, after: seq<Move>, c: seq<Move>)
    requires after == before + c
    ensures Received(before, after) == c
  {
  }

  /** The triangle notifications the first collapseEdge of collapseTriangle sends. */
  lemma CollapseNotices<Pt>(m: MeshState<Pt>, corner: int, opp: int, p: Pt)
    requires CanCollapse(m, corner, opp)
    ensures Received(m.tMoves, CollapseEdge(m, corner, opp, p).0.tMoves) ==
      PairNotices(m.nt, Higher(corner, opp), Lower(corner, opp))
  {
    var hi, lo := Higher(corner, opp), Lower(corner, opp);
    ReceivedIs(m.tMoves, PairLog(m.tMoves, m.nt, hi, lo), PairNotices(m.nt, hi, lo));
  }

  /**
   * The corners collapseTriangle(corner) passes to its second collapseEdge:
   * l(corner) and r(corner) rebuilt from the triangles the handler followed
   * through the first collapseEdge, and their saved offsets.
   */
  function SecondEdge<Pt>(m: MeshState<Pt>, corner: int, p: Pt): (e: (int, int))
    requires 0 <= corner < |m.ot| && CanCollapse(m, corner, m.ot[corner])
  {
    StaysBelow(corner, m.nc);
    Rebuilt(m.ot[N(corner)], m.ot[P(corner)], Received(m.tMoves, CollapseEdge(m, corner, m.ot[corner], p).0.tMoves))
  }

  /** What collapseTriangle(corner) demands: both of its collapseEdge calls can be made. */
  ghost predicate CanCollapseTriangle<Pt>(m: MeshState<Pt>, corner: int, p: Pt)
  {
    Valid(m) && 0 <= corner < |m.ot| && CanCollapse(m, corner, m.ot[corner]) &&
    var e := SecondEdge(m, corner, p);
    CanCollapse(CollapseEdge(m, corner, m.ot[corner], p).0, e.0, e.1)
  }

  /**
   * collapseTriangle(corner, p): collapse the edge facing `corner`, then the
   * edge between the (moved) left and right neighbours of `corner`. Four
   * triangles go; the kept vertex of the second collapse is returned.
   */
  function CollapseTriangle<Pt>(m: MeshState<Pt>, corner: int, p: Pt): (res: (MeshState<Pt>, int))
    requires CanCollapseTriangle(m, corner, p)
    ensures Valid(res.0) && res.0.nt == m.nt - 4 && res.0.nc == m.nc - 12 && res.0.nv == m.nv
    ensures 0 <= res.1 < m.nv
  {
    var first := CollapseEdge(m, corner, m.ot[corner], p).0;
    var e := SecondEdge(m, corner, p);
    CollapseEdge(first, e.0, e.1, p)
  }

  /** The facts about l(corner) and r(corner) that collapseTriangle relies on, on the tables alone. */
  predicate Flanked(ot: seq<int>, corner: int, opp: int, cl: int, cr: int)
  {
    0 <= cl && 0 <= cr && T(cl) != T(cr) &&
    Outside(cl, T(corner)) && Outside(cl, T(opp)) && Outside(cr, T(corner)) && Outside(cr, T(opp))
  }

  /**
   * Zipping the triangles along the edge facing `corner` makes its left and
   * right neighbours face each other; both lie outside the two triangles.
   */
  lemma ZipJoinsFlanks(ot: seq<int>, nc: int, corner: int, opp: int, cl: int, cr: int)
    requires Opposed(ot, nc) && 0 <= corner < nc && 0 <= opp < nc && opp == ot[corner]
    requires Collapsible(ot, nc, corner, opp)
    requires cl == L(ot, nc, corner) && cr == R(ot, nc, corner) && cl != -1 && cr != -1
    ensures corner == ot[opp]
    ensures Flanked(ot, corner, opp, cl, cr)
    ensures var w := ZipClear(ot, nc, corner, opp); w[cl] == cr && Opposed(w, nc)
  {
    Facing(ot, nc, corner);
    StaysBelow(corner, nc);
    StaysBelow(opp, nc);
    ZipReady(ot, nc, corner, opp);
    ZipClearClosed(ot, nc, corner, opp, cl, cr, ot[N(opp)], ot[P(opp)]);
    ZipClearOpposed(ot, nc, corner, opp);
  }

  /** After the first collapse, the relocated l(corner) faces the relocated r(corner). */
  lemma FirstCollapseJoins<Pt>(m: MeshState<Pt>, corner: int, p: Pt, cl: int, cr: int)
    requires 0 <= corner < |m.ot| && CanCollapse(m, corner, m.ot[corner]) && Opposed(m.ot, m.nc)
    requires Collapsible(m.ot, m.nc, corner, m.ot[corner])
    requires cl == L(m.ot, m.nc, corner) && cr == R(m.ot, m.nc, corner) && cl != -1 && cr != -1
    ensures var opp := m.ot[corner]; var hi, lo := Higher(corner, opp), Lower(corner, opp);
      var first := CollapseEdge(m, corner, opp, p).0;
      0 <= Relocated(cl, m.nt, hi, lo) < first.nc &&
      first.ot[Relocated(cl, m.nt, hi, lo)] == Relocated(cr, m.nt, hi, lo)
  {
    var ot, nc, opp := m.ot, m.nc, m.ot[corner];
    ZipJoinsFlanks(ot, nc, corner, opp, cl, cr);
    var w := ZipClear(ot, nc, corner, opp);
    var hi, lo := Higher(corner, opp), Lower(corner, opp);
    assert Outside(cl, T(hi)) && Outside(cl, T(lo));
    var m1 := CollapsePrepare(m, corner, opp, p);
    assert m1.ot == w && m1.nc == nc && m1.nt == m.nt;
    CollapseEdgeIs(m, corner, opp, p);
    RemovePairRelabels(m1, hi, lo, cl);
  }

  /** The second collapseEdge of collapseTriangle is handed the relocated l(corner) and r(corner). */
  lemma SecondEdgeIs<Pt>(m: MeshState<Pt>, corner: int, p: Pt, cl: int, cr: int)
    requires 0 <= corner < |m.ot| && CanCollapse(m, corner, m.ot[corner])
    requires cl == L(m.ot, m.nc, corner) && cr == R(m.ot, m.nc, corner)
    requires Flanked(m.ot, corner, m.ot[corner], cl, cr)
    ensures var opp := m.ot[corner]; var hi, lo := Higher(corner, opp), Lower(corner, opp);
      SecondEdge(m, corner, p).0 == Relocated(cl, m.nt, hi, lo) && SecondEdge(m, corner, p).1 == Relocated(cr, m.nt, hi, lo)
  {
    var opp := m.ot[corner];
    var hi, lo := Higher(corner, opp), Lower(corner, opp);
    LowerTriangle(lo, hi, m.nt);
    assert Outside(cl, T(hi)) && Outside(cl, T(lo)) && Outside(cr, T(hi)) && Outside(cr, T(lo));
    SecondEdgeReceives(m, corner, p, cl, cr);
    TracksFrom(SecondEdge(m, corner, p), cl, cr, m.nt, hi, lo);
  }

  /** HandlerTracks for a pair already known to be the rebuilt one. */
  lemma TracksFrom(e: (int, int), cl: int, cr: int, nt: int, hi: int, lo: int)
    requires 0 <= cl && 0 <= cr && T(cl) != T(cr)
    requires 0 <= T(lo) < T(hi) <= nt - 1
    requires Outside(cl, T(hi)) && Outside(cl, T(lo)) && Outside(cr, T(hi)) && Outside(cr, T(lo))
    requires e == Rebuilt(cl, cr, PairNotices(nt, hi, lo))
    ensures e.0 == Relocated(cl, nt, hi, lo) && e.1 == Relocated(cr, nt, hi, lo)
  {
    HandlerTracks(cl, cr, nt, hi, lo);
  }

  /** The handler of collapseTriangle rebuilds its two corners from the notifications of the first collapseEdge. */
  lemma SecondEdgeReceives<Pt>(m: MeshState<Pt>, corner: int, p: Pt, cl: int, cr: int)
    requires 0 <= corner < |m.ot| && CanCollapse(m, corner, m.ot[corner])
    requires cl == L(m.ot, m.nc, corner) && cr == R(m.ot, m.nc, corner)
    ensures var opp := m.ot[corner];
      SecondEdge(m, corner, p) == Rebuilt(cl, cr, PairNotices(m.nt, Higher(corner, opp), Lower(corner, opp)))
  {
    StaysBelow(corner, m.nc);
    CollapseNotices(m, corner, m.ot[corner], p);
  }

  /**
   * On a mesh whose opposites are an involution between different
   * triangles, the second collapseEdge of collapseTriangle is handed the
   * relocated l(corner) and r(corner), and these face each other after the
   * first collapse: its assertion `corner == o(oppositeCorner)` holds.
   */
  lemma CollapseTriangleTracks<Pt>(m: MeshState<Pt>, corner: int, p: Pt)
    requires 0 <= corner < |m.ot| && CanCollapse(m, corner, m.ot[corner]) && Opposed(m.ot, m.nc)
    requires Collapsible(m.ot, m.nc, corner, m.ot[corner])
    requires L(m.ot, m.nc, corner) != -1 && R(m.ot, m.nc, corner) != -1
    ensures var e := SecondEdge(m, corner, p);
      0 <= e.0 < CollapseEdge(m, corner, m.ot[corner], p).0.nc &&
      CollapseEdge(m, corner, m.ot[corner], p).0.ot[e.0] == e.1
  {
    var cl, cr := L(m.ot, m.nc, corner), R(m.ot, m.nc, corner);
    ZipJoinsFlanks(m.ot, m.nc, corner, m.ot[corner], cl, cr);
    SecondEdgeIs(m, corner, p, cl, cr);
    FirstCollapseJoins(m, corner, p, cl, cr);
  }
}
