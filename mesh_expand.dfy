/**
 * expandVertex (geomUtils/inc/mesh.h, MESH_ALGORITHMS region), the inverse
 * of collapseEdge: one vertex is split in two, the corners of part of its
 * fan move to the new vertex, and two triangles fill the opened gap.
 */
module MeshExpand {
  import opened Wrappers
  import opened CornerOps
  import opened MeshTopology
  import opened MeshEdits

  /**
   * The corners the relabelling loop of expandVertex visits: from
   * beginSwing(s(c1)) up to endSwing(s(c2)), if that takes at most
   * MAX_VALENCE steps.
   */
  function SwingSpan(ot: seq<int>, nc: int, c1: int, c2: int): (r: Option<seq<int>>)
    requires Bounded(ot, nc) && 0 <= c1 < nc && 0 <= c2 < nc
    ensures r.Some? ==>
      1 <= |r.value| <= MAX_VALENCE && r.value[0] == S(ot, nc, c1) && forall i :: 0 <= i < |r.value| ==> 0 <= r.value[i] < nc
  {
    var run := SwingRun(ot, nc, S(ot, nc, c1), S(ot, nc, c2), MAX_VALENCE);
    if run.Some? then
      WalkOrbit(ot, nc, SwingIter(S(ot, nc, c1), false), S(ot, nc, c2), MAX_VALENCE);
      run
    else run
  }

  /**
   * The five setOpposites calls of expandVertex on a table of `nc` corners
   * whose last six belong to the two new triangles. Each swing is taken on
   * the table as the earlier calls left it.
   */
  function ExpandOt(ot: seq<int>, nc: int, c1: int, c2: int, fAdd: bool): (w: seq<int>)
    requires Bounded(ot, nc) && 6 <= nc && 0 <= c1 < nc - 6 && 0 <= c2 < nc - 6
    ensures Bounded(w, nc) && |w| == |ot|
  {
    var off := nc - 6;
    var w2 := FirstLinks(ot, nc, c1);
    StaysBelow(S(w2, nc, c2), nc);
    StaysBelow(c2, nc);
    var a2 := P(S(w2, nc, c2));
    var x3, x5, y := if fAdd then off + 3 else off + 4, if fAdd then off + 5 else off + 3, if fAdd then off + 4 else off + 5;
    Link(Link(Link(w2, nc, a2, x3), nc, N(c2), x5), nc, off + 1, y)
  }

  /** The first two setOpposites calls of expandVertex: p(s(c1)) and n(c1) get the first new triangle. */
  function FirstLinks(ot: seq<int>, nc: int, c1: int): (w: seq<int>)
    requires Bounded(ot, nc) && 6 <= nc && 0 <= c1 < nc - 6
    ensures Bounded(w, nc) && |w| == |ot|
  {
    var off := nc - 6;
    StaysBelow(S(ot, nc, c1), nc);
    StaysBelow(c1, nc);
    Link(Link(ot, nc, P(S(ot, nc, c1)), off), nc, N(c1), off + 2)
  }

  /** setOpposites between live corners (or -1) of a table of `nc` corners. */
  function Link(ot: seq<int>, nc: int, a: int, b: int): (w: seq<int>)
    requires Bounded(ot, nc) && -1 <= a < nc && -1 <= b < nc
    ensures Bounded(w, nc) && w == SetOpp(ot, a, b)
  {
    SetOppBounded(ot, nc, a, b);
    SetOpp(ot, a, b)
  }

  /**
   * The entry of corner `x` once expandVertex has linked a1 and b1 to the
   * first new triangle, a2 and b2 to the second, and the two new triangles
   * to each other; later links win.
   */
  function Linked(ot: seq<int>, nc: int, a1: int, b1: int, a2: int, b2: int, fAdd: bool, x: int): int
    requires 0 <= x < |ot|
  {
    var off := nc - 6;
    var x3, x5, y := if fAdd then off + 3 else off + 4, if fAdd then off + 5 else off + 3, if fAdd then off + 4 else off + 5;
    if x == y then off + 1
    else if x == off + 1 then y
    else if x == x5 then b2
    else if x == b2 then x5
    else if x == x3 then a2
    else if x == a2 then x3
    else if x == off + 2 then b1
    else if x == b1 then off + 2
    else if x == off then a1
    else if x == a1 then off
    else ot[x]
  }

  /**
   * Where l(c1) and l(c2) are corners and n(c2) is neither l(c1) nor
   * n(c1), the five calls link p(s(c1)) = l(c1), n(c1), p(s(c2)) = l(c2)
   * and n(c2) as `Linked` says.
   */
  lemma ExpandOtAt(ot: seq<int>, nc: int, c1: int, c2: int, fAdd: bool, x: int)
    requires Bounded(ot, nc) && 6 <= nc && 0 <= c1 < nc - 6 && 0 <= c2 < nc - 6 && 0 <= x < nc
    requires 0 <= L(ot, nc, c1) && 0 <= L(ot, nc, c2)
    requires N(c2) != L(ot, nc, c1) && N(c2) != N(c1)
    ensures ExpandOt(ot, nc, c1, c2, fAdd)[x] == Linked(ot, nc, L(ot, nc, c1), N(c1), L(ot, nc, c2), N(c2), fAdd, x)
  {
    var off := nc - 6;
    var a1, b1, a2, b2 := L(ot, nc, c1), N(c1), L(ot, nc, c2), N(c2);
    SecondSwing(ot, nc, c1, c2);
    var w2 := FirstLinks(ot, nc, c1);
    FirstLinksAt(ot, nc, c1, x);
    ExpandOtChain(ot, nc, c1, c2, fAdd);
    if fAdd {
      LastLinksAt(w2, a2, b2, off + 3, off + 5, off + 1, off + 4, x);
    } else {
      LastLinksAt(w2, a2, b2, off + 4, off + 3, off + 1, off + 5, x);
    }
  }

  /** The five calls as a chain of setOpposites. */
  lemma ExpandOtChain(ot: seq<int>, nc: int, c1: int, c2: int, fAdd: bool)
    requires Bounded(ot, nc) && 6 <= nc && 0 <= c1 < nc - 6 && 0 <= c2 < nc - 6
    ensures var off, w2 := nc - 6, FirstLinks(ot, nc, c1); var a2 := P(S(w2, nc, c2));
      ExpandOt(ot, nc, c1, c2, fAdd) ==
        if fAdd then SetOpp(SetOpp(SetOpp(w2, a2, off + 3), N(c2), off + 5), off + 1, off + 4)
        else SetOpp(SetOpp(SetOpp(w2, a2, off + 4), N(c2), off + 3), off + 1, off + 5)
  {
  }

  /** The last three calls, read at one index. */
  lemma LastLinksAt(w: seq<int>, a2: int, b2: int, x3: int, x5: int, z: int, y: int, x: int)
    requires 0 <= x < |w|
    ensures SetOpp(SetOpp(SetOpp(w, a2, x3), b2, x5), z, y)[x] ==
      if x == y then z else if x == z then y else if x == x5 then b2 else if x == b2 then x5
      else if x == x3 then a2 else if x == a2 then x3 else w[x]
  {
    SetOppAt(w, a2, x3, x);
    SetOppAt(SetOpp(w, a2, x3), b2, x5, x);
    SetOppAt(SetOpp(SetOpp(w, a2, x3), b2, x5), z, y, x);
  }

  /** The first two calls, read at one index. */
  lemma FirstLinksAt(ot: seq<int>, nc: int, c1: int, x: int)
    requires Bounded(ot, nc) && 6 <= nc && 0 <= c1 < nc - 6 && 0 <= x < nc && 0 <= L(ot, nc, c1)
    ensures var off, a1, b1 := nc - 6, L(ot, nc, c1), N(c1);
      FirstLinks(ot, nc, c1)[x] ==
        if x == off + 2 then b1 else if x == b1 then off + 2 else if x == off then a1 else if x == a1 then off else ot[x]
  {
    var off, a1 := nc - 6, L(ot, nc, c1);
    NextPrev(a1);
    SetOppAt(ot, a1, off, x);
    SetOppAt(SetOpp(ot, a1, off), N(c1), off + 2, x);
  }

  /** One setOpposites call, read at one index. */
  lemma SetOppAt(ot: seq<int>, a: int, b: int, x: int)
    requires 0 <= x < |ot|
    ensures SetOpp(ot, a, b)[x] == if x == b then a else if x == a then b else ot[x]
  {
  }

  /**
   * The first two calls leave n(c2) alone when it is neither l(c1) nor
   * n(c1), so p(s(c2)) is still l(c2); and p(s(c1)) is l(c1).
   */
  lemma SecondSwing(ot: seq<int>, nc: int, c1: int, c2: int)
    requires Bounded(ot, nc) && 6 <= nc && 0 <= c1 < nc - 6 && 0 <= c2 < nc - 6
    requires 0 <= L(ot, nc, c1) && 0 <= L(ot, nc, c2)
    requires N(c2) != L(ot, nc, c1) && N(c2) != N(c1)
    ensures P(S(ot, nc, c1)) == L(ot, nc, c1)
    ensures P(S(FirstLinks(ot, nc, c1), nc, c2)) == L(ot, nc, c2)
  {
    var a1, a2, b2 := L(ot, nc, c1), L(ot, nc, c2), N(c2);
    NextPrev(a1);
    NextPrev(a2);
    TwoFewer(nc);
    StaysBelow(c2, nc - 6);
    var w1 := SetOpp(ot, P(S(ot, nc, c1)), nc - 6);
    SetOppAt(ot, a1, nc - 6, b2);
    SetOppAt(w1, N(c1), nc - 4, b2);
  }

  /**
   * expandVertex keeps the opposites an involution between different
   * triangles, provided l(c1), n(c1), l(c2) and n(c2) are four different
   * corners and neither l(c1) nor l(c2) is a boundary.
   */
  lemma ExpandKeepsOpposed(ot: seq<int>, nc: int, c1: int, c2: int, fAdd: bool)
    requires Bounded(ot, nc) && 6 <= nc && Opposed(ot, nc - 6) && 0 <= c1 < nc - 6 && 0 <= c2 < nc - 6
    requires 0 <= L(ot, nc, c1) && 0 <= L(ot, nc, c2)
    requires var a1, b1, a2, b2 := L(ot, nc, c1), N(c1), L(ot, nc, c2), N(c2);
      a1 != a2 && a1 != b2 && b1 != a2 && b1 != b2
    ensures Opposed(ExpandOt(ot, nc, c1, c2, fAdd), nc)
  {
    var off := nc - 6;
    var a1, b1, a2, b2 := L(ot, nc, c1), N(c1), L(ot, nc, c2), N(c2);
    TwoFewer(nc);
    StaysBelow(c1, off);
    StaysBelow(c2, off);
    Facing(ot, off, b1);
    Facing(ot, off, b2);
    var w := ExpandOt(ot, nc, c1, c2, fAdd);
    forall x | 0 <= x < nc
      ensures -1 <= w[x] < nc
      ensures w[x] != -1 ==> w[x] != x && w[w[x]] == x && T(w[x]) != T(x)
    {
      ExpandOtAt(ot, nc, c1, c2, fAdd, x);
      LinkedAt(ot, nc, nc / 3 - 2, a1, b1, a2, b2, fAdd, x);
      if w[x] != -1 {
        ExpandOtAt(ot, nc, c1, c2, fAdd, w[x]);
      }
    }
    PairedOpposed(w, nc);
  }

  /** Opposed, entry by entry. */
  lemma PairedOpposed(w: seq<int>, nc: int)
    requires 0 <= nc <= |w| && nc % 3 == 0
    requires forall x :: 0 <= x < nc ==> -1 <= w[x] < nc
    requires forall x :: 0 <= x < nc ==> w[x] != -1 ==> w[x] != x && w[w[x]] == x && T(w[x]) != T(x)
    ensures Opposed(w, nc)
  {
  }

  /**
   * `Linked` pairs corners up: where a1, b1 and a2, b2 were opposite pairs
   * of a table whose opposites were an involution between different
   * triangles, so is the relinked table.
   */
  lemma LinkedAt(ot: seq<int>, nc: int, k: nat, a1: int, b1: int, a2: int, b2: int, fAdd: bool, x: int)
    requires nc == 3 * k + 6 && nc <= |ot| && Opposed(ot, nc - 6) && 0 <= x < nc
    requires 0 <= a1 < nc - 6 && 0 <= b1 < nc - 6 && 0 <= a2 < nc - 6 && 0 <= b2 < nc - 6
    requires ot[b1] == a1 && ot[b2] == a2 && ot[a1] == b1 && ot[a2] == b2
    requires a1 != a2 && a1 != b2 && b1 != a2 && b1 != b2
    ensures var w := Linked(ot, nc, a1, b1, a2, b2, fAdd, x);
      -1 <= w < nc && (w != -1 ==> w != x && T(w) != T(x) && Linked(ot, nc, a1, b1, a2, b2, fAdd, w) == x)
  {
    var off := 3 * k;
    var lk := Linked(ot, nc, a1, b1, a2, b2, fAdd, x);
    assert a1 != b1 && a2 != b2 by {
      Facing(ot, off, b1);
      Facing(ot, off, b2);
    }
    if off <= x {
      NewCornerLinked(ot, nc, k, a1, b1, a2, b2, fAdd, x);
    } else if x == a1 || x == b1 || x == a2 || x == b2 {
      OldEndLinked(ot, nc, k, a1, b1, a2, b2, fAdd, x);
    } else if ot[x] != -1 {
      Facing(ot, off, x);
      assert lk == ot[x];
    }
  }

  /** The six new corners are each linked to a partner in another triangle. */
  lemma NewCornerLinked(ot: seq<int>, nc: int, k: nat, a1: int, b1: int, a2: int, b2: int, fAdd: bool, x: int)
    requires nc == 3 * k + 6 && nc <= |ot| && 3 * k <= x < nc
    requires 0 <= a1 < 3 * k && 0 <= b1 < 3 * k && 0 <= a2 < 3 * k && 0 <= b2 < 3 * k
    requires a1 != a2 && a1 != b2 && b1 != a2 && b1 != b2 && a1 != b1 && a2 != b2
    ensures var w := Linked(ot, nc, a1, b1, a2, b2, fAdd, x);
      0 <= w < nc && w != x && T(w) != T(x) && Linked(ot, nc, a1, b1, a2, b2, fAdd, w) == x
  {
    assert T(3 * k) == T(3 * k + 1) == T(3 * k + 2) == k;
    assert T(3 * k + 3) == T(3 * k + 4) == T(3 * k + 5) == k + 1;
  }

  /** The four old corners l(c1), n(c1), l(c2), n(c2) are each linked to a new corner. */
  lemma OldEndLinked(ot: seq<int>, nc: int, k: nat, a1: int, b1: int, a2: int, b2: int, fAdd: bool, x: int)
    requires nc == 3 * k + 6 && nc <= |ot|
    requires 0 <= a1 < 3 * k && 0 <= b1 < 3 * k && 0 <= a2 < 3 * k && 0 <= b2 < 3 * k
    requires a1 != a2 && a1 != b2 && b1 != a2 && b1 != b2 && a1 != b1 && a2 != b2
    requires x == a1 || x == b1 || x == a2 || x == b2
    ensures var w := Linked(ot, nc, a1, b1, a2, b2, fAdd, x);
      0 <= w < nc && w != x && T(w) != T(x) && Linked(ot, nc, a1, b1, a2, b2, fAdd, w) == x
  {
    assert T(3 * k) == T(3 * k + 1) == T(3 * k + 2) == k;
    assert T(3 * k + 3) == T(3 * k + 4) == T(3 * k + 5) == k + 1;
    assert T(x) < k;
  }

  /** Two triangles more is still a whole number of triangles. */
  lemma SixMore(nc: int, nc': int)
    requires nc % 3 == 0 && nc' == nc + 6
    ensures nc' % 3 == 0
  {
    assert nc' == 3 * (nc / 3 + 2);
  }

  /** Two triangles fewer is still a whole number of triangles. */
  lemma TwoFewer(nc: int)
    requires nc % 3 == 0
    ensures (nc - 6) % 3 == 0
  {
    assert nc - 6 == 3 * (nc / 3 - 2);
  }

  /**
   * What expandVertex demands: the mesh invariant, two corners of the same
   * vertex, and a swing from s(c1) that reaches s(c2) within MAX_VALENCE
   * steps.
   */
  ghost predicate CanExpand<Pt>(m: MeshState<Pt>, c1: int, c2: int)
  {
    Valid(m) && Bounded(m.ot, m.nc) && VerticesIn(m.vt, m.nc, m.nv) &&
    0 <= c1 < m.nc && 0 <= c2 < m.nc && m.vt[c1] == m.vt[c2] &&
    SwingSpan(m.ot, m.nc, c1, c2).Some?
  }

  /** The vertex table after the relabelling loop: the swing span names the new vertex `nv`. */
  function SplitVt<Pt>(m: MeshState<Pt>, c1: int, c2: int): (vt: seq<int>)
    requires CanExpand(m, c1, c2)
    ensures |vt| == |m.vt|
  {
    Relabel(m.vt, SwingSpan(m.ot, m.nc, c1, c2).value, m.nv)
  }

  /**
   * The vertex table after the two addTriangle calls of expandVertex:
   * (v(c1), v(p(c1)), v(c2)) and then (v(c2), v(p(c2)), v(c1)) when
   * `fAdd`, else (v(c1), v(c2), v(p(c2))).
   */
  function GapVt(vt: seq<int>, nc: int, c1: int, c2: int, fAdd: bool): (w: seq<int>)
    requires nc <= |vt| && nc % 3 == 0 && 0 <= c1 < nc && 0 <= c2 < nc
    ensures |w| == nc + 6 && forall x :: 0 <= x < nc ==> w[x] == vt[x]
  {
    StaysBelow(c1, nc);
    StaysBelow(c2, nc);
    var a, b, c, d := vt[c1], vt[P(c1)], vt[c2], vt[P(c2)];
    vt[..nc] + [a, b, c] + if fAdd then [c, d, a] else [a, c, d]
  }

  /** The opposite table after the two addTriangle calls: six default-constructed entries. */
  function GapOt(ot: seq<int>, nc: int): (w: seq<int>)
    requires Bounded(ot, nc)
    ensures |w| == nc + 6 && Bounded(w, nc + 6) && forall x :: 0 <= x < nc ==> w[x] == ot[x]
  {
    ot[..nc] + [DEFAULT_INDEX, DEFAULT_INDEX, DEFAULT_INDEX, DEFAULT_INDEX, DEFAULT_INDEX, DEFAULT_INDEX]
  }

  /** The two triangles of expandVertex, before they are linked. */
  function AddGap<Pt>(m: MeshState<Pt>, c1: int, c2: int, fAdd: bool): (r: MeshState<Pt>)
    requires Valid(m) && Bounded(m.ot, m.nc) && 0 <= c1 < m.nc && 0 <= c2 < m.nc
    ensures Valid(r) && r.nv == m.nv && r.nt == m.nt + 2 && r.nc == m.nc + 6 && Bounded(r.ot, r.nc)
  {
    m.(vt := GapVt(m.vt, m.nc, c1, c2, fAdd), ot := GapOt(m.ot, m.nc), tm := m.tm[..m.nt] + [0, 0],
       nt := m.nt + 2, nc := m.nc + 6)
  }

  /** AddGap is the two addTriangle calls of expandVertex. */
  lemma AddGapIsTwoAdds<Pt>(m: MeshState<Pt>, c1: int, c2: int, fAdd: bool)
    requires Valid(m) && Bounded(m.ot, m.nc) && 0 <= c1 < m.nc && 0 <= c2 < m.nc
    ensures P(c1) < m.nc && P(c2) < m.nc
    ensures var a, b, c, d := m.vt[c1], m.vt[P(c1)], m.vt[c2], m.vt[P(c2)];
      var m4 := AddTriangle(m, a, b, c);
      AddGap(m, c1, c2, fAdd) == if fAdd then AddTriangle(m4, c, d, a) else AddTriangle(m4, a, c, d)
  {
    StaysBelow(c1, m.nc);
    StaysBelow(c2, m.nc);
    var a, b, c, d := m.vt[c1], m.vt[P(c1)], m.vt[c2], m.vt[P(c2)];
    var m4 := AddTriangle(m, a, b, c);
    var r := if fAdd then AddTriangle(m4, c, d, a) else AddTriangle(m4, a, c, d);
    var g := AddGap(m, c1, c2, fAdd);
    assert r.vt == g.vt;
    assert r.ot == g.ot;
    assert r.tm == g.tm;
  }

  /**
   * Without a stale tail (|vt| == nc), AddGap is also the two addTriangle
   * calls as written, which append after the whole vectors.
   */
  lemma AddGapAgrees<Pt>(m: MeshState<Pt>, c1: int, c2: int, fAdd: bool)
    requires Valid(m) && Bounded(m.ot, m.nc) && 0 <= c1 < m.nc && 0 <= c2 < m.nc && |m.vt| == m.nc
    ensures P(c1) < m.nc && P(c2) < m.nc
    ensures var a, b, c, d := m.vt[c1], m.vt[P(c1)], m.vt[c2], m.vt[P(c2)];
      var m4 := AddTriangleAsWritten(m, a, b, c);
      AddGap(m, c1, c2, fAdd) == if fAdd then AddTriangleAsWritten(m4, c, d, a) else AddTriangleAsWritten(m4, a, c, d)
  {
    AddGapIsTwoAdds(m, c1, c2, fAdd);
    var a, b, c, d := m.vt[c1], m.vt[P(c1)], m.vt[c2], m.vt[P(c2)];
    AddTriangleAgrees(m, a, b, c);
    var m4 := AddTriangle(m, a, b, c);
    if fAdd {
      AddTriangleAgrees(m4, c, d, a);
    } else {
      AddTriangleAgrees(m4, a, c, d);
    }
  }

  /**
   * expandVertex(c1, c2, g1, g2, fAdd): v(c1) gets point g1, a new vertex
   * with point g2 takes the corners from s(c1) up to (not including)
   * s(c2), and two triangles are added and linked into the opened gap. The
   * new vertex is returned.
   */
  function ExpandVertex<Pt>(m: MeshState<Pt>, c1: int, c2: int, g1: Pt, g2: Pt, fAdd: bool): (res: (MeshState<Pt>, int))
    requires CanExpand(m, c1, c2)
    ensures var r := res.0;
      Valid(r) && r.nv == m.nv + 1 && r.nt == m.nt + 2 && r.nc == m.nc + 6 && res.1 == m.nv
    ensures res.0.g[m.vt[c1]] == g1 && res.0.g[m.nv] == g2 && !res.0.removed[m.nv]
    ensures res.0.tMoves == m.tMoves && res.0.vMoves == m.vMoves
  {
    var ot, nc, v1 := m.ot, m.nc, m.vt[c1];
    var w := ExpandedOt(ot, nc, c1, c2, fAdd);
    var vt := GapVt(SplitVt(m, c1, c2), nc, c1, c2, fAdd);
    (m.(g := m.g[v1 := g1] + [g2], vm := m.vm + [0], removed := m.removed + [false], nv := m.nv + 1,
        vt := vt, ot := w, tm := m.tm[..m.nt] + [0, 0], nt := m.nt + 2, nc := nc + 6),
     m.nv)
  }

  /** The opposite table expandVertex leaves: the two new triangles appended, then linked. */
  function ExpandedOt(ot: seq<int>, nc: int, c1: int, c2: int, fAdd: bool): (w: seq<int>)
    requires Bounded(ot, nc) && 0 <= c1 < nc && 0 <= c2 < nc
    ensures |w| == nc + 6 && Bounded(w, nc + 6)
  {
    ExpandOt(GapOt(ot, nc), nc + 6, c1, c2, fAdd)
  }

  /** The first half of expandVertex: v(c1) gets g1, the new vertex g2 is added and the span relabelled. */
  function SplitStage<Pt>(m: MeshState<Pt>, c1: int, c2: int, g1: Pt, g2: Pt): (r: MeshState<Pt>)
    requires CanExpand(m, c1, c2)
    ensures Valid(r) && Bounded(r.ot, r.nc) && r.nc == m.nc && r.nv == m.nv + 1 && |r.vt| == |m.vt|
    ensures r.g[m.vt[c1]] == g1 && r.g[m.nv] == g2 && !r.removed[m.nv]
  {
    m.(g := m.g[m.vt[c1] := g1] + [g2], vm := m.vm + [0], removed := m.removed + [false],
       nv := m.nv + 1, vt := SplitVt(m, c1, c2))
  }

  /** ExpandVertex is the split, AddGap, then the five links. */
  lemma ExpandVertexIsGap<Pt>(m: MeshState<Pt>, c1: int, c2: int, g1: Pt, g2: Pt, fAdd: bool, m2: MeshState<Pt>)
    requires CanExpand(m, c1, c2) && m2 == AddGap(SplitStage(m, c1, c2, g1, g2), c1, c2, fAdd)
    ensures ExpandVertex(m, c1, c2, g1, g2, fAdd).0 == m2.(ot := ExpandOt(m2.ot, m2.nc, c1, c2, fAdd))
  {
    var m1 := SplitStage(m, c1, c2, g1, g2);
    assert m1.ot == m.ot && m1.nc == m.nc && m1.nt == m.nt && m1.tm == m.tm && m1.vt == SplitVt(m, c1, c2);
    assert m2.ot == GapOt(m.ot, m.nc) && m2.vt == GapVt(SplitVt(m, c1, c2), m.nc, c1, c2, fAdd);
    var r, w := ExpandVertex(m, c1, c2, g1, g2, fAdd).0, ExpandOt(m2.ot, m2.nc, c1, c2, fAdd);
    ExpandedIs(m.ot, m.nc, c1, c2, fAdd, m2.ot, m2.nc);
    assert r.ot == w;
    assert r.vt == m2.vt;
    assert r.tm == m2.tm;
    assert r.g == m2.g;
    assert r.vm == m2.vm && r.removed == m2.removed && r.tMoves == m2.tMoves && r.vMoves == m2.vMoves;
    assert r.nv == m2.nv && r.nt == m2.nt && r.nc == m2.nc;
  }

  /** ExpandedOt on a gap table given by name. */
  lemma ExpandedIs(ot: seq<int>, nc: int, c1: int, c2: int, fAdd: bool, w: seq<int>, n: int)
    requires Bounded(ot, nc) && 0 <= c1 < nc && 0 <= c2 < nc && w == GapOt(ot, nc) && n == nc + 6
    ensures Bounded(w, n) && ExpandedOt(ot, nc, c1, c2, fAdd) == ExpandOt(w, n, c1, c2, fAdd)
  {
  }

  /**
   * ExpandVertex reads addTriangle as corrected. On a mesh without a stale
   * tail it is also expandVertex with addTriangle as written: the split,
   * the two as-written additions (with the relabelled vertices) and the
   * five links.
   */
  lemma ExpandVertexAgrees<Pt>(m: MeshState<Pt>, c1: int, c2: int, g1: Pt, g2: Pt, fAdd: bool)
    requires CanExpand(m, c1, c2) && |m.vt| == m.nc
    ensures P(c1) < m.nc && P(c2) < m.nc
    ensures var m1 := SplitStage(m, c1, c2, g1, g2);
      var a, b, c, d := m1.vt[c1], m1.vt[P(c1)], m1.vt[c2], m1.vt[P(c2)];
      var m4 := AddTriangleAsWritten(m1, a, b, c);
      var m6 := if fAdd then AddTriangleAsWritten(m4, c, d, a) else AddTriangleAsWritten(m4, a, c, d);
      Bounded(m6.ot, m6.nc) && ExpandVertex(m, c1, c2, g1, g2, fAdd).0 == m6.(ot := ExpandOt(m6.ot, m6.nc, c1, c2, fAdd))
  {
    var m1 := SplitStage(m, c1, c2, g1, g2);
    AddGapAgrees(m1, c1, c2, fAdd);
    ExpandVertexIsGap(m, c1, c2, g1, g2, fAdd, AddGap(m1, c1, c2, fAdd));
  }

  /** The two tables expandVertex leaves, as table functions. */
  lemma ExpandVertexTables<Pt>(m: MeshState<Pt>, c1: int, c2: int, g1: Pt, g2: Pt, fAdd: bool)
    requires CanExpand(m, c1, c2)
    ensures var r := ExpandVertex(m, c1, c2, g1, g2, fAdd).0;
      r.vt == GapVt(SplitVt(m, c1, c2), m.nc, c1, c2, fAdd) && r.ot == ExpandedOt(m.ot, m.nc, c1, c2, fAdd)
  {
  }

  /** Opposed reads only the first `nc` entries. */
  lemma OpposedPrefix(ot: seq<int>, w: seq<int>, nc: int)
    requires Opposed(ot, nc) && nc <= |w| && forall x :: 0 <= x < nc ==> w[x] == ot[x]
    ensures Opposed(w, nc)
  {
  }

  /**
   * The opposite table expandVertex leaves (ExpandVertexTables) keeps the
   * opposites an involution between different triangles when l(c1), n(c1),
   * l(c2) and n(c2) are four different corners and neither l(c1) nor l(c2)
   * is a boundary: the old pairs (l(c1), n(c1)) and (l(c2), n(c2)) are split
   * by the new triangles, which face each other across their shared edge.
   */
  lemma ExpandedOtOpposed(ot: seq<int>, nc: int, c1: int, c2: int, fAdd: bool)
    requires Opposed(ot, nc) && 0 <= c1 < nc && 0 <= c2 < nc
    requires 0 <= L(ot, nc, c1) && 0 <= L(ot, nc, c2)
    requires var a1, b1, a2, b2 := L(ot, nc, c1), N(c1), L(ot, nc, c2), N(c2);
      a1 != a2 && a1 != b2 && b1 != a2 && b1 != b2
    ensures Opposed(ExpandedOt(ot, nc, c1, c2, fAdd), nc + 6)
  {
    var w := GapOt(ot, nc);
    OpposedPrefix(ot, w, nc);
    StaysBelow(c1, nc);
    StaysBelow(c2, nc);
    assert L(w, nc + 6, c1) == L(ot, nc, c1) && L(w, nc + 6, c2) == L(ot, nc, c2);
    ExpandKeepsOpposed(w, nc + 6, c1, c2, fAdd);
  }

  /**
   * The vertex table after expandVertex: the corners of the swing span name
   * the new vertex, every other old corner keeps its vertex, and the two
   * new triangles name the (relabelled) vertices of c1, p(c1), c2, p(c2).
   */
  lemma ExpandVertexCorners<Pt>(m: MeshState<Pt>, c1: int, c2: int, g1: Pt, g2: Pt, fAdd: bool)
    requires CanExpand(m, c1, c2)
    ensures var r, span := ExpandVertex(m, c1, c2, g1, g2, fAdd).0, SwingSpan(m.ot, m.nc, c1, c2).value;
      |r.vt| == m.nc + 6 && P(c1) < m.nc && P(c2) < m.nc &&
      (forall x :: 0 <= x < m.nc ==> r.vt[x] == if x in span then m.nv else m.vt[x]) &&
      r.vt[m.nc] == r.vt[c1] && r.vt[m.nc + 1] == r.vt[P(c1)] && r.vt[m.nc + 2] == r.vt[c2] &&
      (fAdd ==> r.vt[m.nc + 3] == r.vt[c2] && r.vt[m.nc + 4] == r.vt[P(c2)] && r.vt[m.nc + 5] == r.vt[c1]) &&
      (!fAdd ==> r.vt[m.nc + 3] == r.vt[c1] && r.vt[m.nc + 4] == r.vt[c2] && r.vt[m.nc + 5] == r.vt[P(c2)])
  {
    var vt, nc := SplitVt(m, c1, c2), m.nc;
    GapCorners(vt, nc, c1, c2, fAdd);
    ExpandVertexTables(m, c1, c2, g1, g2, fAdd);
  }

  /** The table-level half of ExpandVertexCorners: where the two new triangles' entries come from. */
  lemma GapCorners(vt: seq<int>, nc: int, c1: int, c2: int, fAdd: bool)
    requires nc <= |vt| && nc % 3 == 0 && 0 <= c1 < nc && 0 <= c2 < nc
    ensures var w := GapVt(vt, nc, c1, c2, fAdd);
      P(c1) < nc && P(c2) < nc &&
      w[nc] == w[c1] && w[nc + 1] == w[P(c1)] && w[nc + 2] == w[c2] &&
      (fAdd ==> w[nc + 3] == w[c2] && w[nc + 4] == w[P(c2)] && w[nc + 5] == w[c1]) &&
      (!fAdd ==> w[nc + 3] == w[c1] && w[nc + 4] == w[c2] && w[nc + 5] == w[P(c2)])
  {
    StaysBelow(c1, nc);
    StaysBelow(c2, nc);
  }

  /**
   * On a closed mesh whose opposites are an involution, the swing span of
   * expandVertex runs from s(c1) to c2: both end on the new vertex, as the
   * source's comment on expandVertex says.
   */
  lemma ExpandSpanEnds<Pt>(m: MeshState<Pt>, c1: int, c2: int)
    requires CanExpand(m, c1, c2) && Consistent(m.ot, m.nc)
    requires forall x :: 0 <= x < m.nc ==> m.ot[x] != -1
    ensures var span := SwingSpan(m.ot, m.nc, c1, c2).value;
      span[0] == S(m.ot, m.nc, c1) && span[|span| - 1] == c2
  {
    var ot, nc := m.ot, m.nc;
    var s1, s2 := S(ot, nc, c1), S(ot, nc, c2);
    var span := SwingSpan(ot, nc, c1, c2).value;
    var it := SwingIter(s1, false);
    WalkOrbit(ot, nc, it, s2, MAX_VALENCE);
    WalkStops(ot, nc, it, s2, MAX_VALENCE);
    var k := |span| - 1;
    var last := span[k];
    assert last == SwingPow(ot, nc, s1, k);
    assert S(ot, nc, last) == s2;
    StaysBelow(last, nc);
    StaysBelow(c2, nc);
    UnswingSwing(ot, nc, last);
    UnswingSwing(ot, nc, c2);
  }
}
