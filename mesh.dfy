/**
 * The Mesh class of geomUtils/inc/mesh.h as an object: its tables are
 * fields that its methods update in place, step by step as the source
 * does. Each method promises to leave the state the matching function on
 * `MeshState` computes, so everything proved about those functions holds
 * of the object.
 */
module Meshes {
  import opened Wrappers
  import opened CornerOps
  import opened MeshTopology
  import opened MeshEdits
  import opened MeshExpand
  import opened MeshCompact
  import ComputeOpposites
  import Helpers

  /** removeTriangle, field by field. */
  lemma RemoveTriangleFields<Pt>(m: MeshState<Pt>, corner: int)
    requires Valid(m) && 0 <= corner < m.nc
    ensures var to, from := T(corner), m.nt - 1;
      MeshTopology.RemoveTriangle(m, corner) ==
      m.(vt := RemovedV(m.vt, to, from), ot := RemovedOt(m.ot, m.nc, to, from),
         tm := RemovedTm(m.tm, to, from), tMoves := m.tMoves + Notice(m.nt, corner), nt := m.nt - 1, nc := m.nc - 3)
  {
  }

  /** The corners from beginSwingIterator(start) to endSwingIterator(stop), within `fuel` visits. */
  function RunOf(ot: seq<int>, nc: int, start: int, stop: int, fuel: nat): (r: Option<seq<int>>)
    requires Bounded(ot, nc) && 0 <= start < nc
    ensures r == SwingRun(ot, nc, start, stop, fuel)
    ensures r.Some? ==> forall i :: 0 <= i < |r.value| ==> 0 <= r.value[i] < nc
  {
    var run := SwingRun(ot, nc, start, stop, fuel);
    if run.Some? then WalkOrbit(ot, nc, SwingIter(start, false), stop, fuel); run else run
  }

  /** One step of a walk that has not reached its end: the walk is its corner followed by the rest. */
  lemma WalkNext(ot: seq<int>, nc: int, it: SwingIter, stop: int, fuel: nat, run: seq<int>)
    requires Bounded(ot, nc) && 0 <= it.corner < nc && it != SwingIter(stop, true)
    requires Walk(ot, nc, it, stop, fuel) == Some(run)
    ensures fuel > 0 && |run| > 0 && run[0] == it.corner
    ensures Walk(ot, nc, Advance(ot, nc, it), stop, fuel - 1) == Some(run[1..])
  {
  }

  /** The triangle of a live corner and the last triangle both have their three slots in the tables. */
  lemma SlotsFit(corner: int, nt: int, size: int)
    requires 0 <= corner < 3 * nt && nt <= size
    ensures 0 <= T(corner) <= nt - 1 && 3 * T(corner) + 3 <= 3 * size && 3 * (nt - 1) + 3 <= 3 * size
  {
  }

  /** The first two setOpposites calls of expandVertex give FirstLinks. */
  lemma FirstLinkSteps(ot: seq<int>, nc: int, c1: int, a1: int, w1: seq<int>, w: seq<int>)
    requires Bounded(ot, nc) && 6 <= nc && 0 <= c1 < nc - 6 && a1 == P(S(ot, nc, c1))
    requires w1 == SetOpp(ot, a1, nc - 6) && w == SetOpp(w1, N(c1), nc - 4)
    ensures w == FirstLinks(ot, nc, c1)
  {
    StaysBelow(S(ot, nc, c1), nc);
  }

  /** The last three setOpposites calls of expandVertex, after the first two, give ExpandOt. */
  lemma LinkGapSteps(ot: seq<int>, nc: int, c1: int, c2: int, fAdd: bool, w2: seq<int>, a2: int, x3: int, x5: int, y: int,
                     w3: seq<int>, w4: seq<int>, w: seq<int>)
    requires Bounded(ot, nc) && 6 <= nc && 0 <= c1 < nc - 6 && 0 <= c2 < nc - 6
    requires w2 == FirstLinks(ot, nc, c1) && 0 <= S(w2, nc, c2) < nc && a2 == P(S(w2, nc, c2))
    requires x3 == (if fAdd then nc - 3 else nc - 2) && x5 == (if fAdd then nc - 1 else nc - 3)
    requires y == (if fAdd then nc - 2 else nc - 1)
    requires w3 == SetOpp(w2, a2, x3) && w4 == SetOpp(w3, N(c2), x5) && w == SetOpp(w4, nc - 5, y)
    ensures w == ExpandOt(ot, nc, c1, c2, fAdd)
  {
  }

  /** The links of expandVertex depend on the table and its size only. */
  lemma GapLinkedAt(ot: seq<int>, nc: int, gap: seq<int>, gapNc: int, c1: int, c2: int, fAdd: bool)
    requires Bounded(ot, nc) && 0 <= c1 < nc && 0 <= c2 < nc && gap == GapOt(ot, nc) && gapNc == nc + 6
    ensures ExpandOt(gap, gapNc, c1, c2, fAdd) == ExpandOt(GapOt(ot, nc), nc + 6, c1, c2, fAdd)
  {
  }

  /** Linking the gap of a table is what expandVertex does to that table. */
  lemma GapLinked(ot: seq<int>, nc: int, gap: seq<int>, gapNc: int, c1: int, c2: int, fAdd: bool)
    requires Bounded(ot, nc) && 0 <= c1 < nc && 0 <= c2 < nc && gap == GapOt(ot, nc) && gapNc == nc + 6
    ensures ExpandOt(gap, gapNc, c1, c2, fAdd) == ExpandedOt(ot, nc, c1, c2, fAdd)
  {
    GapLinkedAt(ot, nc, gap, gapNc, c1, c2, fAdd);
  }

  /** expandVertex is the split, the two added triangles and the five links, in that order. */
  lemma ExpandVertexSteps<Pt>(m0: MeshState<Pt>, m1: MeshState<Pt>, m2: MeshState<Pt>, m3: MeshState<Pt>,
                              c1: int, c2: int, g1: Pt, g2: Pt, fAdd: bool)
    requires CanExpand(m0, c1, c2)
    requires m1 == m0.(g := m0.g[m0.vt[c1] := g1] + [g2], vm := m0.vm + [0], removed := m0.removed + [false],
                       nv := m0.nv + 1, vt := SplitVt(m0, c1, c2))
    requires m2 == m1.(vt := GapVt(m1.vt, m1.nc, c1, c2, fAdd), ot := GapOt(m1.ot, m1.nc), tm := m1.tm[..m1.nt] + [0, 0],
                       nt := m1.nt + 2, nc := m1.nc + 6)
    requires Bounded(m2.ot, m2.nc) && m3 == m2.(ot := ExpandOt(m2.ot, m2.nc, c1, c2, fAdd))
    ensures MeshExpand.ExpandVertex(m0, c1, c2, g1, g2, fAdd).0 == m3
    ensures MeshExpand.ExpandVertex(m0, c1, c2, g1, g2, fAdd).1 == m3.nv - 1
  {
    GapLinked(m0.ot, m0.nc, m2.ot, m2.nc, c1, c2, fAdd);
    ExpandVertexFields(m0, c1, c2, g1, g2, fAdd);
  }

  /** expandVertex, field by field. */
  lemma ExpandVertexFields<Pt>(m: MeshState<Pt>, c1: int, c2: int, g1: Pt, g2: Pt, fAdd: bool)
    requires CanExpand(m, c1, c2)
    ensures MeshExpand.ExpandVertex(m, c1, c2, g1, g2, fAdd) ==
      (m.(g := m.g[m.vt[c1] := g1] + [g2], vm := m.vm + [0], removed := m.removed + [false], nv := m.nv + 1,
          vt := GapVt(SplitVt(m, c1, c2), m.nc, c1, c2, fAdd), ot := ExpandedOt(m.ot, m.nc, c1, c2, fAdd),
          tm := m.tm[..m.nt] + [0, 0], nt := m.nt + 2, nc := m.nc + 6),
       m.nv)
  {
  }

  /** collapseTriangle is two collapseEdge calls, the second on the corners the handler rebuilt. */
  lemma CollapseTriangleSteps<Pt>(m0: MeshState<Pt>, m1: MeshState<Pt>, corner: int, p: Pt, e0: int, e1: int)
    requires CanCollapseTriangle(m0, corner, p) && m1 == MeshTopology.CollapseEdge(m0, corner, m0.ot[corner], p).0
    requires 0 <= corner < m0.nc
    requires var h := Replay(LRHandler(T(m0.ot[N(corner)]), T(m0.ot[P(corner)])), Received(m0.tMoves, m1.tMoves));
      e0 == 3 * h.l + Offset(m0.ot[N(corner)]) && e1 == 3 * h.r + Offset(m0.ot[P(corner)])
    ensures CanCollapse(m1, e0, e1)
    ensures MeshEdits.CollapseTriangle(m0, corner, p).0 == MeshTopology.CollapseEdge(m1, e0, e1, p).0
    ensures MeshEdits.CollapseTriangle(m0, corner, p).1 == MeshTopology.CollapseEdge(m1, e0, e1, p).1
  {
    var e := SecondEdge(m0, corner, p);
    assert e.0 == e0 && e.1 == e1;
  }

  /** One more vertex: the rank grows by one exactly when the vertex survives. */
  lemma RankStep(removed: seq<bool>, v: int)
    requires 0 <= v < |removed|
    ensures Rank(removed, v + 1) == Rank(removed, v) + if removed[v] then 0 else 1
  {
    assert removed[..v + 1][..v] == removed[..v];
  }

  /**
   * The state of compressVTable's vertex loop after the vertices below `v`:
   * the first `count` survivors, all below `v`, have their points in slots
   * 0 .. count - 1 and their moves logged, the slots from `v` on are
   * untouched, and the map is filled below `v`.
   */
  ghost predicate Gathering<Pt>(removed: seq<bool>, s: seq<int>, cm: seq<int>, g0: seq<Pt>,
                                v: int, count: int, mp: seq<int>, g: seq<Pt>, log: seq<Move>)
  {
    0 <= v <= |removed| == |g0| == |g| == |mp| == |cm| && 0 <= count <= |s| && count <= v &&
    (forall i :: 0 <= i < count ==> 0 <= s[i] < v) && (count < |s| ==> v <= s[count]) &&
    (forall x :: 0 <= x < |mp| ==> mp[x] == if x < v then cm[x] else 0) &&
    (forall i :: 0 <= i < count ==> g[i] == g0[s[i]]) && (forall x :: v <= x < |g| ==> g[x] == g0[x]) &&
    |log| == count && forall i :: 0 <= i < count ==> log[i] == Move(s[i], i)
  }

  /**
   * What the vertex loop relies on about the survivors `s` and the map
   * `cm`: the survivors are the vertices not removed, in increasing order,
   * and the map sends the i-th survivor to i and every removed vertex to 0.
   */
  ghost predicate Ranking(removed: seq<bool>, s: seq<int>, cm: seq<int>)
  {
    |cm| == |removed| &&
    (forall i :: 0 <= i < |s| ==> 0 <= s[i] < |removed| && !removed[s[i]] && cm[s[i]] == i) &&
    (forall i, j :: 0 <= i < j < |s| ==> s[i] < s[j]) &&
    (forall x :: 0 <= x < |removed| && !removed[x] ==> x in s) &&
    (forall x :: 0 <= x < |removed| && removed[x] ==> cm[x] == 0)
  }

  /** The survivors and vToCompressedVMap are such a pair. */
  lemma RankingHolds(removed: seq<bool>)
    ensures Ranking(removed, Survivors(removed), CompressMap(removed))
  {
    forall i | 0 <= i < |Survivors(removed)|
      ensures CompressMap(removed)[Survivors(removed)[i]] == i
    {
      CompressMapInverse(removed, i);
    }
  }

  /** In an increasing sequence, every entry after one at least `v` exceeds `v`. */
  lemma AboveFirst(s: seq<int>, k: int, v: int)
    requires forall i, j :: 0 <= i < j < |s| ==> s[i] < s[j]
    requires 0 <= k < |s| && v <= s[k]
    ensures forall j :: k < j < |s| ==> v < s[j]
  {
    forall j | k < j < |s|
      ensures v < s[j]
    {
      assert s[k] < s[j];
    }
  }

  /** Where the vertex loop stands in the survivors: the next survivor is `v` exactly when `v` is kept. */
  lemma SurvivorAt(removed: seq<bool>, s: seq<int>, cm: seq<int>, v: int, count: int)
    requires Ranking(removed, s, cm)
    requires 0 <= v < |removed| && 0 <= count <= |s|
    requires forall i :: 0 <= i < count ==> s[i] < v
    requires count < |s| ==> v <= s[count]
    ensures !removed[v] ==> count < |s| && s[count] == v && cm[v] == count && (count + 1 < |s| ==> v < s[count + 1])
    ensures removed[v] ==> cm[v] == 0 && (count < |s| ==> v < s[count])
  {
    if !removed[v] {
      assert v in s;
      var j :| 0 <= j < |s| && s[j] == v;
      assert count <= j;
      AboveFirst(s, count, v);
      if count + 1 < |s| {
        assert s[count] < s[count + 1];
      }
    } else if count < |s| {
      assert !removed[s[count]];
    }
  }

  /** A kept vertex `v`: it gets index `count`, its point moves there and the move is logged. */
  lemma GatherKeep<Pt>(removed: seq<bool>, s: seq<int>, cm: seq<int>, g0: seq<Pt>,
                       v: int, count: int, mp: seq<int>, g: seq<Pt>, log: seq<Move>)
    requires Gathering(removed, s, cm, g0, v, count, mp, g, log) && v < |removed|
    requires count < |s| && s[count] == v && cm[v] == count && (count + 1 < |s| ==> v < s[count + 1])
    ensures count < |g|
    ensures Gathering(removed, s, cm, g0, v + 1, count + 1, mp[v := count], g[count := g[v]], log + [Move(v, count)])
  {
    var mp', g', log' := mp[v := count], g[count := g[v]], log + [Move(v, count)];
    assert forall x :: 0 <= x < |mp'| ==> mp'[x] == if x < v + 1 then cm[x] else 0;
    assert forall i :: 0 <= i < count + 1 ==> g'[i] == g0[s[i]];
    assert forall i :: 0 <= i < count + 1 ==> log'[i] == Move(s[i], i);
  }

  /** A removed vertex `v`: nothing but the loop index moves. */
  lemma GatherSkip<Pt>(removed: seq<bool>, s: seq<int>, cm: seq<int>, g0: seq<Pt>,
                       v: int, count: int, mp: seq<int>, g: seq<Pt>, log: seq<Move>)
    requires Gathering(removed, s, cm, g0, v, count, mp, g, log) && v < |removed|
    requires cm[v] == 0 && (count < |s| ==> v < s[count])
    ensures Gathering(removed, s, cm, g0, v + 1, count, mp, g, log)
  {
  }

  /** One pass of the vertex loop keeps Gathering. */
  lemma GatherStep<Pt>(removed: seq<bool>, s: seq<int>, cm: seq<int>, g0: seq<Pt>,
                       v: int, count: int, mp: seq<int>, g: seq<Pt>, log: seq<Move>)
    requires Ranking(removed, s, cm)
    requires Gathering(removed, s, cm, g0, v, count, mp, g, log) && v < |removed|
    ensures !removed[v] ==>
      (count < |g| &&
       Gathering(removed, s, cm, g0, v + 1, count + 1, mp[v := count], g[count := g[v]], log + [Move(v, count)]))
    ensures removed[v] ==> Gathering(removed, s, cm, g0, v + 1, count, mp, g, log)
  {
    SurvivorAt(removed, s, cm, v, count);
    if !removed[v] {
      GatherKeep(removed, s, cm, g0, v, count, mp, g, log);
    } else {
      GatherSkip(removed, s, cm, g0, v, count, mp, g, log);
    }
  }

  /** At the end of the vertex loop every survivor is gathered and the map is vToCompressedVMap. */
  lemma GatherDone<Pt>(removed: seq<bool>, s: seq<int>, cm: seq<int>, g0: seq<Pt>,
                       count: int, mp: seq<int>, g: seq<Pt>, log: seq<Move>)
    requires Ranking(removed, s, cm)
    requires Gathering(removed, s, cm, g0, |removed|, count, mp, g, log)
    ensures count == |s| && mp == cm && log == MoveLog(s) && g[..count] == Gathered(g0, s)
  {
  }

  /**
   * The state after compressVTable: the points are gathered to the front in
   * survivor order, the live corners are renamed through
   * vToCompressedVMap, the moves are notified, and nothing else changes.
   */
  ghost predicate Compressed<Pt>(m0: MeshState<Pt>, m1: MeshState<Pt>, count: int)
  {
    Valid(m0) && VerticesIn(m0.vt, m0.nc, m0.nv) &&
    count == |Survivors(m0.removed)| &&
    m1 == m0.(g := m1.g, vt := m1.vt, vMoves := m0.vMoves + MoveLog(Survivors(m0.removed))) &&
    |m1.g| == |m0.g| && m1.g[..count] == Gathered(m0.g, Survivors(m0.removed)) &&
    |m1.vt| == |m0.vt| && m1.vt[..m1.nc] == Renamed(m0.vt, m0.nc, CompressMap(m0.removed))
  }

  /** After compressVTable, cutting every table to its live length gives reclaimMemory's result. */
  lemma ReclaimSteps<Pt>(m0: MeshState<Pt>, m1: MeshState<Pt>, count: int)
    requires Compressed(m0, m1, count)
    ensures 0 <= count <= |m1.g| && count <= |m1.vm| && 0 <= m1.nt <= |m1.tm| && 0 <= m1.nc <= |m1.ot| && m1.nc <= |m1.vt|
    ensures ReclaimMemory(m0) == MeshState(m1.vt[..m1.nc], m1.ot[..m1.nc], m1.g[..count], Cleared(count),
                                           m1.vm[..count], m1.tm[..m1.nt], count, m1.nt, m1.nc, m1.tMoves, m1.vMoves)
  {
    ReclaimTables(m0);
  }

  /** cyclicallyPermute(&table[b], 3, k): the three entries from `b` copied out, permuted in place, and returned. */
  method PermuteSlice(s: seq<int>, b: int, k: int) returns (w: seq<int>)
    requires 0 <= b && b + 3 <= |s| && 0 < k < 3
    ensures w == Helpers.PermutedAsWritten(s[b..b + 3], k)
  {
    var a := new int[3](i requires 0 <= i < 3 => s[b + i]);
    assert a[..] == s[b..b + 3];
    Helpers.CyclicallyPermute(a, k);
    w := a[..];
  }

  /** Splicing the permuted slice back into the table is the rotation of the triangle. */
  lemma PermuteSteps(s: seq<int>, t: int, k: int, w: seq<int>, r: seq<int>)
    requires 0 <= t && 3 * t + 3 <= |s| && 0 < k < 3
    requires w == Helpers.PermutedAsWritten(s[3 * t..3 * t + 3], k) && r == s[..3 * t] + w + s[3 * t + 3..]
    ensures r == Rotate3(s, t, k)
  {
    PermuteTriangleRotates(s, t, k);
  }

  /** cyclicallyPermute(&table[3t], 3, k) on a table: the triangle's entries permuted in place, the rest kept. */
  method RotateSlot(s: seq<int>, t: int, k: int) returns (r: seq<int>)
    requires 0 <= t && 3 * t + 3 <= |s| && 0 < k < 3
    ensures r == Rotate3(s, t, k)
  {
    var b := 3 * t;
    var w := PermuteSlice(s, b, k);
    r := s[..b] + w + s[b + 3..];
    PermuteSteps(s, t, k, w, r);
  }

  /**
   * The opposite-table half of shiftTriangleCorners: the triangle's entries
   * permuted, then `m_OTable[m_OTable[x]] = x` for its corners in next order.
   */
  method ShiftOpposites(ot: seq<int>, t: int, k: int) returns (r: seq<int>)
    requires 0 <= t && 3 * t + 3 <= |ot| && 0 < k < 3 && Backed(ot, t)
    ensures r == ShiftedOt(ot, t, k)
  {
    var b := 3 * t;
    r := RotateSlot(ot, t, k);
    assert Backed(r, t);
    BackLinkKeeps(r, b, b + 1);
    BackLinkKeeps(r, b, b + 2);
    r := BackLink(r, b);
    BackLinkKeeps(r, b + 1, b + 2);
    r := BackLink(r, b + 1);
    r := BackLink(r, b + 2);
  }

  class Mesh<Pt> {
    /** m_VTable, m_OTable, m_GTable, m_fVRemoved, m_vm, m_tm. */
    var vt: seq<int>
    var ot: seq<int>
    var g: seq<Pt>
    var removed: seq<bool>
    var vm: seq<int>
    var tm: seq<int>
    /** m_nv, m_nt, m_nc. */
    var nv: int
    var nt: int
    var nc: int
    /** The triangle and vertex index-change notifications sent so far, oldest first. */
    var tMoves: seq<Move>
    var vMoves: seq<Move>

    /** The whole object as a value. */
    function State(): MeshState<Pt>
      reads this
    {
      MeshState(vt, ot, g, removed, vm, tm, nv, nt, nc, tMoves, vMoves)
    }

    /** An empty mesh (the source leaves the counters uninitialised; here they start at 0). */
    constructor ()
      ensures State() == MeshState([], [], [], [], [], [], 0, 0, 0, [], [])
      ensures Valid(State())
    {
      vt, ot, g, removed, vm, tm := [], [], [], [], [], [];
      nv, nt, nc := 0, 0, 0;
      tMoves, vMoves := [], [];
    }

    /** setOpposites(a, b): each side that is a corner of the table is pointed at the other. */
    method SetOpposites(a: int, b: int)
      modifies this
      ensures State() == old(State()).(ot := SetOpp(old(ot), a, b))
      ensures ot == SetOpp(old(ot), a, b)
    {
      if 0 <= a < |ot| {
        ot := ot[a := b];
      }
      if 0 <= b < |ot| {
        ot := ot[b := a];
      }
    }

    /** zipAdjacent(c1, c2): l(c1) meets r(c1) and l(c2) meets r(c2). */
    method ZipAdjacent(c1: int, c2: int)
      requires Bounded(ot, nc) && 0 <= c1 < nc && 0 <= c2 < nc && c1 == ot[c2]
      modifies this
      ensures State() == old(State()).(ot := Zip(old(ot), old(nc), c1, c2))
    {
      var l1, l2 := L(ot, nc, c1), L(ot, nc, c2);
      var r1, r2 := R(ot, nc, c1), R(ot, nc, c2);
      SetOpposites(l1, r1);
      SetOpposites(l2, r2);
    }

    /** addVertex(p). */
    method AddVertex(p: Pt)
      requires Valid(State())
      modifies this
      ensures State() == MeshEdits.AddVertex(old(State()), p)
    {
      g := g + [p];
      vm := vm + [0];
      removed := removed + [false];
      nv := nv + 1;
    }

    /** replaceVertex(v, p). */
    method ReplaceVertex(v: int, p: Pt)
      requires 0 <= v < |g|
      modifies this
      ensures State() == MeshTopology.ReplaceVertex(old(State()), v, p)
    {
      g := g[v := p];
    }

    /**
     * addTriangle(v1, v2, v3), with the entries above nc dropped before the
     * push_backs (see AddTriangleAsWritten for the code as written).
     */
    method AddTriangle(v1: int, v2: int, v3: int)
      requires Valid(State())
      modifies this
      ensures State() == MeshEdits.AddTriangle(old(State()), v1, v2, v3)
    {
      vt := vt[..nc] + [v1, v2, v3];
      ot := ot[..nc] + [DEFAULT_INDEX, DEFAULT_INDEX, DEFAULT_INDEX];
      tm := tm[..nt] + [0];
      nt := nt + 1;
      nc := nc + 3;
    }

    /**
     * removeTriangle(corner): unless the triangle of `corner` is the last
     * one, the last triangle's corners are copied into its slot one by one
     * (opposites linked back, vertices copied), its marker follows and the
     * move is notified; then the counters drop.
     */
    method RemoveTriangle(corner: int)
      requires Valid(State()) && 0 <= corner < nc
      modifies this
      ensures State() == MeshTopology.RemoveTriangle(old(State()), corner)
    {
      ghost var m0 := State();
      var to, from := T(corner), nt - 1;
      SlotsFit(corner, nt, |tm|);
      if to != from {
        Relocate(to, from);
        tm := tm[to := tm[from]];
        tMoves := tMoves + [Move(from, to)];
      }
      nt := nt - 1;
      nc := nc - 3;
      RemoveTriangleFields(m0, corner);
    }

    /** The loop of removeTriangle: the corners of triangle `from` are copied into slot `to`, opposites linked back. */
    method Relocate(to: int, from: int)
      requires 0 <= to && 0 <= from && 3 * to + 3 <= |vt| && 3 * from + 3 <= |vt| && |ot| == |vt|
      modifies this
      ensures State() == old(State()).(vt := RelocV(old(vt), to, from, 3), ot := RelocOt(old(ot), to, from))
    {
      var i := 0;
      while i < 3
        invariant 0 <= i <= 3
        invariant State() == old(State()).(vt := vt, ot := ot)
        invariant ot == RelocSteps(old(ot), to, from, i) && vt == RelocV(old(vt), to, from, i)
      {
        SetOpposites(3 * to + i, ot[3 * from + i]);
        vt := vt[3 * to + i := vt[3 * from + i]];
        i := i + 1;
      }
    }

    /** removeVertex(v): tombstone `v` and notify (v, -1). */
    method RemoveVertex(v: int)
      requires 0 <= v < |removed|
      modifies this
      ensures State() == MeshTopology.RemoveVertex(old(State()), v)
    {
      removed := removed[v := true];
      vMoves := vMoves + [Move(v, -1)];
    }

    /** moveVertex(from, to): copy the point and notify (from, to). */
    method MoveVertex(from: int, to: int)
      requires 0 <= from < |g| && 0 <= to < |g|
      modifies this
      ensures State() == MeshEdits.MoveVertex(old(State()), from, to)
    {
      g := g[to := g[from]];
      vMoves := vMoves + [Move(from, to)];
    }

    /** resetMarkers: fill the markers with 0 and the tombstones with false. */
    method ResetMarkers()
      modifies this
      ensures State() == MeshEdits.ResetMarkers(old(State()))
    {
      vm := seq(|vm|, _ => 0);
      tm := seq(|tm|, _ => 0);
      removed := seq(|removed|, _ => false);
    }

    /**
     * The swing loops of collapseEdge and expandVertex: every corner met
     * from beginSwingIterator(start) to endSwingIterator(stop) takes vertex `v`.
     */
    method RelabelRun(start: int, stop: int, v: int, fuel: nat)
      requires Valid(State()) && Bounded(ot, nc) && 0 <= start < nc
      requires RunOf(ot, nc, start, stop, fuel).Some?
      modifies this
      ensures State() == old(State()).(vt := Relabel(old(vt), RunOf(old(ot), old(nc), start, stop, fuel).value, v))
    {
      var o, n := ot, nc;
      ghost var whole := RunOf(o, n, start, stop, fuel).value;
      ghost var vt0 := vt;
      assert forall i :: 0 <= i < |whole| ==> 0 <= whole[i] < |vt0|;
      var w := vt;
      var it := SwingIter(start, false);
      ghost var rest, left := whole, fuel;
      while it != SwingIter(stop, true)
        invariant State() == old(State())
        invariant 0 <= it.corner < n && |w| == |vt0|
        invariant Walk(o, n, it, stop, left) == Some(rest)
        invariant forall i :: 0 <= i < |rest| ==> 0 <= rest[i] < |w|
        invariant Relabel(w, rest, v) == Relabel(vt0, whole, v)
        decreases left
      {
        WalkNext(o, n, it, stop, left, rest);
        w := w[it.corner := v];
        rest, left := rest[1..], left - 1;
        it := Advance(o, n, it);
      }
      assert rest == [];
      assert w == Relabel(vt0, whole, v);
      vt := w;
    }

    /** The corners of the triangle of `c`, from c on, each get opposite -1. */
    method InvalidateTriangle(c: int)
      requires Bounded(ot, nc) && 0 <= c < nc
      modifies this
      ensures State() == old(State()).(ot := Invalidate(old(ot), old(nc), c))
    {
      NextInTriangle(c, nc);
      ot := ot[c := -1];
      ot := ot[N(c) := -1];
      ot := ot[N(N(c)) := -1];
    }

    /**
     * collapseEdge(corner, opp, p): the fan of p(corner) takes the vertex of
     * n(corner), the edge's two triangles are zipped out and cleared, that
     * vertex moves to `p`, the vertex of p(corner) is tombstoned, and the
     * two triangles are removed, the higher one first. Returns the kept vertex.
     */
    method CollapseEdge(corner: int, opp: int, p: Pt) returns (kept: int)
      requires CanCollapse(State(), corner, opp)
      modifies this
      ensures State() == MeshTopology.CollapseEdge(old(State()), corner, opp, p).0
      ensures kept == MeshTopology.CollapseEdge(old(State()), corner, opp, p).1
    {
      ghost var m0 := State();
      StaysBelow(corner, nc);
      var cEdge1, cEdge2 := N(corner), P(corner);
      var v1, v2 := vt[cEdge1], vt[cEdge2];
      RelabelRun(cEdge2, cEdge2, v1, MAX_VALENCE);
      ZipAdjacent(corner, opp);
      ReplaceVertex(v1, p);
      RemoveVertex(v2);
      InvalidateTriangle(corner);
      InvalidateTriangle(opp);
      assert State() == CollapsePrepare(m0, corner, opp, p);
      CollapseEdgeIs(m0, corner, opp, p);
      ghost var m1 := State();
      var hi, lo := Higher(corner, opp), Lower(corner, opp);
      LowerTriangle(lo, hi, nt);
      RemoveTriangle(hi);
      RemoveTriangle(lo);
      assert State() == RemovePair(m1, hi, lo);
      kept := v1;
    }

    /**
     * expandVertex(c1, c2, g1, g2, fAdd): v(c1) moves to g1, a new vertex
     * at g2 takes the corners from s(c1) up to s(c2), two triangles fill
     * the gap and five setOpposites calls link them in. Returns the new vertex.
     */
    method ExpandVertex(c1: int, c2: int, g1: Pt, g2: Pt, fAdd: bool) returns (added: int)
      requires CanExpand(State(), c1, c2)
      modifies this
      ensures State() == MeshExpand.ExpandVertex(old(State()), c1, c2, g1, g2, fAdd).0
      ensures added == MeshExpand.ExpandVertex(old(State()), c1, c2, g1, g2, fAdd).1
    {
      ghost var m0 := State();
      SplitVertex(c1, c2, g1, g2);
      ghost var m1 := State();
      AddGapTriangles(c1, c2, fAdd);
      ghost var m2 := State();
      LinkGap(c1, c2, fAdd);
      ExpandVertexSteps(m0, m1, m2, State(), c1, c2, g1, g2, fAdd);
      added := nv - 1;
    }

    /** The first half of expandVertex: replaceVertex, addVertex and the swing loop. */
    method SplitVertex(c1: int, c2: int, g1: Pt, g2: Pt)
      requires CanExpand(State(), c1, c2)
      modifies this
      ensures var m := old(State());
        State() == m.(g := m.g[m.vt[c1] := g1] + [g2], vm := m.vm + [0], removed := m.removed + [false],
                      nv := m.nv + 1, vt := SplitVt(m, c1, c2))
    {
      var s1, s2, v := S(ot, nc, c1), S(ot, nc, c2), nv;
      ghost var run := SwingSpan(ot, nc, c1, c2);
      assert run == RunOf(ot, nc, s1, s2, MAX_VALENCE);
      ReplaceVertex(vt[c1], g1);
      AddVertex(g2);
      RelabelRun(s1, s2, v, MAX_VALENCE);
    }

    /** The two addTriangle calls of expandVertex. */
    method AddGapTriangles(c1: int, c2: int, fAdd: bool)
      requires Valid(State()) && Bounded(ot, nc) && 0 <= c1 < nc && 0 <= c2 < nc
      modifies this
      ensures State() == AddGap(old(State()), c1, c2, fAdd)
      ensures var m := old(State());
        State() == m.(vt := GapVt(m.vt, m.nc, c1, c2, fAdd), ot := GapOt(m.ot, m.nc), tm := m.tm[..m.nt] + [0, 0],
                      nt := m.nt + 2, nc := m.nc + 6)
    {
      AddGapIsTwoAdds(State(), c1, c2, fAdd);
      AddTriangle(vt[c1], vt[P(c1)], vt[c2]);
      if fAdd {
        AddTriangle(vt[c2], vt[P(c2)], vt[c1]);
      } else {
        AddTriangle(vt[c1], vt[c2], vt[P(c2)]);
      }
    }

    /** The five setOpposites calls of expandVertex, once the two new triangles are the last six corners. */
    method LinkGap(c1: int, c2: int, fAdd: bool)
      requires Bounded(ot, nc) && 6 <= nc && 0 <= c1 < nc - 6 && 0 <= c2 < nc - 6
      modifies this
      ensures State() == old(State()).(ot := ExpandOt(old(ot), old(nc), c1, c2, fAdd))
    {
      var n := nc;
      StaysBelow(S(ot, n, c1), n);
      StaysBelow(c1, n);
      var a1 := P(S(ot, n, c1));
      SetOpposites(a1, n - 6);
      ghost var w1 := ot;
      SetOpposites(N(c1), n - 4);
      ghost var w2 := ot;
      FirstLinkSteps(old(ot), n, c1, a1, w1, w2);
      StaysBelow(S(w2, n, c2), n);
      StaysBelow(c2, n);
      var a2 := P(S(ot, n, c2));
      var x3, x5, y := if fAdd then n - 3 else n - 2, if fAdd then n - 1 else n - 3, if fAdd then n - 2 else n - 1;
      SetOpposites(a2, x3);
      ghost var w3 := ot;
      SetOpposites(N(c2), x5);
      ghost var w4 := ot;
      SetOpposites(n - 5, y);
      LinkGapSteps(old(ot), n, c1, c2, fAdd, w2, a2, x3, x5, y, w3, w4, ot);
    }

    /**
     * collapseTriangle(corner, p): collapse the edge facing `corner` with an
     * LRTriangleIndexChangeHandler registered on the triangles of l(corner)
     * and r(corner); then collapse the edge between those corners, rebuilt
     * from the triangles the handler reports and the saved offsets.
     */
    method CollapseTriangle(corner: int, p: Pt) returns (kept: int)
      requires CanCollapseTriangle(State(), corner, p)
      modifies this
      ensures State() == MeshEdits.CollapseTriangle(old(State()), corner, p).0
      ensures kept == MeshEdits.CollapseTriangle(old(State()), corner, p).1
    {
      StaysBelow(corner, nc);
      var opposite := ot[corner];
      var cl, cr := ot[N(corner)], ot[P(corner)];
      ghost var m0 := State();
      var registered := tMoves;
      kept := CollapseEdge(corner, opposite, p);
      var handler := Replay(LRHandler(T(cl), T(cr)), Received(registered, tMoves));
      var e0, e1 := 3 * handler.l + Offset(cl), 3 * handler.r + Offset(cr);
      CollapseTriangleSteps(m0, State(), corner, p, e0, e1);
      kept := CollapseEdge(e0, e1, p);
    }

    /**
     * computeO: count the valences, lay out one bucket of corners per
     * vertex, clear the live opposites, and link every two corners of a
     * vertex whose triangles share an edge. Only the opposite table
     * changes; every opposite found faces its corner across a shared edge,
     * every such corner gets one, and on an oriented manifold the table is
     * an involution.
     */
    method ComputeO()
      requires Valid(State()) && VerticesIn(vt, nc, nv)
      modifies this
      ensures State() == old(State()).(ot := ot)
      ensures |ot| == |old(ot)| && forall x :: nc <= x < |ot| ==> ot[x] == old(ot)[x]
      ensures ComputeOpposites.Sound(vt, ot, nc) && ComputeOpposites.Complete(vt, ot, nc)
      ensures ComputeOpposites.OrientedManifold(vt, nc) ==> Consistent(ot, nc)
    {
      var valence := ComputeOpposites.CountValences(vt, nc, nv);
      var fic := ComputeOpposites.FirstIncidentCorners(valence);
      ComputeOpposites.BucketLayout(vt, nc, valence, fic);
      var C, cleared := ComputeOpposites.ScatterCorners(vt, ot, nc, nv, valence, fic);
      ot := ComputeOpposites.MatchOpposites(vt, cleared, nc, nv, valence, fic, C);
      ComputeOpposites.DoneComplete(vt, ot, nc, nv, valence, fic, C);
      if ComputeOpposites.OrientedManifold(vt, nc) {
        ComputeOpposites.ManifoldConsistent(vt, ot, nc);
      }
    }

    /**
     * shiftTriangleCorners(c): cyclicallyPermute the three vertex entries
     * and the three opposite entries of the triangle of `c` left by
     * offset(c), through a pointer to the triangle's first slot, then point
     * each neighbour back at the corner now facing it.
     */
    method ShiftTriangleCorners(c: int)
      requires Valid(State()) && 0 <= c < nc
      requires Offset(c) != 0 ==> Backed(ot, T(c))
      modifies this
      ensures State() == MeshCompact.ShiftTriangleCorners(old(State()), c)
    {
      var k := Offset(c);
      if k == 0 {
        return;
      }
      var t := T(c);
      vt := RotateSlot(vt, t, k);
      ot := ShiftOpposites(ot, t, k);
    }

    /**
     * reclaimMemory: compressVTable (gather the surviving vertices, rename
     * the live corners, clear the tombstones), then every table is cut to
     * its live length.
     */
    method ReclaimMemory()
      requires Valid(State()) && VerticesIn(vt, nc, nv)
      modifies this
      ensures State() == MeshCompact.ReclaimMemory(old(State()))
    {
      ghost var r := MeshCompact.ReclaimMemory(State());
      CompressVTable(r);
      CutTables();
    }

    /** The resizes that end reclaimMemory: every table is cut to its live length. */
    method CutTables()
      requires 0 <= nv <= |g| && nv <= |vm| && 0 <= nt <= |tm| && 0 <= nc <= |ot| && nc <= |vt|
      modifies this
      ensures State() == MeshState(old(vt)[..old(nc)], old(ot)[..old(nc)], old(g)[..old(nv)], old(removed),
                                   old(vm)[..old(nv)], old(tm)[..old(nt)], old(nv), old(nt), old(nc), old(tMoves), old(vMoves))
    {
      vt, ot, g, vm, tm := vt[..nc], ot[..nc], g[..nv], vm[..nv], tm[..nt];
    }

    /**
     * compressVTable: gather the surviving vertices to the front, rename
     * every live corner's vertex, then set nv to the number of survivors
     * and clear the tombstones.
     */
    method CompressVTable(ghost r: MeshState<Pt>)
      requires Valid(State()) && VerticesIn(vt, nc, nv) && r == MeshCompact.ReclaimMemory(State())
      modifies this
      ensures 0 <= nv <= |g| && nv <= |vm| && 0 <= nt <= |tm| && 0 <= nc <= |ot| && nc <= |vt|
      ensures removed == Cleared(nv)
      ensures r == MeshState(vt[..nc], ot[..nc], g[..nv], removed, vm[..nv], tm[..nt], nv, nt, nc, tMoves, vMoves)
    {
      ghost var m0 := State();
      var mp, count := GatherVertices();
      RenameCorners(mp);
      ReclaimSteps(m0, State(), count);
      nv, removed := count, Cleared(count);
    }

    /**
     * The vertex loop of compressVTable: each surviving vertex, in order,
     * gets the next new index in the map and its point is moved there
     * (moveVertex). Returns the map and the number of survivors.
     */
    method GatherVertices() returns (mp: seq<int>, count: int)
      requires |removed| == nv && |g| == nv
      modifies this
      ensures mp == CompressMap(old(removed)) && count == |Survivors(old(removed))|
      ensures State() == old(State()).(g := g, vMoves := old(vMoves) + MoveLog(Survivors(old(removed))))
      ensures |g| == |old(g)| && g[..count] == Gathered(old(g), Survivors(old(removed)))
    {
      ghost var s, cm := Survivors(removed), CompressMap(removed);
      ghost var removed0, g0, moves0 := removed, g, vMoves;
      RankingHolds(removed);
      mp, count := GatherRun(s, cm);
      GatherDone(removed0, s, cm, g0, count, mp, g, vMoves[|moves0|..]);
      assert vMoves == moves0 + vMoves[|moves0|..];
    }

    /** The loop of GatherVertices, against any survivors and map that satisfy Ranking. */
    method GatherRun(ghost s: seq<int>, ghost cm: seq<int>) returns (mp: seq<int>, count: int)
      requires |removed| == nv && |g| == nv && Ranking(removed, s, cm)
      modifies this
      ensures State() == old(State()).(g := g, vMoves := vMoves)
      ensures |old(vMoves)| <= |vMoves| && vMoves[..|old(vMoves)|] == old(vMoves)
      ensures Gathering(removed, s, cm, old(g), nv, count, mp, g, vMoves[|old(vMoves)|..])
    {
      ghost var g0, moves0, log := g, vMoves, [];
      mp := seq(nv, _ => 0);
      count := 0;
      var v := 0;
      while v < nv
        invariant State() == old(State()).(g := g, vMoves := vMoves)
        invariant 0 <= v <= nv && |g| == nv && |mp| == nv
        invariant Gathering(removed, s, cm, g0, v, count, mp, g, log) && vMoves == moves0 + log
      {
        GatherStep(removed, s, cm, g0, v, count, mp, g, log);
        if !removed[v] {
          mp := mp[v := count];
          MoveVertex(v, count);
          log := log + [Move(v, count)];
          count := count + 1;
        }
        v := v + 1;
      }
      assert vMoves[|moves0|..] == log;
    }

    /** The corner loop of compressVTable: every live corner's vertex goes through the map. */
    method RenameCorners(mp: seq<int>)
      requires 0 <= nc <= |vt| && forall c :: 0 <= c < nc ==> 0 <= vt[c] < |mp|
      modifies this
      ensures State() == old(State()).(vt := vt)
      ensures |vt| == |old(vt)| && vt[..nc] == Renamed(old(vt), nc, mp)
    {
      ghost var vt0 := vt;
      var c := 0;
      while c < nc
        invariant State() == old(State()).(vt := vt)
        invariant 0 <= c <= nc && |vt| == |vt0|
        invariant forall x :: 0 <= x < |vt| ==> vt[x] == if x < c then mp[vt0[x]] else vt0[x]
      {
        vt := vt[c := mp[vt[c]]];
        c := c + 1;
      }
      assert vt[..nc] == Renamed(vt0, nc, mp);
    }
  }
}
