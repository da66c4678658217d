/**
 * Compaction of a mesh after removals (compressVTable and reclaimMemory in
 * geomUtils/inc/mesh.h) and the in-triangle corner rotation
 * shiftTriangleCorners.
 */
module MeshCompact {
  import opened CornerOps
  import opened MeshTopology
  import Helpers

  // ---------------------------------------------------------------------
  // compressVTable / reclaimMemory
  // ---------------------------------------------------------------------

  /**
   * The vertices that are not removed, in increasing order: the order in
   * which compressVTable visits them and hands out new indices.
   */
  function Survivors(removed: seq<bool>): (s: seq<int>)
    ensures |s| <= |removed|
    ensures forall i :: 0 <= i < |s| ==> 0 <= s[i] < |removed| && !removed[s[i]]
    ensures forall i, j :: 0 <= i < j < |s| ==> s[i] < s[j]
    ensures forall v :: 0 <= v < |removed| && !removed[v] ==> v in s
  {
    if |removed| == 0 then []
    else
      var last := |removed| - 1;
      var rest := Survivors(removed[..last]);
      if removed[last] then rest else rest + [last]
  }

  /** The new index compressVTable gives vertex `v`: the number of survivors before it. */
  function Rank(removed: seq<bool>, v: int): nat
    requires 0 <= v <= |removed|
  {
    |Survivors(removed[..v])|
  }

  /** The survivors of a prefix are a prefix of the survivors. */
  lemma {:induction false} SurvivorsPrefix(removed: seq<bool>, j: int)
    requires 0 <= j <= |removed|
    ensures Rank(removed, j) <= |Survivors(removed)|
    ensures Survivors(removed[..j]) == Survivors(removed)[..Rank(removed, j)]
    decreases |removed|
  {
    if j < |removed| {
      var init := removed[..|removed| - 1];
      SurvivorsPrefix(init, j);
      assert init[..j] == removed[..j];
    } else {
      assert removed[..j] == removed;
    }
  }

  /** A surviving vertex is found at its rank among the survivors. */
  lemma RankOf(removed: seq<bool>, v: int)
    requires 0 <= v < |removed| && !removed[v]
    ensures Rank(removed, v) < |Survivors(removed)|
    ensures Survivors(removed)[Rank(removed, v)] == v
  {
    assert removed[..v + 1][..v] == removed[..v];
    assert Survivors(removed[..v + 1]) == Survivors(removed[..v]) + [v];
    SurvivorsPrefix(removed, v + 1);
  }

  /**
   * vToCompressedVMap: each surviving vertex to its new index; a removed
   * vertex keeps the value the vector was filled with, 0.
   */
  function CompressMap(removed: seq<bool>): (mp: seq<int>)
    ensures |mp| == |removed|
    ensures forall v :: 0 <= v < |removed| && removed[v] ==> mp[v] == 0
    ensures forall v :: 0 <= v < |removed| && !removed[v] ==>
      0 <= mp[v] < |Survivors(removed)| && Survivors(removed)[mp[v]] == v
  {
    var mp := seq(|removed|, v requires 0 <= v < |removed| => if removed[v] then 0 else Rank(removed, v));
    assert forall v :: 0 <= v < |removed| && !removed[v] ==>
      0 <= mp[v] < |Survivors(removed)| && Survivors(removed)[mp[v]] == v by {
      forall v | 0 <= v < |removed| && !removed[v]
        ensures 0 <= mp[v] < |Survivors(removed)| && Survivors(removed)[mp[v]] == v
      {
        RankOf(removed, v);
      }
    }
    mp
  }

  /** The new index of the i-th survivor is i: the map sends old indices to new ones. */
  lemma CompressMapInverse(removed: seq<bool>, i: int)
    requires 0 <= i < |Survivors(removed)|
    ensures CompressMap(removed)[Survivors(removed)[i]] == i
  {
    var s, mp := Survivors(removed), CompressMap(removed);
    var j := mp[s[i]];
    assert s[j] == s[i];
  }

  /** Every live corner names a vertex of the mesh that is not removed. */
  ghost predicate LiveVertices<Pt>(m: MeshState<Pt>)
    requires Sized(m)
  {
    VerticesIn(m.vt, m.nc, m.nv) && forall c :: 0 <= c < m.nc ==> !m.removed[m.vt[c]]
  }

  /** `n` cleared tombstones. */
  function Cleared(n: nat): (r: seq<bool>)
    ensures |r| == n && forall v :: 0 <= v < n ==> !r[v]
  {
    seq(n, _ => false)
  }

  /**
   * reclaimMemory: compressVTable moves the i-th surviving vertex's point to
   * slot i (notifying the move), renames every live corner's vertex through
   * vToCompressedVMap and clears the tombstones; then every vector is cut
   * to its live length. The vertex markers are cut, not moved.
   */
  function ReclaimMemory<Pt>(m: MeshState<Pt>): (r: MeshState<Pt>)
    requires Valid(m) && VerticesIn(m.vt, m.nc, m.nv)
    ensures Valid(r)
    ensures r.nv == |Survivors(m.removed)| && r.nt == m.nt && r.nc == m.nc
    ensures |r.vt| == |r.ot| == r.nc && |r.tm| == r.nt && |r.g| == r.nv
    ensures forall v :: 0 <= v < r.nv ==> !r.removed[v]
    ensures r.tMoves == m.tMoves
  {
    var s := Survivors(m.removed);
    m.(vt := Renamed(m.vt, m.nc, CompressMap(m.removed)),
       ot := m.ot[..m.nc],
       g := Gathered(m.g, s),
       removed := Cleared(|s|),
       vm := m.vm[..|s|],
       tm := m.tm[..m.nt],
       nv := |s|,
       vMoves := m.vMoves + MoveLog(s))
  }

  /** The live corners' vertices, renamed through `mp`. */
  function Renamed(vt: seq<int>, nc: int, mp: seq<int>): (r: seq<int>)
    requires 0 <= nc <= |vt| && forall c :: 0 <= c < nc ==> 0 <= vt[c] < |mp|
    ensures |r| == nc && forall c :: 0 <= c < nc ==> r[c] == mp[vt[c]]
  {
    seq(nc, c requires 0 <= c < nc => mp[vt[c]])
  }

  /** The points of the survivors, in survivor order. */
  function Gathered<Pt>(g: seq<Pt>, s: seq<int>): (r: seq<Pt>)
    requires forall i :: 0 <= i < |s| ==> 0 <= s[i] < |g|
    ensures |r| == |s| && forall i :: 0 <= i < |s| ==> r[i] == g[s[i]]
  {
    seq(|s|, i requires 0 <= i < |s| => g[s[i]])
  }

  /** moveVertex's notifications: survivor i goes from its old index to i. */
  function MoveLog(s: seq<int>): (r: seq<Move>)
    ensures |r| == |s| && forall i :: 0 <= i < |s| ==> r[i] == Move(s[i], i)
  {
    seq(|s|, i requires 0 <= i < |s| => Move(s[i], i))
  }

  /** The tables reclaimMemory leaves. */
  lemma ReclaimTables<Pt>(m: MeshState<Pt>)
    requires Valid(m) && VerticesIn(m.vt, m.nc, m.nv)
    ensures var r := ReclaimMemory(m);
      r.vt == Renamed(m.vt, m.nc, CompressMap(m.removed)) && r.ot == m.ot[..m.nc] &&
      r.g == Gathered(m.g, Survivors(m.removed)) && r.removed == Cleared(r.nv) &&
      r.vm == m.vm[..r.nv] && r.tm == m.tm[..m.nt] && r.vMoves == m.vMoves + MoveLog(Survivors(m.removed))
  {
  }

  /** Survivors keep their relative order under the renaming. */
  lemma CompressKeepsOrder(removed: seq<bool>, v: int, w: int)
    requires 0 <= v < w < |removed| && !removed[v] && !removed[w]
    ensures CompressMap(removed)[v] < CompressMap(removed)[w]
  {
  }

  /** A surviving vertex keeps its point at its new index, and the move is notified as (old, new). */
  lemma ReclaimMovesVertex<Pt>(m: MeshState<Pt>, v: int)
    requires Valid(m) && VerticesIn(m.vt, m.nc, m.nv)
    requires 0 <= v < m.nv && !m.removed[v]
    ensures var r, i := ReclaimMemory(m), CompressMap(m.removed)[v];
      0 <= i < r.nv && r.g[i] == m.g[v] && r.vMoves[|m.vMoves| + i] == Move(v, i)
  {
    var s, i := Survivors(m.removed), CompressMap(m.removed)[v];
    var g, log := Gathered(m.g, s), MoveLog(s);
    assert g[i] == m.g[v] && log[i] == Move(v, i);
    assert (m.vMoves + log)[|m.vMoves| + i] == Move(v, i);
    ReclaimTables(m);
  }

  /** Every live corner on a surviving vertex keeps its point. */
  lemma ReclaimKeepsCorner<Pt>(m: MeshState<Pt>, c: int)
    requires Valid(m) && VerticesIn(m.vt, m.nc, m.nv)
    requires 0 <= c < m.nc && !m.removed[m.vt[c]]
    ensures var r := ReclaimMemory(m); 0 <= r.vt[c] < r.nv && r.g[r.vt[c]] == m.g[m.vt[c]]
  {
  }

  /** With every live corner on a surviving vertex, every live corner names a vertex of the compacted mesh. */
  lemma ReclaimVerticesIn<Pt>(m: MeshState<Pt>)
    requires Valid(m) && LiveVertices(m)
    ensures VerticesIn(ReclaimMemory(m).vt, m.nc, ReclaimMemory(m).nv)
  {
    var r, mp := ReclaimMemory(m), CompressMap(m.removed);
    forall c | 0 <= c < m.nc
      ensures 0 <= r.vt[c] < r.nv
    {
      assert r.vt[c] == mp[m.vt[c]];
    }
  }

  /** Reclaiming keeps the live opposite table as it was. */
  lemma ReclaimOpposed<Pt>(m: MeshState<Pt>)
    requires Valid(m) && VerticesIn(m.vt, m.nc, m.nv) && Opposed(m.ot, m.nc)
    ensures Opposed(ReclaimMemory(m).ot, m.nc)
  {
    var r := ReclaimMemory(m);
    assert forall x :: 0 <= x < m.nc ==> r.ot[x] == m.ot[x];
  }

  /** A mesh without tombstones has every vertex as a survivor, in place. */
  lemma {:induction false} NoneRemoved(removed: seq<bool>)
    requires forall v :: 0 <= v < |removed| ==> !removed[v]
    ensures Survivors(removed) == seq(|removed|, i => i)
  {
    if |removed| > 0 {
      NoneRemoved(removed[..|removed| - 1]);
    }
  }

  /** Without tombstones the renaming is the identity. */
  lemma IdentityMap(nv: nat)
    ensures var removed := seq(nv, _ => false);
      Survivors(removed) == seq(nv, i => i) && forall v :: 0 <= v < nv ==> CompressMap(removed)[v] == v
  {
    var removed := seq(nv, _ => false);
    NoneRemoved(removed);
    forall v | 0 <= v < nv
      ensures CompressMap(removed)[v] == v
    {
      CompressMapInverse(removed, v);
    }
  }

  /** Without tombstones the vertex table is renamed to itself... */
  lemma RenamedIdentity(vt: seq<int>, nc: int, nv: nat)
    requires VerticesIn(vt, nc, nv) && |vt| == nc
    ensures Renamed(vt, nc, CompressMap(seq(nv, _ => false))) == vt
  {
    IdentityMap(nv);
  }

  /** ...every point stays in place... */
  lemma GatheredIdentity<Pt>(g: seq<Pt>)
    ensures Gathered(g, Survivors(seq(|g|, _ => false))) == g
  {
    IdentityMap(|g|);
  }

  /** ...and every vertex is told it stays where it is. */
  lemma MoveLogIdentity(nv: nat)
    ensures MoveLog(Survivors(seq(nv, _ => false))) == seq(nv, i => Move(i, i))
  {
    IdentityMap(nv);
  }

  /** A mesh reclaimMemory leaves: compact and without tombstones. */
  ghost predicate Compact<Pt>(r: MeshState<Pt>)
  {
    Valid(r) && VerticesIn(r.vt, r.nc, r.nv) &&
    |r.vt| == |r.ot| == r.nc && |r.tm| == r.nt &&
    forall v :: 0 <= v < r.nv ==> !r.removed[v]
  }

  lemma CompactKeepsVt<Pt>(r: MeshState<Pt>)
    requires Compact(r)
    ensures ReclaimMemory(r).vt == r.vt
  {
    assert r.removed == seq(r.nv, _ => false);
    RenamedIdentity(r.vt, r.nc, r.nv);
    ReclaimTables(r);
  }

  lemma CompactKeepsG<Pt>(r: MeshState<Pt>)
    requires Compact(r)
    ensures ReclaimMemory(r).g == r.g
  {
    assert r.removed == seq(|r.g|, _ => false);
    GatheredIdentity(r.g);
    ReclaimTables(r);
  }

  lemma CompactMoves<Pt>(r: MeshState<Pt>)
    requires Compact(r)
    ensures ReclaimMemory(r).vMoves == r.vMoves + seq(r.nv, i => Move(i, i))
  {
    assert r.removed == seq(r.nv, _ => false);
    MoveLogIdentity(r.nv);
    ReclaimTables(r);
  }

  lemma CompactKeepsRest<Pt>(r: MeshState<Pt>)
    requires Compact(r)
    ensures var r2 := ReclaimMemory(r);
      r2.ot == r.ot && r2.tm == r.tm && r2.vm == r.vm && r2.removed == r.removed
  {
    assert r.removed == seq(r.nv, _ => false);
    IdentityMap(r.nv);
    assert r.ot[..r.nc] == r.ot && r.tm[..r.nt] == r.tm && r.vm[..r.nv] == r.vm;
    ReclaimTables(r);
  }

  /** A compact mesh without tombstones is left as it is by reclaimMemory, up to identity notifications. */
  lemma ReclaimCompact<Pt>(r: MeshState<Pt>)
    requires Compact(r)
    ensures ReclaimMemory(r) == r.(vMoves := r.vMoves + seq(r.nv, i => Move(i, i)))
  {
    CompactKeepsVt(r);
    CompactKeepsG(r);
    CompactMoves(r);
    CompactKeepsRest(r);
  }

  /**
   * reclaimMemory called again right away changes no table: it only
   * notifies every vertex that it stays where it is.
   */
  lemma ReclaimTwice<Pt>(m: MeshState<Pt>)
    requires Valid(m) && LiveVertices(m)
    ensures var r := ReclaimMemory(m);
      VerticesIn(r.vt, r.nc, r.nv) &&
      ReclaimMemory(r) == r.(vMoves := r.vMoves + seq(r.nv, i => Move(i, i)))
  {
    ReclaimVerticesIn(m);
    ReclaimCompact(ReclaimMemory(m));
  }

  // ---------------------------------------------------------------------
  // shiftTriangleCorners
  // ---------------------------------------------------------------------

  /** Shifting by 1 or 2 among 3 entries meets the condition under which cyclicallyPermute rotates. */
  lemma CoprimeThree(k: int)
    requires 0 < k < 3
    ensures Helpers.Coprime(3, k)
  {
    assert forall t :: 0 < t < 3 ==> t * k == if t == 1 then k else k + k;
  }

  /** On three entries cyclicallyPermute is a left rotation for every shift. */
  lemma RotatesThree(w: seq<int>, k: int)
    requires |w| == 3 && 0 < k < 3
    ensures Helpers.PermutedAsWritten(w, k) == Helpers.Rotated(w, k)
  {
    CoprimeThree(k);
    Helpers.PermuteRotates(w, k);
  }

  /**
   * The three entries of triangle `t` after cyclicallyPermute(&table[3t], 3, k),
   * as written: the routine applied to the triangle's slice, the rest untouched.
   */
  function PermuteTriangle(s: seq<int>, t: int, k: int): (r: seq<int>)
    requires 0 <= t && 3 * t + 3 <= |s| && 0 < k < 3
    ensures |r| == |s|
    ensures forall y :: 0 <= y < |s| && Outside(y, t) ==> r[y] == s[y]
  {
    Splice(s, t, Helpers.PermutedAsWritten(s[3 * t..3 * t + 3], k))
  }

  /** Triangle `t`'s three entries replaced by `w`, the rest untouched. */
  function Splice(s: seq<int>, t: int, w: seq<int>): (r: seq<int>)
    requires 0 <= t && 3 * t + 3 <= |s| && |w| == 3
    ensures |r| == |s|
    ensures forall y :: 0 <= y < |s| && Outside(y, t) ==> r[y] == s[y]
    ensures forall j :: 0 <= j < 3 ==> r[3 * t + j] == w[j]
  {
    var b := 3 * t;
    s[..b] + w + s[b + 3..]
  }

  /** Inside the triangle, slot j takes what slot (j + k) % 3 held: a left rotation. */
  lemma PermuteTriangleAt(s: seq<int>, t: int, k: int, j: int)
    requires 0 <= t && 3 * t + 3 <= |s| && 0 < k < 3 && 0 <= j < 3
    ensures PermuteTriangle(s, t, k)[3 * t + j] == s[3 * t + Ahead(j, k)]
  {
    RotatesThreeAt(s[3 * t..3 * t + 3], k, j);
  }

  /** Slot j of three permuted entries holds entry (j + k) % 3. */
  lemma RotatesThreeAt(w: seq<int>, k: int, j: int)
    requires |w| == 3 && 0 < k < 3 && 0 <= j < 3
    ensures 0 <= Ahead(j, k) < 3 && Helpers.PermutedAsWritten(w, k)[j] == w[Ahead(j, k)]
  {
    RotatesThree(w, k);
  }

  /** (j + k) % 3 for offsets j and shifts k below 3. */
  function Ahead(j: int, k: int): int
  {
    if j + k < 3 then j + k else j + k - 3
  }

  /** (j - k + 3) % 3 for offsets j and shifts k below 3. */
  function Behind(j: int, k: int): int
  {
    if j >= k then j - k else j - k + 3
  }

  /**
   * Triangle `t` of a table rotated left by `k`, entry by entry: slot j of the
   * triangle holds what slot (j + k) % 3 held, every other entry is kept.
   */
  function Rotate3(s: seq<int>, t: int, k: int): (r: seq<int>)
    requires 0 <= t && 3 * t + 3 <= |s| && 0 <= k < 3
    ensures |r| == |s|
    ensures forall y :: 0 <= y < |s| && Outside(y, t) ==> r[y] == s[y]
    ensures forall j :: 0 <= j < 3 ==> r[3 * t + j] == s[3 * t + Ahead(j, k)]
  {
    var b := 3 * t;
    Splice(s, t, [s[b + Ahead(0, k)], s[b + Ahead(1, k)], s[b + Ahead(2, k)]])
  }

  /** cyclicallyPermute as written rotates a triangle's three entries left by `k`. */
  lemma PermuteTriangleRotates(s: seq<int>, t: int, k: int)
    requires 0 <= t && 3 * t + 3 <= |s| && 0 < k < 3
    ensures PermuteTriangle(s, t, k) == Rotate3(s, t, k)
  {
    forall y | 0 <= y < |s|
      ensures PermuteTriangle(s, t, k)[y] == Rotate3(s, t, k)[y]
    {
      PermuteTriangleEntry(s, t, k, y);
    }
  }

  /** One entry of the as-written permutation agrees with the rotation. */
  lemma PermuteTriangleEntry(s: seq<int>, t: int, k: int, y: int)
    requires 0 <= t && 3 * t + 3 <= |s| && 0 < k < 3 && 0 <= y < |s|
    ensures PermuteTriangle(s, t, k)[y] == Rotate3(s, t, k)[y]
  {
    if !Outside(y, t) {
      var j := y - 3 * t;
      PermuteTriangleAt(s, t, k, j);
    }
  }

  /** `m_OTable[m_OTable[x]] = x`. */
  function BackLink(o: seq<int>, x: int): (r: seq<int>)
    requires 0 <= x < |o| && 0 <= o[x] < |o|
    ensures |r| == |o|
  {
    o[o[x] := x]
  }

  /** The three opposites of triangle `t` are corners (none is a boundary). */
  predicate Backed(ot: seq<int>, t: int)
    requires 0 <= t && 3 * t + 3 <= |ot|
  {
    0 <= ot[3 * t] < |ot| && 0 <= ot[3 * t + 1] < |ot| && 0 <= ot[3 * t + 2] < |ot|
  }

  /** The three opposites of triangle `t` are corners of other triangles, all different. */
  predicate Spread(ot: seq<int>, t: int)
    requires 0 <= t && 3 * t + 3 <= |ot|
  {
    var b := 3 * t;
    Backed(ot, t) && Outside(ot[b], t) && Outside(ot[b + 1], t) && Outside(ot[b + 2], t) &&
    ot[b] != ot[b + 1] && ot[b] != ot[b + 2] && ot[b + 1] != ot[b + 2]
  }

  /**
   * The opposite table after the body of shiftTriangleCorners for triangle
   * `t` and shift `k`: the triangle's entries are rotated, then each
   * neighbour is pointed back at the corner facing it, in the order init,
   * n(init), n(n(init)).
   */
  function ShiftedOt(ot: seq<int>, t: int, k: int): (r: seq<int>)
    requires 0 <= t && 3 * t + 3 <= |ot| && 0 < k < 3 && Backed(ot, t)
    ensures |r| == |ot|
  {
    var b, o1 := 3 * t, Rotate3(ot, t, k);
    assert Backed(o1, t);
    BackLinkKeeps(o1, b, b + 1);
    BackLinkKeeps(o1, b, b + 2);
    var o2 := BackLink(o1, b);
    BackLinkKeeps(o2, b + 1, b + 2);
    var o3 := BackLink(o2, b + 1);
    BackLink(o3, b + 2)
  }

  /** A back link writes a corner index, so entries that were indices stay indices. */
  lemma BackLinkKeeps(o: seq<int>, x: int, y: int)
    requires 0 <= x < |o| && 0 <= o[x] < |o| && 0 <= y < |o| && 0 <= o[y] < |o|
    ensures 0 <= BackLink(o, x)[y] < |o|
  {
  }

  /**
   * When the rotated triangle's neighbours lie elsewhere and differ, the three
   * back links are three independent writes: a neighbour now faces the slot
   * that holds it, every other entry is the rotated one.
   */
  lemma ShiftedOtAt(ot: seq<int>, t: int, k: int, z: int)
    requires 0 <= t && 3 * t + 3 <= |ot| && 0 < k < 3 && Backed(ot, t)
    requires Spread(Rotate3(ot, t, k), t) && 0 <= z < |ot|
    ensures var b, o1 := 3 * t, Rotate3(ot, t, k);
      ShiftedOt(ot, t, k)[z] ==
        if z == o1[b] then b else if z == o1[b + 1] then b + 1 else if z == o1[b + 2] then b + 2 else o1[z]
  {
  }

  /**
   * The new name of corner `y` when triangle `t` is shifted by `k`: the
   * corner at offset j moves to offset (j - k) mod 3; other corners keep
   * their names.
   */
  function Sigma(y: int, t: int, k: int): (z: int)
    requires 0 <= t && 0 <= k < 3
    ensures Outside(y, t) ==> z == y
    ensures !Outside(y, t) ==> !Outside(z, t)
  {
    if Outside(y, t) then y else 3 * t + Behind(y - 3 * t, k)
  }

  /** The renaming undone: the corner whose new name is `z`. */
  function SigmaInv(z: int, t: int, k: int): (y: int)
    requires 0 <= t && 0 <= k < 3
    ensures Sigma(y, t, k) == z
  {
    if Outside(z, t) then z else 3 * t + Ahead(z - 3 * t, k)
  }

  /** The renaming is one-to-one and keeps every corner in its triangle. */
  lemma SigmaFacts(y: int, y': int, t: int, k: int)
    requires 0 <= t && 0 <= k < 3 && 0 <= y
    ensures Sigma(y, t, k) == Sigma(y', t, k) ==> y == y'
    ensures T(Sigma(y, t, k)) == T(y)
  {
    var z := Sigma(y, t, k);
    InTriangle(y, t);
    InTriangle(z, t);
    if !Outside(y, t) {
      assert T(z) == t;
    }
  }

  /** After the rotation every entry sits under its corner's new name. */
  lemma RotateRenames(s: seq<int>, t: int, k: int, y: int)
    requires 0 <= t && 3 * t + 3 <= |s| && 0 <= k < 3 && 0 <= y < |s|
    ensures Sigma(y, t, k) < |s| && Rotate3(s, t, k)[Sigma(y, t, k)] == s[y]
  {
  }

  /**
   * The rotated triangle's neighbours lie in other triangles, differ from
   * each other, and face the corner that moved to each slot.
   */
  predicate Turned(ot: seq<int>, t: int, k: int)
    requires 0 <= t && 3 * t + 3 <= |ot| && 0 <= k < 3
  {
    var b, o1 := 3 * t, Rotate3(ot, t, k);
    Spread(o1, t) &&
    ot[o1[b]] == b + Ahead(0, k) && ot[o1[b + 1]] == b + Ahead(1, k) && ot[o1[b + 2]] == b + Ahead(2, k)
  }

  /** In a consistent table every triangle whose three neighbours exist is turned cleanly. */
  lemma RotatedSpread(ot: seq<int>, nc: int, t: int, k: int)
    requires Opposed(ot, nc) && 0 <= t && 3 * t + 3 <= nc && 0 < k < 3 && Backed(ot, t)
    ensures Turned(ot, t, k)
  {
    TriangleSpread(ot, nc, t);
    SpreadRotates(ot, t, k);
  }

  /** In a consistent table a triangle whose three neighbours exist has them elsewhere, all different, facing back. */
  lemma TriangleSpread(ot: seq<int>, nc: int, t: int)
    requires Opposed(ot, nc) && 0 <= t && 3 * t + 3 <= nc && Backed(ot, t)
    ensures Spread(ot, t)
    ensures var b := 3 * t; ot[ot[b]] == b && ot[ot[b + 1]] == b + 1 && ot[ot[b + 2]] == b + 2
  {
    var b := 3 * t;
    InTriangle(b, t);
    InTriangle(b + 1, t);
    InTriangle(b + 2, t);
    Facing(ot, nc, b);
    Facing(ot, nc, b + 1);
    Facing(ot, nc, b + 2);
  }

  /** Rotating a spread triangle keeps it spread, and each slot's neighbour faces the corner that moved there. */
  lemma SpreadRotates(ot: seq<int>, t: int, k: int)
    requires 0 <= t && 3 * t + 3 <= |ot| && 0 < k < 3 && Spread(ot, t)
    requires var b := 3 * t; ot[ot[b]] == b && ot[ot[b + 1]] == b + 1 && ot[ot[b + 2]] == b + 2
    ensures Turned(ot, t, k)
  {
    var b, o1 := 3 * t, Rotate3(ot, t, k);
    assert o1[b] == ot[b + Ahead(0, k)];
    assert o1[b + 1] == ot[b + Ahead(1, k)];
    assert o1[b + 2] == ot[b + Ahead(2, k)];
  }

  /** The corner that moves to slot j of the triangle keeps its opposite. */
  lemma ShiftedInside(ot: seq<int>, t: int, k: int, j: int)
    requires 0 <= t && 3 * t + 3 <= |ot| && 0 < k < 3 && Backed(ot, t) && Turned(ot, t, k)
    requires 0 <= j < 3
    ensures ShiftedOt(ot, t, k)[3 * t + j] == Sigma(ot[3 * t + Ahead(j, k)], t, k)
  {
    var b := 3 * t;
    ShiftedOtAt(ot, t, k, b + j);
    assert Rotate3(ot, t, k)[b + j] == ot[b + Ahead(j, k)];
  }

  /** A corner of another triangle ends up facing the renamed version of what it faced. */
  lemma ShiftedOutside(ot: seq<int>, t: int, k: int, y: int)
    requires 0 <= t && 3 * t + 3 <= |ot| && 0 < k < 3 && Backed(ot, t) && Turned(ot, t, k)
    requires 0 <= y < |ot| && Outside(y, t)
    requires ot[y] != -1 ==> 0 <= ot[y] < |ot| && ot[ot[y]] == y
    ensures ShiftedOt(ot, t, k)[y] == Sigma(ot[y], t, k)
  {
    var b, o1 := 3 * t, Rotate3(ot, t, k);
    ShiftedOtAt(ot, t, k, y);
    if y != o1[b] && y != o1[b + 1] && y != o1[b + 2] && ot[y] != -1 && !Outside(ot[y], t) {
      RotateRenames(ot, t, k, ot[y]);
    }
  }

  /** The rotation and the back links together rename both ends of every link. */
  lemma ShiftedRenames(ot: seq<int>, t: int, k: int, y: int)
    requires 0 <= t && 3 * t + 3 <= |ot| && 0 < k < 3 && Backed(ot, t) && Turned(ot, t, k)
    requires 0 <= y < |ot|
    requires Outside(y, t) && ot[y] != -1 ==> 0 <= ot[y] < |ot| && ot[ot[y]] == y
    ensures Sigma(y, t, k) < |ot| && ShiftedOt(ot, t, k)[Sigma(y, t, k)] == Sigma(ot[y], t, k)
  {
    if Outside(y, t) {
      ShiftedOutside(ot, t, k, y);
    } else {
      ShiftedInsideAt(ot, t, k, y);
    }
  }

  /** A corner of the shifted triangle faces, under its new name, the renamed version of what it faced. */
  lemma ShiftedInsideAt(ot: seq<int>, t: int, k: int, y: int)
    requires 0 <= t && 3 * t + 3 <= |ot| && 0 < k < 3 && Backed(ot, t) && Turned(ot, t, k)
    requires 0 <= y < |ot| && !Outside(y, t)
    ensures Sigma(y, t, k) < |ot| && ShiftedOt(ot, t, k)[Sigma(y, t, k)] == Sigma(ot[y], t, k)
  {
    var j := Behind(y - 3 * t, k);
    assert Sigma(y, t, k) == 3 * t + j && 3 * t + Ahead(j, k) == y;
    ShiftedInside(ot, t, k, j);
  }

  /** The opposite of a renamed corner is the renamed opposite. */
  lemma ShiftedOtRenames(ot: seq<int>, nc: int, t: int, k: int, y: int)
    requires Opposed(ot, nc) && 0 <= t && 3 * t + 3 <= nc && 0 < k < 3 && Backed(ot, t)
    requires 0 <= y < nc
    ensures Sigma(y, t, k) < nc && ShiftedOt(ot, t, k)[Sigma(y, t, k)] == Sigma(ot[y], t, k)
  {
    RotatedSpread(ot, nc, t, k);
    if Outside(y, t) && ot[y] != -1 {
      Facing(ot, nc, y);
    }
    ShiftedRenames(ot, t, k, y);
  }

  /** One corner's entry after the shift: in range, and a link that is mutual and crosses triangles. */
  lemma ShiftedOpposedAt(ot: seq<int>, nc: int, t: int, k: int, z: int)
    requires Opposed(ot, nc) && 0 <= t && 3 * t + 3 <= nc && 0 < k < 3 && Backed(ot, t)
    requires 0 <= z < nc
    ensures var r := ShiftedOt(ot, t, k);
      -1 <= r[z] < nc && (r[z] != -1 ==> r[z] != z && r[r[z]] == z && T(r[z]) != T(z))
  {
    var y := SigmaInv(z, t, k);
    ShiftedOtRenames(ot, nc, t, k, y);
    if ot[y] != -1 {
      Facing(ot, nc, y);
      ShiftedOtRenames(ot, nc, t, k, ot[y]);
      SigmaFacts(y, ot[y], t, k);
      SigmaFacts(ot[y], y, t, k);
    }
  }

  /** shiftTriangleCorners keeps the opposite table a cross-triangle involution. */
  lemma ShiftedOpposed(ot: seq<int>, nc: int, t: int, k: int)
    requires Opposed(ot, nc) && 0 <= t && 3 * t + 3 <= nc && 0 < k < 3 && Backed(ot, t)
    ensures Opposed(ShiftedOt(ot, t, k), nc)
  {
    var r := ShiftedOt(ot, t, k);
    forall z | 0 <= z < nc
      ensures -1 <= r[z] < nc && (r[z] != -1 ==> r[z] != z && r[r[z]] == z && T(r[z]) != T(z))
    {
      ShiftedOpposedAt(ot, nc, t, k, z);
    }
  }

  /**
   * shiftTriangleCorners(c): rotate the triangle of `c` so that `c` becomes
   * its first corner, carrying vertices and opposites along and pointing the
   * three neighbours back at their new partners. Nothing happens when `c` is
   * already first. The back links index the table with the opposites, so
   * the triangle must have all three neighbours.
   */
  function ShiftTriangleCorners<Pt>(m: MeshState<Pt>, c: int): (r: MeshState<Pt>)
    requires Valid(m) && 0 <= c < m.nc
    requires Offset(c) != 0 ==> Backed(m.ot, T(c))
    ensures Valid(r)
  {
    var t, k := T(c), Offset(c);
    if k == 0 then m
    else m.(vt := Rotate3(m.vt, t, k), ot := ShiftedOt(m.ot, t, k))
  }

  /** The start corner's vertex and opposite land in the first slot of its triangle; only vt and ot change. */
  lemma ShiftStartsAt<Pt>(m: MeshState<Pt>, c: int)
    requires Valid(m) && 0 <= c < m.nc
    requires Offset(c) != 0 ==> Backed(m.ot, T(c))
    requires Opposed(m.ot, m.nc)
    ensures var r := ShiftTriangleCorners(m, c);
      r.vt[Corner(T(c))] == m.vt[c] && r.ot[Corner(T(c))] == m.ot[c] &&
      r.g == m.g && r.removed == m.removed && r.vm == m.vm && r.tm == m.tm &&
      r.nv == m.nv && r.nt == m.nt && r.nc == m.nc && r.tMoves == m.tMoves && r.vMoves == m.vMoves
  {
    ShiftStartVertex(m, c);
    ShiftStartOpposite(m, c);
  }

  /** The start corner's vertex lands in the first slot of its triangle. */
  lemma ShiftStartVertex<Pt>(m: MeshState<Pt>, c: int)
    requires Valid(m) && 0 <= c < m.nc
    requires Offset(c) != 0 ==> Backed(m.ot, T(c))
    ensures ShiftTriangleCorners(m, c).vt[Corner(T(c))] == m.vt[c]
  {
    var t, k := T(c), Offset(c);
    if k != 0 {
      InTriangle(c, t);
      assert c == 3 * t + k && Sigma(c, t, k) == 3 * t;
      RotateRenames(m.vt, t, k, c);
    }
  }

  /** The start corner's opposite lands in the first slot of its triangle. */
  lemma ShiftStartOpposite<Pt>(m: MeshState<Pt>, c: int)
    requires Valid(m) && 0 <= c < m.nc
    requires Offset(c) != 0 ==> Backed(m.ot, T(c))
    requires Opposed(m.ot, m.nc)
    ensures ShiftTriangleCorners(m, c).ot[Corner(T(c))] == m.ot[c]
  {
    var t, k := T(c), Offset(c);
    if k != 0 {
      InTriangle(c, t);
      assert c == 3 * t + k && Sigma(c, t, k) == 3 * t;
      assert m.ot[c] != -1;
      Facing(m.ot, m.nc, c);
      ShiftedOtRenames(m.ot, m.nc, t, k, c);
      assert Sigma(m.ot[c], t, k) == m.ot[c];
    }
  }

  /**
   * Every corner `y` is renamed Sigma(y): under its new name it keeps its
   * vertex, and its opposite is the renamed old opposite.
   */
  lemma ShiftRenames<Pt>(m: MeshState<Pt>, c: int, y: int)
    requires Valid(m) && 0 <= c < m.nc
    requires Offset(c) != 0 ==> Backed(m.ot, T(c))
    requires Opposed(m.ot, m.nc) && 0 <= y < m.nc
    ensures var r, t, k := ShiftTriangleCorners(m, c), T(c), Offset(c);
      Sigma(y, t, k) < m.nc && r.vt[Sigma(y, t, k)] == m.vt[y] && r.ot[Sigma(y, t, k)] == Sigma(m.ot[y], t, k)
  {
    var t, k := T(c), Offset(c);
    if k != 0 {
      RotateRenames(m.vt, t, k, y);
      ShiftedOtRenames(m.ot, m.nc, t, k, y);
    }
  }

  /** Shifting keeps the opposite table a cross-triangle involution and every corner on a live vertex. */
  lemma ShiftKeepsMesh<Pt>(m: MeshState<Pt>, c: int)
    requires Valid(m) && 0 <= c < m.nc
    requires Offset(c) != 0 ==> Backed(m.ot, T(c))
    requires Opposed(m.ot, m.nc) && VerticesIn(m.vt, m.nc, m.nv)
    ensures var r := ShiftTriangleCorners(m, c);
      Opposed(r.ot, r.nc) && VerticesIn(r.vt, r.nc, r.nv)
  {
    var t, k := T(c), Offset(c);
    if k != 0 {
      ShiftedOpposed(m.ot, m.nc, t, k);
      var r := ShiftTriangleCorners(m, c);
      forall x | 0 <= x < m.nc
        ensures 0 <= r.vt[x] < m.nv
      {
        var y := SigmaInv(x, t, k);
        RotateRenames(m.vt, t, k, y);
      }
    }
  }
}
