/**
 * Rebuilding the opposite table from the vertex table (Mesh::computeO in
 * geomUtils/inc/mesh.h). The source works in four phases, each modelled as a
 * method here: count every vertex's valence, turn the valences into the
 * first slot of each vertex's bucket (a prefix sum), scatter the corners
 * into their buckets while clearing the opposites, and finally match every
 * pair of corners that share a vertex.
 */
module ComputeOpposites {
  import opened CornerOps

  /** Number of occurrences of `w` in `s`. */
  function Count(s: seq<int>, w: int): (k: nat)
    ensures k <= |s|
  {
    if |s| == 0 then 0 else Count(s[..|s| - 1], w) + (if s[|s| - 1] == w then 1 else 0)
  }

  /** Sum of a sequence. */
  function Sum(s: seq<int>): int
  {
    if |s| == 0 then 0 else Sum(s[..|s| - 1]) + s[|s| - 1]
  }

  /** Number of entries of `s` in [0, k). */
  function CountBelow(s: seq<int>, k: int): nat
  {
    if |s| == 0 then 0
    else CountBelow(s[..|s| - 1], k) + (if 0 <= s[|s| - 1] < k then 1 else 0)
  }

  lemma {:induction false} CountBelowStep(s: seq<int>, k: int)
    requires k >= 0
    ensures CountBelow(s, k + 1) == CountBelow(s, k) + Count(s, k)
  {
    if |s| > 0 {
      CountBelowStep(s[..|s| - 1], k);
    }
  }

  lemma {:induction false} CountBelowZero(s: seq<int>)
    ensures CountBelow(s, 0) == 0
  {
    if |s| > 0 {
      CountBelowZero(s[..|s| - 1]);
    }
  }

  lemma {:induction false} CountBelowAll(s: seq<int>, nv: int)
    requires forall i :: 0 <= i < |s| ==> 0 <= s[i] < nv
    ensures CountBelow(s, nv) == |s|
  {
    if |s| > 0 {
      CountBelowAll(s[..|s| - 1], nv);
    }
  }

  /** Summing the valences of the first `k` vertices counts the corners of those vertices. */
  lemma {:induction false} SumOfCounts(s: seq<int>, val: seq<int>, k: int)
    requires 0 <= k <= |val|
    requires forall w :: 0 <= w < |val| ==> val[w] == Count(s, w)
    ensures Sum(val[..k]) == CountBelow(s, k)
  {
    if k == 0 {
      CountBelowZero(s);
    } else {
      SumOfCounts(s, val, k - 1);
      assert val[..k][..k - 1] == val[..k - 1];
      CountBelowStep(s, k - 1);
    }
  }

  /** The valences of a vertex table with every entry a vertex add up to its corner count. */
  lemma ValencesSum(s: seq<int>, val: seq<int>)
    requires forall i :: 0 <= i < |s| ==> 0 <= s[i] < |val|
    requires forall w :: 0 <= w < |val| ==> val[w] == Count(s, w)
    ensures Sum(val) == |s|
  {
    SumOfCounts(s, val, |val|);
    assert val[..|val|] == val;
    CountBelowAll(s, |val|);
  }

  lemma {:induction false} SumPrefixMono(val: seq<int>, i: int, j: int)
    requires 0 <= i <= j <= |val|
    requires forall w :: 0 <= w < |val| ==> val[w] >= 0
    ensures Sum(val[..i]) <= Sum(val[..j])
    decreases j
  {
    if i < j {
      SumPrefixMono(val, i, j - 1);
      assert val[..j][..j - 1] == val[..j - 1];
    }
  }

  lemma {:induction false} CountPrefixLess(s: seq<int>, i: int, j: int)
    requires 0 <= i < j <= |s|
    ensures Count(s[..i], s[i]) < Count(s[..j], s[i])
    decreases j
  {
    assert s[..j][..j - 1] == s[..j - 1];
    if i < j - 1 {
      CountPrefixLess(s, i, j - 1);
    }
  }

  /** Vertex `w` comes before vertex `w'`. */
  predicate Precedes(val: seq<int>, w: int, w': int)
  {
    0 <= w < w' < |val|
  }

  /**
   * Bucket of vertex `w` is the slot range [fic[w], fic[w] + val[w]); the
   * buckets lie within `nc` and follow each other in vertex order.
   */
  ghost predicate Layout(val: seq<int>, fic: seq<int>, nc: int)
  {
    |fic| == |val| &&
    (forall w :: 0 <= w < |val| ==> val[w] >= 0 && fic[w] >= 0 && fic[w] + val[w] <= nc) &&
    (forall w, w' {:trigger Precedes(val, w, w')} :: Precedes(val, w, w') ==> fic[w] + val[w] <= fic[w'])
  }

  /** Prefix sums of non-negative valences lay the buckets out, in order, within their total. */
  lemma PrefixSumLayout(val: seq<int>, fic: seq<int>)
    requires |fic| == |val|
    requires forall w :: 0 <= w < |val| ==> val[w] >= 0 && fic[w] == Sum(val[..w])
    ensures Layout(val, fic, Sum(val))
  {
    forall w | 0 <= w < |val|
      ensures fic[w] >= 0 && fic[w] + val[w] <= Sum(val)
    {
      PrefixSumEnds(val, fic, w, |val|);
      assert val[..|val|] == val;
    }
    forall w, w' | Precedes(val, w, w')
      ensures fic[w] + val[w] <= fic[w']
    {
      PrefixSumEnds(val, fic, w, w');
    }
  }

  /** The bucket of `w` starts at or after 0 and ends by the prefix sum up to any later `j`. */
  lemma PrefixSumEnds(val: seq<int>, fic: seq<int>, w: int, j: int)
    requires |fic| == |val| && 0 <= w < j <= |val|
    requires forall w :: 0 <= w < |val| ==> val[w] >= 0 && fic[w] == Sum(val[..w])
    ensures 0 <= fic[w] && fic[w] + val[w] <= Sum(val[..j])
  {
    SumPrefixMono(val, 0, w);
    assert val[..w + 1][..w] == val[..w];
    SumPrefixMono(val, w + 1, j);
  }

  /** The first incident corners of the live corners' valences lay the buckets out within the live corners. */
  lemma BucketLayout(vt: seq<int>, nc: int, valence: seq<int>, fic: seq<int>)
    requires 0 <= nc <= |vt| && forall c :: 0 <= c < nc ==> 0 <= vt[c] < |valence|
    requires forall w :: 0 <= w < |valence| ==> valence[w] == Count(vt[..nc], w)
    requires |fic| == |valence| && forall w :: 0 <= w < |valence| ==> fic[w] == Sum(valence[..w])
    ensures Layout(valence, fic, nc)
  {
    ValencesSum(vt[..nc], valence);
    PrefixSumLayout(valence, fic);
  }

  /** Every live corner names a vertex. */
  ghost predicate VerticesInRange(vt: seq<int>, nc: int, nv: int)
  {
    0 <= nc <= |vt| && forall c :: 0 <= c < nc ==> 0 <= vt[c] < nv
  }

  /** Phase 1: `valence[v]` is the number of live corners of vertex `v`. */
  method CountValences(vt: seq<int>, nc: int, nv: nat) returns (valence: seq<int>)
    requires VerticesInRange(vt, nc, nv)
    ensures |valence| == nv
    ensures forall w :: 0 <= w < nv ==> valence[w] == Count(vt[..nc], w)
  {
    valence := seq(nv, _ => 0);
    var i := 0;
    while i < nc
      invariant 0 <= i <= nc && |valence| == nv
      invariant forall w :: 0 <= w < nv ==> valence[w] == Count(vt[..i], w)
    {
      assert vt[..i + 1][..i] == vt[..i];
      valence := valence[vt[i] := valence[vt[i]] + 1];
      i := i + 1;
    }
  }

  /** Phase 2: the running prefix sum gives each vertex the first slot of its bucket. */
  method FirstIncidentCorners(valence: seq<int>) returns (fic: seq<int>)
    ensures |fic| == |valence|
    ensures forall w :: 0 <= w < |valence| ==> fic[w] == Sum(valence[..w])
  {
    fic := [];
    var running := 0;
    var i := 0;
    while i < |valence|
      invariant 0 <= i <= |valence| && |fic| == i
      invariant running == Sum(valence[..i])
      invariant forall w :: 0 <= w < i ==> fic[w] == Sum(valence[..w])
    {
      fic := fic + [running];
      assert valence[..i + 1][..i] == valence[..i];
      running := running + valence[i];
      i := i + 1;
    }
  }

  /** The slot the scatter phase gives corner `c`: after the earlier corners of its vertex. */
  function Slot(vt: seq<int>, fic: seq<int>, c: int): int
    requires 0 <= c < |vt| && 0 <= vt[c] < |fic|
  {
    fic[vt[c]] + Count(vt[..c], vt[c])
  }

  /** Slot `s` is among the first `run[w]` slots of the bucket of `w`. */
  predicate InBucket(fic: seq<int>, run: seq<int>, w: int, s: int)
  {
    |fic| == |run| && 0 <= w < |run| && fic[w] <= s < fic[w] + run[w]
  }

  /** The first `run[w]` slots of each bucket hold corners of `w`. */
  ghost predicate Filled(vt: seq<int>, nc: int, fic: seq<int>, run: seq<int>, C: seq<int>)
  {
    forall w, s :: InBucket(fic, run, w, s) ==>
      0 <= s < |C| && 0 <= C[s] < nc && C[s] < |vt| && vt[C[s]] == w
  }

  /** The corners before `c` sit in their slots, inside the filled part of their buckets. */
  ghost predicate Placed(vt: seq<int>, fic: seq<int>, run: seq<int>, C: seq<int>, c: int)
    requires |fic| == |run| && 0 <= c <= |vt| && forall c' :: 0 <= c' < c ==> 0 <= vt[c'] < |fic|
  {
    forall c' :: 0 <= c' < c ==>
      fic[vt[c']] <= Slot(vt, fic, c') < fic[vt[c']] + run[vt[c']] &&
      0 <= Slot(vt, fic, c') < |C| && C[Slot(vt, fic, c')] == c'
  }

  /** The slot written by one scatter step lies in no other bucket's range. */
  lemma OutsideOtherBuckets(valence: seq<int>, fic: seq<int>, nc: int, w: int, slot: int, w': int)
    requires Layout(valence, fic, nc) && 0 <= w < |valence| && 0 <= w' < |valence| && w' != w
    requires fic[w] <= slot < fic[w] + valence[w]
    ensures slot < fic[w'] || fic[w'] + valence[w'] <= slot
  {
    if w' < w {
      assert Precedes(valence, w', w);
    } else {
      assert Precedes(valence, w, w');
    }
  }

  /** Every slot of the bucket of `w` holds a live corner of `w`. */
  ghost predicate BucketsHold(vt: seq<int>, nc: int, valence: seq<int>, fic: seq<int>, C: seq<int>)
    requires |fic| == |valence|
  {
    |C| == nc && nc <= |vt| && Filled(vt, nc, fic, valence, C)
  }

  /** Every live corner sits in its own slot, inside its vertex's bucket. */
  ghost predicate CornersPlaced(vt: seq<int>, nc: int, valence: seq<int>, fic: seq<int>, C: seq<int>)
    requires |fic| == |valence| && VerticesInRange(vt, nc, |valence|)
  {
    Placed(vt, fic, valence, C, nc)
  }

  lemma {:induction false} CountPrefixMono(s: seq<int>, i: int, j: int, w: int)
    requires 0 <= i <= j <= |s|
    ensures Count(s[..i], w) <= Count(s[..j], w)
    decreases j
  {
    if i < j {
      CountPrefixMono(s, i, j - 1, w);
      assert s[..j][..j - 1] == s[..j - 1];
    }
  }

  /** The slot of a live corner lies inside its vertex's bucket, so inside the corner list. */
  lemma SlotInRange(vt: seq<int>, nc: int, valence: seq<int>, fic: seq<int>, c: int)
    requires VerticesInRange(vt, nc, |valence|) && |fic| == |valence| && Layout(valence, fic, nc)
    requires forall w :: 0 <= w < |valence| ==> valence[w] == Count(vt[..nc], w)
    requires 0 <= c < nc
    ensures fic[vt[c]] <= Slot(vt, fic, c) < fic[vt[c]] + valence[vt[c]] <= nc
  {
    assert vt[..nc][..c] == vt[..c];
    CountPrefixLess(vt[..nc], c, nc);
    assert vt[..nc][..nc] == vt[..nc];
  }

  /** Counting one more corner bumps the running valence of its vertex only. */
  lemma RunsStep(vt: seq<int>, nc: int, valence: seq<int>, run: seq<int>, c: int)
    requires VerticesInRange(vt, nc, |valence|) && 0 <= c < nc && |run| == |valence|
    requires forall w :: 0 <= w < |valence| ==> valence[w] == Count(vt[..nc], w)
    requires forall w :: 0 <= w < |run| ==> run[w] == Count(vt[..c], w)
    ensures var run' := run[vt[c] := run[vt[c]] + 1];
      forall w :: 0 <= w < |run'| ==> run'[w] == Count(vt[..c + 1], w) <= valence[w]
  {
    var run' := run[vt[c] := run[vt[c]] + 1];
    assert vt[..nc][..c + 1] == vt[..c + 1];
    assert vt[..nc][..nc] == vt[..nc];
    forall w | 0 <= w < |run'|
      ensures run'[w] == Count(vt[..c + 1], w) <= valence[w]
    {
      CountSnoc(vt, c, w);
      CountPrefixMono(vt[..nc], c + 1, nc, w);
    }
  }

  lemma CountSnoc(s: seq<int>, i: int, w: int)
    requires 0 <= i < |s|
    ensures Count(s[..i + 1], w) == Count(s[..i], w) + if s[i] == w then 1 else 0
  {
    assert s[..i + 1][..i] == s[..i];
  }

  /** One step of the scatter loop keeps the filled buckets filled. */
  lemma FilledStep(vt: seq<int>, nc: int, valence: seq<int>, fic: seq<int>, run: seq<int>, C: seq<int>, c: int)
    requires VerticesInRange(vt, nc, |valence|) && |fic| == |valence| == |run| && |C| == nc
    requires Layout(valence, fic, nc)
    requires 0 <= c < nc
    requires forall w :: 0 <= w < |run| ==> 0 <= run[w] <= valence[w]
    requires run[vt[c]] < valence[vt[c]]
    requires Filled(vt, nc, fic, run, C)
    ensures Filled(vt, nc, fic, run[vt[c] := run[vt[c]] + 1], C[fic[vt[c]] + run[vt[c]] := c])
  {
    var w := vt[c];
    var slot := fic[w] + run[w];
    var run', C' := run[w := run[w] + 1], C[slot := c];
    forall w', s | InBucket(fic, run', w', s)
      ensures 0 <= s < |C'| && 0 <= C'[s] < nc && C'[s] < |vt| && vt[C'[s]] == w'
    {
      if w' != w {
        OutsideOtherBuckets(valence, fic, nc, w, slot, w');
        assert InBucket(fic, run, w', s);
      } else if s != slot {
        assert InBucket(fic, run, w', s);
      }
    }
  }

  /** One step of the scatter loop puts corner `c` in its slot and keeps the earlier ones in theirs. */
  lemma PlacedStep(vt: seq<int>, nc: int, valence: seq<int>, fic: seq<int>, run: seq<int>, C: seq<int>, c: int)
    requires VerticesInRange(vt, nc, |valence|) && |fic| == |valence| == |run| && |C| == nc
    requires Layout(valence, fic, nc)
    requires 0 <= c < nc
    requires forall w :: 0 <= w < |run| ==> run[w] <= valence[w]
    requires fic[vt[c]] + run[vt[c]] == Slot(vt, fic, c) < fic[vt[c]] + valence[vt[c]]
    requires Placed(vt, fic, run, C, c)
    ensures Placed(vt, fic, run[vt[c] := run[vt[c]] + 1], C[fic[vt[c]] + run[vt[c]] := c], c + 1)
  {
    var w := vt[c];
    var slot := Slot(vt, fic, c);
    var run', C' := run[w := run[w] + 1], C[slot := c];
    forall c' | 0 <= c' < c + 1
      ensures fic[vt[c']] <= Slot(vt, fic, c') < fic[vt[c']] + run'[vt[c']] &&
              0 <= Slot(vt, fic, c') < |C'| && C'[Slot(vt, fic, c')] == c'
    {
      if c' < c {
        var k := Slot(vt, fic, c');
        assert fic[vt[c']] <= k < fic[vt[c']] + run[vt[c']] && C[k] == c';
        if vt[c'] != w {
          OutsideOtherBuckets(valence, fic, nc, w, slot, vt[c']);
        }
        assert k != slot;
      }
    }
  }

  /** The scatter loop's invariant once the corners before `c` are in their buckets. */
  ghost predicate Scattering(vt: seq<int>, nc: int, valence: seq<int>, fic: seq<int>, run: seq<int>, C: seq<int>, c: int)
    requires VerticesInRange(vt, nc, |valence|) && |fic| == |valence|
  {
    0 <= c <= nc && |run| == |valence| && |C| == nc &&
    (forall w :: 0 <= w < |run| ==> run[w] == Count(vt[..c], w) <= valence[w]) &&
    Filled(vt, nc, fic, run, C) &&
    Placed(vt, fic, run, C, c)
  }

  /** One scatter step writes corner `c` into its slot and keeps the invariant. */
  lemma ScatterStep(vt: seq<int>, nc: int, valence: seq<int>, fic: seq<int>, run: seq<int>, C: seq<int>, c: int)
    requires VerticesInRange(vt, nc, |valence|) && |fic| == |valence| && Layout(valence, fic, nc)
    requires forall w :: 0 <= w < |valence| ==> valence[w] == Count(vt[..nc], w)
    requires Scattering(vt, nc, valence, fic, run, C, c) && c < nc
    ensures 0 <= fic[vt[c]] + run[vt[c]] < nc
    ensures Scattering(vt, nc, valence, fic, run[vt[c] := run[vt[c]] + 1], C[fic[vt[c]] + run[vt[c]] := c], c + 1)
  {
    SlotInRange(vt, nc, valence, fic, c);
    FilledStep(vt, nc, valence, fic, run, C, c);
    PlacedStep(vt, nc, valence, fic, run, C, c);
    RunsStep(vt, nc, valence, run, c);
  }

  /**
   * Phase 3: list every live corner in the bucket of its vertex, and reset
   * the opposite of every live corner to -1.
   */
  method ScatterCorners(vt: seq<int>, ot: seq<int>, nc: int, nv: nat, valence: seq<int>, fic: seq<int>)
    returns (C: seq<int>, cleared: seq<int>)
    requires VerticesInRange(vt, nc, nv) && nc <= |ot|
    requires |valence| == nv && forall w :: 0 <= w < nv ==> valence[w] == Count(vt[..nc], w)
    requires |fic| == nv && Layout(valence, fic, nc)
    ensures |C| == nc
    ensures BucketsHold(vt, nc, valence, fic, C)
    ensures CornersPlaced(vt, nc, valence, fic, C)
    ensures |cleared| == |ot|
    ensures forall x :: 0 <= x < |ot| ==> cleared[x] == if x < nc then -1 else ot[x]
  {
    C := seq(nc, _ => 0);
    cleared := ot;
    var run := seq(nv, _ => 0);
    var c := 0;
    assert vt[..0] == [];
    while c < nc
      invariant Scattering(vt, nc, valence, fic, run, C, c)
      invariant |cleared| == |ot|
      invariant forall x :: 0 <= x < |ot| ==> cleared[x] == if x < c then -1 else ot[x]
    {
      var w := vt[c];
      ScatterStep(vt, nc, valence, fic, run, C, c);
      C := C[fic[w] + run[w] := c];
      run := run[w := run[w] + 1];
      cleared := cleared[c := -1];
      c := c + 1;
    }
    assert vt[..nc] == vt[..c];
    assert run == valence;
  }

  /** Corner `x` and corner `y` see the same edge, in opposite directions. */
  ghost predicate Faces(vt: seq<int>, x: int, y: int)
  {
    0 <= x && 0 <= y && N(x) < |vt| && P(x) < |vt| && N(y) < |vt| && P(y) < |vt| &&
    vt[N(x)] == vt[P(y)] && vt[P(x)] == vt[N(y)]
  }

  /** Every opposite that is set joins two corners facing the same edge. */
  ghost predicate Sound(vt: seq<int>, ot: seq<int>, nc: int)
  {
    0 <= nc <= |ot| &&
    forall x :: 0 <= x < nc ==> ot[x] == -1 || (0 <= ot[x] < nc && Faces(vt, x, ot[x]))
  }

  /** Every corner that faces a corner of another triangle has an opposite. */
  ghost predicate Complete(vt: seq<int>, ot: seq<int>, nc: int)
  {
    nc <= |ot| &&
    forall x, y :: 0 <= x < nc && 0 <= y < nc && T(x) != T(y) && Faces(vt, x, y) ==> ot[x] != -1
  }

  /**
   * The input computeO is meant for: no triangle repeats a vertex and no
   * directed edge is used by two corners.
   */
  ghost predicate OrientedManifold(vt: seq<int>, nc: int)
  {
    nc <= |vt| && nc % 3 == 0 &&
    (forall x :: 0 <= x < nc ==> vt[N(x)] != vt[P(x)]) &&
    (forall x, y :: 0 <= x < nc && 0 <= y < nc && x != y && vt[N(x)] == vt[N(y)] ==> vt[P(x)] != vt[P(y)])
  }

  /** The matching step for corners `a` and `b` of one vertex, when `a` follows `b`. */
  ghost predicate Linked(vt: seq<int>, ot: seq<int>, a: int, b: int)
  {
    0 <= a && 0 <= b && N(a) < |vt| && P(b) < |vt| && P(a) < |ot| && N(b) < |ot| &&
    (vt[N(a)] == vt[P(b)] ==> ot[P(a)] != -1 && ot[N(b)] != -1)
  }

  ghost predicate PairDone(vt: seq<int>, ot: seq<int>, a: int, b: int)
  {
    Linked(vt, ot, a, b) && Linked(vt, ot, b, a)
  }

  /** All slot pairs of buckets before `i`, and of bucket `i` before (c1, c2), are matched. */
  ghost predicate DoneUpTo(vt: seq<int>, ot: seq<int>, valence: seq<int>, fic: seq<int>, C: seq<int>,
                           i: int, c1: int, c2: int)
    requires |fic| == |valence|
  {
    forall w, s1, s2 ::
      (0 <= w < |valence| && fic[w] <= s1 < s2 < fic[w] + valence[w] &&
       0 <= s1 < |C| && s2 < |C| &&
       (w < i || (w == i && (s1 < c1 || (s1 == c1 && s2 < c2))))) ==>
      PairDone(vt, ot, C[s1], C[s2])
  }

  /** Once set, an opposite is never reset to -1. */
  ghost predicate Grows(ot: seq<int>, ot': seq<int>)
  {
    |ot'| == |ot| && forall z :: 0 <= z < |ot| && ot[z] != -1 ==> ot'[z] != -1
  }

  lemma DoneGrows(vt: seq<int>, ot: seq<int>, ot': seq<int>, valence: seq<int>, fic: seq<int>, C: seq<int>,
                  i: int, c1: int, c2: int)
    requires |fic| == |valence|
    requires Grows(ot, ot') && DoneUpTo(vt, ot, valence, fic, C, i, c1, c2)
    ensures DoneUpTo(vt, ot', valence, fic, C, i, c1, c2)
  {
    forall w, s1, s2 | 0 <= w < |valence| && fic[w] <= s1 < s2 < fic[w] + valence[w] &&
      0 <= s1 < |C| && s2 < |C| &&
      (w < i || (w == i && (s1 < c1 || (s1 == c1 && s2 < c2))))
      ensures PairDone(vt, ot', C[s1], C[s2])
    {
      assert PairDone(vt, ot, C[s1], C[s2]);
    }
  }

  /** The two tests of the source for one pair of slots, writing both directions of each match. */
  function MatchPair(vt: seq<int>, ot: seq<int>, nc: int, a: int, b: int): (ot': seq<int>)
    requires 0 <= a < nc && 0 <= b < nc && nc % 3 == 0 && nc <= |vt| && nc <= |ot|
    ensures Grows(ot, ot') && PairDone(vt, ot', a, b)
    ensures forall x :: nc <= x < |ot| ==> ot'[x] == ot[x]
  {
    StaysBelow(a, nc);
    StaysBelow(b, nc);
    var o1 := if vt[N(a)] == vt[P(b)] then ot[P(a) := N(b)][N(b) := P(a)] else ot;
    if vt[N(b)] == vt[P(a)] then o1[P(b) := N(a)][N(a) := P(b)] else o1
  }

  lemma MatchPairSound(vt: seq<int>, ot: seq<int>, nc: int, a: int, b: int)
    requires 0 <= a < nc && 0 <= b < nc && nc % 3 == 0 && nc <= |vt| && nc <= |ot|
    requires vt[a] == vt[b]
    requires Sound(vt, ot, nc)
    ensures Sound(vt, MatchPair(vt, ot, nc, a, b), nc)
  {
    NextPrev(a);
    NextPrev(b);
    StaysBelow(a, nc);
    StaysBelow(b, nc);
    var o1 := if vt[N(a)] == vt[P(b)] then ot[P(a) := N(b)][N(b) := P(a)] else ot;
    if vt[N(a)] == vt[P(b)] {
      assert Faces(vt, P(a), N(b)) && Faces(vt, N(b), P(a));
      forall x | 0 <= x < nc
        ensures o1[x] == -1 || (0 <= o1[x] < nc && Faces(vt, x, o1[x]))
      {
        if x != P(a) && x != N(b) {
          assert o1[x] == ot[x];
        }
      }
    }
    assert Sound(vt, o1, nc);
    var o2 := if vt[N(b)] == vt[P(a)] then o1[P(b) := N(a)][N(a) := P(b)] else o1;
    assert o2 == MatchPair(vt, ot, nc, a, b);
    if vt[N(b)] == vt[P(a)] {
      assert Faces(vt, P(b), N(a)) && Faces(vt, N(a), P(b));
      forall x | 0 <= x < nc
        ensures o2[x] == -1 || (0 <= o2[x] < nc && Faces(vt, x, o2[x]))
      {
        if x != P(b) && x != N(a) {
          assert o2[x] == o1[x];
        }
      }
    }
  }

  /** Matching the pair at (c1, c2) extends the done pairs to (c1, c2 + 1). */
  lemma DoneStep(vt: seq<int>, ot: seq<int>, valence: seq<int>, fic: seq<int>, C: seq<int>, i: int, c1: int, c2: int)
    requires |fic| == |valence| && 0 <= c1 < |C| && 0 <= c2 < |C|
    requires DoneUpTo(vt, ot, valence, fic, C, i, c1, c2) && PairDone(vt, ot, C[c1], C[c2])
    ensures DoneUpTo(vt, ot, valence, fic, C, i, c1, c2 + 1)
  {
  }

  /** Finishing the inner loop moves on to the next first slot. */
  lemma DoneRow(vt: seq<int>, ot: seq<int>, valence: seq<int>, fic: seq<int>, C: seq<int>, i: int, c1: int)
    requires |fic| == |valence| && 0 <= i < |valence|
    requires DoneUpTo(vt, ot, valence, fic, C, i, c1, fic[i] + valence[i])
    ensures DoneUpTo(vt, ot, valence, fic, C, i, c1 + 1, c1 + 2)
  {
  }

  /** Entering bucket `i`: no pair of it is done yet, and none is claimed. */
  lemma DoneEnter(vt: seq<int>, ot: seq<int>, valence: seq<int>, fic: seq<int>, C: seq<int>, i: int)
    requires |fic| == |valence| && 0 <= i < |valence|
    requires DoneUpTo(vt, ot, valence, fic, C, i, 0, 0)
    ensures DoneUpTo(vt, ot, valence, fic, C, i, fic[i], fic[i] + 1)
  {
  }

  /** Finishing bucket `i`: all its pairs are done. */
  lemma DoneLeave(vt: seq<int>, ot: seq<int>, valence: seq<int>, fic: seq<int>, C: seq<int>, i: int, c1: int)
    requires |fic| == |valence| && 0 <= i < |valence|
    requires c1 >= fic[i] + valence[i] - 1
    requires DoneUpTo(vt, ot, valence, fic, C, i, c1, c1 + 1)
    ensures DoneUpTo(vt, ot, valence, fic, C, i + 1, 0, 0)
  {
  }

  /**
   * Phase 4: for every vertex, for every pair of slots c1 < c2 of its bucket,
   * link p(C[c1]) with n(C[c2]) when C[c1] follows C[c2] around the vertex,
   * and p(C[c2]) with n(C[c1]) when C[c2] follows C[c1].
   */
  method MatchOpposites(vt: seq<int>, ot0: seq<int>, nc: int, nv: nat, valence: seq<int>, fic: seq<int>, C: seq<int>)
    returns (ot: seq<int>)
    requires VerticesInRange(vt, nc, nv) && nc % 3 == 0 && nc <= |ot0|
    requires |valence| == nv && |fic| == nv && Layout(valence, fic, nc)
    requires BucketsHold(vt, nc, valence, fic, C)
    requires forall x :: 0 <= x < nc ==> ot0[x] == -1
    ensures |ot| == |ot0| && forall x :: nc <= x < |ot0| ==> ot[x] == ot0[x]
    ensures Sound(vt, ot, nc)
    ensures DoneUpTo(vt, ot, valence, fic, C, nv, 0, 0)
  {
    ot := ot0;
    var i := 0;
    while i < nv
      invariant 0 <= i <= nv
      invariant |ot| == |ot0| && forall x :: nc <= x < |ot0| ==> ot[x] == ot0[x]
      invariant Sound(vt, ot, nc)
      invariant DoneUpTo(vt, ot, valence, fic, C, i, 0, 0)
    {
      DoneEnter(vt, ot, valence, fic, C, i);
      var c1 := fic[i];
      while c1 < fic[i] + valence[i] - 1
        invariant fic[i] <= c1 && (c1 <= fic[i] + valence[i] - 1 || valence[i] == 0)
        invariant |ot| == |ot0| && forall x :: nc <= x < |ot0| ==> ot[x] == ot0[x]
        invariant Sound(vt, ot, nc)
        invariant DoneUpTo(vt, ot, valence, fic, C, i, c1, c1 + 1)
      {
        var c2 := c1 + 1;
        while c2 < fic[i] + valence[i]
          invariant c1 + 1 <= c2 <= fic[i] + valence[i]
          invariant |ot| == |ot0| && forall x :: nc <= x < |ot0| ==> ot[x] == ot0[x]
          invariant Sound(vt, ot, nc)
          invariant DoneUpTo(vt, ot, valence, fic, C, i, c1, c2)
        {
          assert InBucket(fic, valence, i, c1) && InBucket(fic, valence, i, c2);
          var a, b := C[c1], C[c2];
          MatchPairSound(vt, ot, nc, a, b);
          var ot' := MatchPair(vt, ot, nc, a, b);
          DoneGrows(vt, ot, ot', valence, fic, C, i, c1, c2);
          DoneStep(vt, ot', valence, fic, C, i, c1, c2);
          ot := ot';
          c2 := c2 + 1;
        }
        DoneRow(vt, ot, valence, fic, C, i, c1);
        c1 := c1 + 1;
      }
      DoneLeave(vt, ot, valence, fic, C, i, c1);
      i := i + 1;
    }
  }

  /** After every bucket pair is matched, every corner facing another triangle has an opposite. */
  lemma DoneComplete(vt: seq<int>, ot: seq<int>, nc: int, nv: nat, valence: seq<int>, fic: seq<int>, C: seq<int>)
    requires VerticesInRange(vt, nc, nv) && nc % 3 == 0 && nc <= |ot|
    requires |valence| == nv && |fic| == nv && |C| == nc
    requires CornersPlaced(vt, nc, valence, fic, C)
    requires DoneUpTo(vt, ot, valence, fic, C, nv, 0, 0)
    ensures Complete(vt, ot, nc)
  {
    forall x, y | 0 <= x < nc && 0 <= y < nc && T(x) != T(y) && Faces(vt, x, y)
      ensures ot[x] != -1
    {
      FacingPairDone(vt, ot, nc, nv, valence, fic, C, x, y);
    }
  }

  lemma FacingPairDone(vt: seq<int>, ot: seq<int>, nc: int, nv: nat, valence: seq<int>, fic: seq<int>, C: seq<int>,
                       x: int, y: int)
    requires VerticesInRange(vt, nc, nv) && nc % 3 == 0 && nc <= |ot|
    requires |valence| == nv && |fic| == nv && |C| == nc
    requires CornersPlaced(vt, nc, valence, fic, C)
    requires DoneUpTo(vt, ot, valence, fic, C, nv, 0, 0)
    requires 0 <= x < nc && 0 <= y < nc && T(x) != T(y) && Faces(vt, x, y)
    ensures ot[x] != -1
  {
    NextPrev(x);
    NextPrev(y);
    StaysBelow(x, nc);
    StaysBelow(y, nc);
    var a, b := N(x), P(y);
    assert P(a) == x && N(a) == P(x) && P(b) == N(y);
    var w := vt[a];
    assert vt[b] == w;
    var sa, sb := Slot(vt, fic, a), Slot(vt, fic, b);
    assert fic[w] <= sa < fic[w] + valence[w] && C[sa] == a;
    assert fic[w] <= sb < fic[w] + valence[w] && C[sb] == b;
    assert sa != sb;
    if sa < sb {
      assert PairDone(vt, ot, C[sa], C[sb]);
      assert Linked(vt, ot, a, b);
    } else {
      assert PairDone(vt, ot, C[sb], C[sa]);
      assert Linked(vt, ot, a, b);
    }
  }

  /** On an oriented manifold two facing corners lie in different triangles. */
  lemma FacingAcross(vt: seq<int>, nc: int, x: int, y: int)
    requires OrientedManifold(vt, nc) && 0 <= x < nc && 0 <= y < nc && Faces(vt, x, y)
    ensures T(x) != T(y)
  {
    NextPrev(x);
    if T(x) == T(y) {
      assert false;
    }
  }

  /** On an oriented manifold, a directed edge seen by two live corners is seen by one corner. */
  lemma FacingUnique(vt: seq<int>, nc: int, x: int, z: int)
    requires OrientedManifold(vt, nc) && 0 <= x < nc && 0 <= z < nc
    requires vt[N(x)] == vt[N(z)] && vt[P(x)] == vt[P(z)]
    ensures x == z
  {
  }

  /** On an oriented manifold a sound and complete table is a consistent one. */
  lemma ManifoldConsistent(vt: seq<int>, ot: seq<int>, nc: int)
    requires OrientedManifold(vt, nc)
    requires Sound(vt, ot, nc) && Complete(vt, ot, nc)
    ensures Consistent(ot, nc)
  {
    forall x | 0 <= x < nc && ot[x] != -1
      ensures ot[x] != x && ot[ot[x]] == x
    {
      var y := ot[x];
      FacingAcross(vt, nc, x, y);
      assert Faces(vt, y, x);
      var z := ot[y];
      FacingUnique(vt, nc, x, z);
    }
  }
}
