/**
 * The small sequential helpers of utils/inc/helpers.h and their copies in
 * inc/utils/collectionHelpers.h and inc/utils/numHelpers.h: clamp,
 * cyclicallyPermute, populateReverseMap, computeHistogram, transposeMatrix
 * and the colour channel extractors.
 */
module Helpers {

  /**
   * std::find over a sequence: the first index holding `x`, or |s| when
   * `x` does not occur (the end iterator).
   */
  function IndexOf<T(==)>(s: seq<T>, x: T): (i: nat)
    ensures i <= |s|
    ensures i < |s| ==> s[i] == x
    ensures forall k :: 0 <= k < i ==> s[k] != x
  {
    if |s| == 0 then 0
    else if s[0] == x then 0
    else 1 + IndexOf(s[1..], x)
  }

  // ---------------------------------------------------------------------
  // cyclicallyPermute
  // ---------------------------------------------------------------------

  /** The left rotation by `k`: element `i` of the result is element `(i + k) % |s|` of `s`. */
  function Rotated<T>(s: seq<T>, k: int): (r: seq<T>)
    requires 0 <= k <= |s|
    ensures |r| == |s|
    ensures forall i :: 0 <= i < |s| - k ==> r[i] == s[i + k]
    ensures forall i :: |s| - k <= i < |s| ==> r[i] == s[i + k - |s|]
  {
    s[k..] + s[..k]
  }

  /** The loop's index step: `k` places back, cyclically, as `(nextIndex - k + size) % size`. */
  function Back(x: int, k: int, n: int): (y: int)
    requires 0 <= x < n && 0 <= k <= n
    ensures 0 <= y < n
    ensures y == if x >= k then x - k else x - k + n
  {
    (x - k + n) % n
  }

  /** The inverse step: `k` places on, cyclically. */
  function Fwd(x: int, k: int, n: int): (y: int)
    requires 0 <= x < n && 0 <= k <= n
    ensures 0 <= y < n
    ensures y == if x + k < n then x + k else x + k - n
  {
    (x + k) % n
  }

  /**
   * The loop of cyclicallyPermute, `steps` iterations from the state
   * (array `s`, `nextIndex`, `prevData`): each iteration stores `prevData`
   * at `nextIndex`, keeps the displaced value and steps back by `k`.
   */
  function PermuteRun<T>(s: seq<T>, k: int, next: int, prev: T, steps: nat): (r: seq<T>)
    requires 0 <= next < |s| && 0 <= k <= |s|
    ensures |r| == |s|
    decreases steps
  {
    if steps == 0 then s
    else PermuteRun(s[next := prev], k, Back(next, k, |s|), s[next], steps - 1)
  }

  /** What cyclicallyPermute(pData, size, k) leaves in the buffer, as written. */
  function PermutedAsWritten<T>(s: seq<T>, k: int): (r: seq<T>)
    requires k == 0 || 0 < k <= |s|
    ensures |r| == |s|
    ensures k == 0 ==> r == s
  {
    if k == 0 then s else PermuteRun(s, k, Back(0, k, |s|), s[0], |s|)
  }

  /** cyclicallyPermute(pData, size, leftShiftAmount), on the `size` cells of `a`. */
  method CyclicallyPermute<T>(a: array<T>, k: int)
    requires k == 0 || 0 < k <= a.Length
    modifies a
    ensures a[..] == PermutedAsWritten(old(a[..]), k)
  {
    if k == 0 {
      return;
    }
    var n := a.Length;
    var next := (n - k) % n;
    var prev := a[0];
    var i := 0;
    while i < n
      invariant 0 <= i <= n && 0 <= next < n
      invariant PermuteRun(a[..], k, next, prev, n - i) == PermutedAsWritten(old(a[..]), k)
    {
      var tmp := a[next];
      a[next] := prev;
      prev := tmp;
      next := (next - k + n) % n;
      i := i + 1;
    }
  }

  /** gcd(n, k) == 1: no multiple of `k` below `n * k` is a multiple of `n`. */
  ghost predicate Coprime(n: int, k: int)
  {
    0 < n && forall t :: 0 < t < n ==> (t * k) % n != 0
  }

  /** The index the loop visits after `t` steps from index 0. */
  ghost function Orbit(t: nat, k: int, n: int): (y: int)
    requires 0 <= k <= n && 0 < n
    ensures 0 <= y < n
  {
    if t == 0 then 0 else Back(Orbit(t - 1, k, n), k, n)
  }

  /** The number of times the orbit wrapped around: Orbit(t) + t * k is a multiple of `n`. */
  ghost function Wraps(t: nat, k: int, n: int): int
    requires 0 <= k <= n && 0 < n
  {
    if t == 0 then 0 else Wraps(t - 1, k, n) + (if Orbit(t - 1, k, n) >= k then 0 else 1)
  }

  lemma {:induction false} OrbitWraps(t: nat, k: int, n: int)
    requires 0 <= k <= n && 0 < n
    ensures Orbit(t, k, n) + t * k == n * Wraps(t, k, n)
  {
    if t > 0 {
      OrbitWraps(t - 1, k, n);
      var w := Wraps(t - 1, k, n);
      assert t * k == (t - 1) * k + k;
      if Orbit(t - 1, k, n) >= k {
        assert Wraps(t, k, n) == w;
      } else {
        assert Wraps(t, k, n) == w + 1;
        MulSucc(n, w);
      }
    }
  }

  lemma MulSucc(n: int, w: int)
    ensures n * (w + 1) == n * w + n
  {
  }

  lemma MulSub(n: int, w: int, k: int)
    ensures n * (w - k) == n * w - n * k
  {
  }

  /** A multiple of `n` is `0` modulo `n`. */
  lemma MultipleMod(a: int, n: int, q: int)
    requires 0 < n && a == n * q
    ensures a % n == 0
  {
    var d := q - a / n;
    assert a == n * (a / n) + a % n;
    assert n * d == a % n;
    SmallMultiple(n, d);
  }

  /** A multiple of `n` in [0, n) is 0. */
  lemma SmallMultiple(n: int, z: int)
    requires 0 < n && 0 <= n * z < n
    ensures z == 0
  {
    if z > 0 {
      AtLeastOnce(n, z);
    } else if z < 0 {
      AtLeastOnce(n, -z);
    }
  }

  lemma {:induction false} AtLeastOnce(n: int, z: int)
    requires 0 < n && 0 < z
    ensures n * z >= n
  {
    if z > 1 {
      AtLeastOnce(n, z - 1);
      assert n * z == n * (z - 1) + n;
    }
  }

  /** After `n` steps the orbit is back at 0, and with gcd(n, k) == 1 not before. */
  lemma OrbitReturns(t: nat, k: int, n: int)
    requires 0 < k <= n && Coprime(n, k) && t <= n
    ensures Orbit(t, k, n) == 0 <==> t == 0 || t == n
  {
    OrbitWraps(t, k, n);
    var w := Wraps(t, k, n);
    if t == n {
      MulSub(n, w, k);
      SmallMultiple(n, w - k);
    } else if 0 < t && Orbit(t, k, n) == 0 {
      MultipleMod(t * k, n, w);
      assert false;
    }
  }

  /** The step is injective: equal orbit points one step on were equal before. */
  lemma {:induction false} OrbitShift(t1: nat, t2: nat, k: int, n: int)
    requires 0 <= k <= n && 0 < n && t1 <= t2
    requires Orbit(t1, k, n) == Orbit(t2, k, n)
    ensures Orbit(0, k, n) == Orbit(t2 - t1, k, n)
  {
    if t1 > 0 {
      assert Orbit(t1 - 1, k, n) == Orbit(t2 - 1, k, n);
      OrbitShift(t1 - 1, t2 - 1, k, n);
    }
  }

  /** The orbit of 0 comes back to 0 first after `n` steps. */
  ghost predicate Returns(k: int, n: int)
  {
    0 < k <= n && forall t :: 0 < t < n ==> Orbit(t, k, n) != 0
  }

  lemma CoprimeReturns(k: int, n: int)
    requires 0 < k <= n && Coprime(n, k)
    ensures Returns(k, n)
  {
    forall t | 0 < t < n
      ensures Orbit(t, k, n) != 0
    {
      OrbitReturns(t, k, n);
    }
  }

  /** With gcd(n, k) == 1 the orbit visits `n` different indices in steps 1..n. */
  lemma OrbitDistinct(t1: nat, t2: nat, k: int, n: int)
    requires 0 < k <= n && Returns(k, n) && 1 <= t1 < t2 <= n
    ensures Orbit(t1, k, n) != Orbit(t2, k, n)
  {
    if Orbit(t1, k, n) == Orbit(t2, k, n) {
      OrbitShift(t1, t2, k, n);
    }
  }

  /** The indices visited in steps 1..j. */
  ghost function Visited(j: nat, k: int, n: int): set<int>
    requires 0 <= k <= n && 0 < n
  {
    set t | 1 <= t <= j :: Orbit(t, k, n)
  }

  lemma {:induction false} VisitedCard(j: nat, k: int, n: int)
    requires 0 < k <= n && Returns(k, n) && j <= n
    ensures |Visited(j, k, n)| == j
  {
    if j > 0 {
      VisitedCard(j - 1, k, n);
      assert Visited(j, k, n) == Visited(j - 1, k, n) + {Orbit(j, k, n)};
      forall t | 1 <= t <= j - 1
        ensures Orbit(t, k, n) != Orbit(j, k, n)
      {
        OrbitDistinct(t, j, k, n);
      }
    }
  }

  /** The set of the indices below `n`. */
  ghost function Below(n: nat): (b: set<int>)
    ensures |b| == n && forall x :: x in b <==> 0 <= x < n
  {
    if n == 0 then {} else Below(n - 1) + {n - 1}
  }

  /** A subset with as many elements as the whole set is the whole set. */
  lemma FullSubset(a: set<int>, b: set<int>)
    requires a <= b && |a| == |b|
    ensures a == b
  {
    forall x | x in b
      ensures x in a
    {
      if x !in a {
        SubsetCard(a, b - {x});
      }
    }
  }

  lemma SubsetCard(a: set<int>, b: set<int>)
    requires a <= b
    ensures |a| <= |b|
  {
    assert b == a + (b - a);
  }

  /** With gcd(n, k) == 1 the loop stores to every index. */
  lemma VisitsAll(k: int, n: int, x: int)
    requires 0 < k <= n && Returns(k, n) && 0 <= x < n
    ensures exists t :: 1 <= t <= n && Orbit(t, k, n) == x
  {
    VisitedCard(n, k, n);
    FullSubset(Visited(n, k, n), Below(n));
    assert x in Visited(n, k, n);
  }

  /**
   * The buffer once the indices in `vis` have been stored to, when
   * gcd(n, k) == 1: those hold the element `k` places on, the rest are
   * untouched.
   */
  function Partly<T>(s: seq<T>, k: int, vis: set<int>): (r: seq<T>)
    requires 0 < k <= |s|
    ensures |r| == |s|
  {
    seq(|s|, x requires 0 <= x < |s| => if x in vis then s[Fwd(x, k, |s|)] else s[x])
  }

  /** One more iteration from the state after `j` iterations. */
  lemma PartlyStep<T>(s: seq<T>, k: int, j: nat)
    requires 0 < k <= |s| && Returns(k, |s|) && j < |s|
    ensures var n, y, z := |s|, Orbit(j, k, |s|), Orbit(j + 1, k, |s|);
      var a := Partly(s, k, Visited(j, k, n));
      a[z := s[y]] == Partly(s, k, Visited(j + 1, k, n)) && a[z] == s[z]
  {
    var n := |s|;
    var y, z := Orbit(j, k, n), Orbit(j + 1, k, n);
    var v, v' := Visited(j, k, n), Visited(j + 1, k, n);
    assert v' == v + {z};
    assert z !in v by {
      forall t | 1 <= t <= j
        ensures Orbit(t, k, n) != z
      {
        OrbitDistinct(t, j + 1, k, n);
      }
    }
    var a, b := Partly(s, k, v), Partly(s, k, v');
    forall x | 0 <= x < n
      ensures a[z := s[y]][x] == b[x]
    {
      if x == z {
        assert Fwd(z, k, n) == y;
      }
    }
  }

  /** The rest of the loop from the state after `j` iterations finishes the rotation. */
  lemma {:induction false} RunFrom<T>(s: seq<T>, k: int, j: nat)
    requires 0 < k <= |s| && Returns(k, |s|) && j <= |s|
    ensures var n := |s|;
      PermuteRun(Partly(s, k, Visited(j, k, n)), k, Orbit(j + 1, k, n), s[Orbit(j, k, n)], n - j) ==
      Partly(s, k, Visited(n, k, n))
    decreases |s| - j
  {
    var n := |s|;
    if j < n {
      PartlyStep(s, k, j);
      RunFrom(s, k, j + 1);
    }
  }

  /**
   * With gcd(size, k) == 1, cyclicallyPermute is the left rotation by `k`:
   * element `i` of the result is element `(i + k) % size` of the input.
   */
  lemma PermuteRotates<T>(s: seq<T>, k: int)
    requires 0 < k <= |s| && Coprime(|s|, k)
    ensures PermutedAsWritten(s, k) == Rotated(s, k)
  {
    var n := |s|;
    CoprimeReturns(k, n);
    assert Visited(0, k, n) == {};
    assert Partly(s, k, {}) == s;
    RunFrom(s, k, 0);
    var all := Visited(n, k, n);
    forall x | 0 <= x < n
      ensures Partly(s, k, all)[x] == Rotated(s, k)[x]
    {
      VisitsAll(k, n, x);
      assert x in all;
    }
  }

  /**
   * Without gcd(size, k) == 1 it is not: on four cells shifted by two the
   * loop circles the orbit {0, 2} twice and leaves [a, b, a, d] where the
   * rotation is [c, d, a, b].
   */
  lemma PermuteNotRotation<T>(a: T, b: T, c: T, d: T)
    ensures PermutedAsWritten([a, b, c, d], 2) == [a, b, a, d]
    ensures Rotated([a, b, c, d], 2) == [c, d, a, b]
  {
    var s0, s1, s2 := [a, b, c, d], [a, b, a, d], [c, b, a, d];
    assert s0[2 := a] == s1 && s1[0 := c] == s2 && s2[2 := a] == s2 && s2[0 := a] == s1;
    assert PermuteRun(s2, 2, 0, a, 1) == s1;
    assert PermuteRun(s2, 2, 2, a, 2) == s1;
    assert PermuteRun(s1, 2, 0, c, 3) == s1;
    assert PermuteRun(s0, 2, 2, a, 4) == s1;
  }

  /** The left rotation for every shift, as cyclicallyPermute is documented to do. */
  method RotateLeft<T>(a: array<T>, k: int)
    requires 0 <= k <= a.Length
    modifies a
    ensures a[..] == Rotated(old(a[..]), k)
  {
    var b := a[..];
    var n := a.Length;
    var i := 0;
    while i < n
      invariant 0 <= i <= n
      invariant forall x :: 0 <= x < i ==> a[x] == Rotated(b, k)[x]
      invariant forall x :: i <= x < n ==> a[x] == b[x]
    {
      a[i] := if i + k < n then b[i + k] else b[i + k - n];
      i := i + 1;
    }
  }

  // ---------------------------------------------------------------------
  // clamp
  // ---------------------------------------------------------------------

  /** clamp(value, minValue, maxValue): the lower bound is tested first. */
  function Clamp(v: int, lo: int, hi: int): (r: int)
    ensures v < lo ==> r == lo
    ensures lo <= v && hi < v ==> r == hi
    ensures lo <= v <= hi ==> r == v
  {
    if v < lo then lo else if v > hi then hi else v
  }

  /** With lo <= hi the result lies in [lo, hi], and clamping again changes nothing. */
  lemma ClampInRange(v: int, lo: int, hi: int)
    requires lo <= hi
    ensures lo <= Clamp(v, lo, hi) <= hi
    ensures Clamp(Clamp(v, lo, hi), lo, hi) == Clamp(v, lo, hi)
  {
  }

  // ---------------------------------------------------------------------
  // populateReverseMap
  // ---------------------------------------------------------------------

  /**
   * The guard populateReverseMap asserts before it indexes the output
   * with an input value: `x <= size`.
   */
  predicate ReverseGuardAsWritten(x: int, size: int)
  {
    x <= size
  }

  /** The guard the indexing needs: `x` is an index of the output. */
  predicate ReverseGuard(x: int, size: int)
  {
    0 <= x < size
  }

  /** The guard as written lets `size` itself through, one past the last output entry. */
  lemma ReverseGuardTooWeak(size: nat)
    ensures ReverseGuardAsWritten(size, size) && !ReverseGuard(size, size)
    ensures forall x :: ReverseGuard(x, size) ==> ReverseGuardAsWritten(x, size)
  {
  }

  /** Every non-default input value is an index of the output. */
  ghost predicate ReverseInputOk(input: seq<int>, defIn: int, size: int)
  {
    forall i :: 0 <= i < |input| && input[i] != defIn ==> ReverseGuard(input[i], size)
  }

  /** The output after the first `j` inputs have been visited. */
  function ReverseMapUpTo(input: seq<int>, defOut: int, defIn: int, size: nat, j: nat): (out: seq<int>)
    requires j <= |input| && ReverseInputOk(input, defIn, size)
    ensures |out| == size
  {
    if j == 0 then seq(size, _ => defOut)
    else
      var prev, x := ReverseMapUpTo(input, defOut, defIn, size, j - 1), input[j - 1];
      if x != defIn && prev[x] == defOut then prev[x := j - 1] else prev
  }

  /** The first position of `x` in `s`, or -1. */
  function FirstPosition(s: seq<int>, x: int): (i: int)
    ensures -1 <= i < |s|
    ensures i == -1 <==> x !in s
    ensures i != -1 ==> s[i] == x && forall k :: 0 <= k < i ==> s[k] != x
  {
    if |s| == 0 then -1
    else
      var i := FirstPosition(s[..|s| - 1], x);
      if i != -1 then i else if s[|s| - 1] == x then |s| - 1 else -1
  }

  /**
   * populateReverseMap(outputMap, inputMap, defaultOutputValue,
   * defaultInputValue, sizeOutputMap), with the output guard corrected to
   * `0 <= x < sizeOutputMap`.
   */
  method PopulateReverseMap(input: seq<int>, defOut: int, defIn: int, size: nat) returns (out: array<int>)
    requires ReverseInputOk(input, defIn, size)
    ensures fresh(out) && out[..] == ReverseMapUpTo(input, defOut, defIn, size, |input|)
  {
    out := new int[size](_ => defOut);
    assert out[..] == ReverseMapUpTo(input, defOut, defIn, size, 0);
    var count := 0;
    while count < |input|
      invariant 0 <= count <= |input|
      invariant out[..] == ReverseMapUpTo(input, defOut, defIn, size, count)
    {
      var x := input[count];
      if x != defIn {
        if out[x] == defOut {
          out[x] := count;
        }
      }
      count := count + 1;
    }
  }

  /**
   * The reverse map sends each non-default value to the first position
   * holding it, and every other entry keeps the default, as long as the
   * default output value is not itself a position of the input.
   */
  lemma {:induction false} ReverseMapFirst(input: seq<int>, defOut: int, defIn: int, size: nat, j: nat, x: int)
    requires j <= |input| && ReverseInputOk(input, defIn, size) && 0 <= x < size
    requires defOut < 0 || |input| <= defOut
    ensures ReverseMapUpTo(input, defOut, defIn, size, j)[x] ==
      if x != defIn && x in input[..j] then FirstPosition(input[..j], x) else defOut
  {
    if j > 0 {
      ReverseMapFirst(input, defOut, defIn, size, j - 1, x);
      assert input[..j - 1] == input[..j][..j - 1];
      assert input[..j] == input[..j - 1] + [input[j - 1]];
    }
  }

  /**
   * When the default output value is a position, a repeated value is
   * mapped to a later position: with default 0, [5, 5] maps 5 to 1, where
   * the intended map keeps its first position 0.
   */
  lemma ReverseMapDefaultClash()
    ensures ReverseMapUpTo([5, 5], 0, -1, 6, 2)[5] == 1
    ensures ReverseMapIntended([5, 5], 0, -1, 6, 2)[5] == 0
  {
    var s := [5, 5];
    assert ReverseInputOk(s, -1, 6);
    assert ReverseMapUpTo(s, 0, -1, 6, 1)[5] == 0;
  }

  /**
   * The reverse map as intended: a cell is written only by the first
   * occurrence of its value, whatever the default output value is.
   */
  function ReverseMapIntended(input: seq<int>, defOut: int, defIn: int, size: nat, j: nat): (out: seq<int>)
    requires j <= |input| && ReverseInputOk(input, defIn, size)
    ensures |out| == size
  {
    if j == 0 then seq(size, _ => defOut)
    else
      var prev, x := ReverseMapIntended(input, defOut, defIn, size, j - 1), input[j - 1];
      if x != defIn && x !in input[..j - 1] then prev[x := j - 1] else prev
  }

  /** The intended reverse map sends each non-default value to its first position, for every default. */
  lemma {:induction false} ReverseMapIntendedFirst(input: seq<int>, defOut: int, defIn: int, size: nat, j: nat, x: int)
    requires j <= |input| && ReverseInputOk(input, defIn, size) && 0 <= x < size
    ensures ReverseMapIntended(input, defOut, defIn, size, j)[x] ==
      if x != defIn && x in input[..j] then FirstPosition(input[..j], x) else defOut
  {
    if j > 0 {
      ReverseMapIntendedFirst(input, defOut, defIn, size, j - 1, x);
      assert input[..j - 1] == input[..j][..j - 1];
      assert input[..j] == input[..j - 1] + [input[j - 1]];
    }
  }

  /** When the default output value is not a position, the loop as written is the intended map. */
  lemma ReverseMapAgrees(input: seq<int>, defOut: int, defIn: int, size: nat, j: nat)
    requires j <= |input| && ReverseInputOk(input, defIn, size)
    requires defOut < 0 || |input| <= defOut
    ensures ReverseMapUpTo(input, defOut, defIn, size, j) == ReverseMapIntended(input, defOut, defIn, size, j)
  {
    var a, b := ReverseMapUpTo(input, defOut, defIn, size, j), ReverseMapIntended(input, defOut, defIn, size, j);
    forall x | 0 <= x < size
      ensures a[x] == b[x]
    {
      ReverseMapFirst(input, defOut, defIn, size, j, x);
      ReverseMapIntendedFirst(input, defOut, defIn, size, j, x);
    }
  }

  /**
   * populateReverseMap with both corrections: the guard `0 <= x < size`,
   * and a separate `written` flag per cell in place of the comparison
   * with the default output value.
   */
  method PopulateReverseMapFirst(input: seq<int>, defOut: int, defIn: int, size: nat) returns (out: array<int>)
    requires ReverseInputOk(input, defIn, size)
    ensures fresh(out) && out[..] == ReverseMapIntended(input, defOut, defIn, size, |input|)
  {
    out := new int[size](_ => defOut);
    var written := new bool[size](_ => false);
    assert out[..] == ReverseMapIntended(input, defOut, defIn, size, 0);
    var count := 0;
    while count < |input|
      invariant 0 <= count <= |input|
      invariant out[..] == ReverseMapIntended(input, defOut, defIn, size, count)
      invariant forall y :: 0 <= y < size ==> (written[y] <==> y != defIn && y in input[..count])
    {
      var x := input[count];
      assert input[..count + 1] == input[..count] + [x];
      if x != defIn && !written[x] {
        out[x] := count;
        written[x] := true;
      }
      count := count + 1;
    }
    assert input[..count] == input;
  }

  // ---------------------------------------------------------------------
  // computeHistogram
  // ---------------------------------------------------------------------

  /** computeHistogram(values): each value mapped to its number of occurrences. */
  method ComputeHistogram<T(==)>(values: seq<T>) returns (h: map<T, int>)
    ensures forall v :: v in h <==> v in values
    ensures forall v :: v in h ==> h[v] == multiset(values)[v]
  {
    h := map[];
    var i := 0;
    while i < |values|
      invariant 0 <= i <= |values|
      invariant forall v :: v in h <==> v in values[..i]
      invariant forall v :: v in h ==> h[v] == multiset(values[..i])[v]
    {
      var v := values[i];
      var c := if v in h then h[v] else 0;
      h := h[v := c + 1];
      assert values[..i + 1] == values[..i] + [v];
      i := i + 1;
    }
    assert values[..i] == values;
  }

  // ---------------------------------------------------------------------
  // transposeMatrix
  // ---------------------------------------------------------------------

  lemma MulMonotone(a: int, b: int, c: int)
    requires a <= b && 0 <= c
    ensures a * c <= b * c
  {
    MulSub(c, b, a);
    assert (b - a) * c >= 0;
  }

  lemma CellBelow(i: int, j: int, dim: int)
    requires 0 <= i < dim && 0 <= j < dim
    ensures 0 <= i * dim + j < (i + 1) * dim <= dim * dim
  {
    MulMonotone(i + 1, dim, dim);
  }

  /** The cell (i, j) of a row-major `dim` x `dim` matrix, an index of its buffer. */
  function Cell(i: int, j: int, dim: int): (c: int)
    requires 0 <= i < dim && 0 <= j < dim
    ensures 0 <= c < dim * dim
  {
    CellBelow(i, j, dim);
    i * dim + j
  }

  /** Different rows and columns give different cells. */
  lemma CellInjective(i: int, j: int, p: int, q: int, dim: int)
    requires 0 <= i < dim && 0 <= j < dim && 0 <= p < dim && 0 <= q < dim
    requires Cell(i, j, dim) == Cell(p, q, dim)
    ensures i == p && j == q
  {
    CellBelow(i, j, dim);
    CellBelow(p, q, dim);
    if i < p {
      MulMonotone(i + 1, p, dim);
    } else if p < i {
      MulMonotone(p + 1, i, dim);
    }
  }

  /** Every index of the buffer is the cell of some row and column. */
  lemma CellOf(x: int, dim: nat) returns (i: int, j: int)
    requires 0 <= x < dim * dim
    ensures 0 <= i < dim && 0 <= j < dim && x == Cell(i, j, dim)
  {
    i, j := x / dim, x % dim;
    if i >= dim {
      MulMonotone(dim, i, dim);
    }
  }

  /** The matrix transposed: cell (i, j) holds what cell (j, i) held. */
  ghost predicate IsTranspose<T>(r: seq<T>, s: seq<T>, dim: nat)
  {
    |r| == |s| == dim * dim &&
    forall i, j :: 0 <= i < dim && 0 <= j < dim ==> r[Cell(i, j, dim)] == s[Cell(j, i, dim)]
  }

  /** Cells (p, q) with p, q < i hold the transposed entries of `s`; all others their own. */
  ghost predicate TransposedBelow<T>(r: seq<T>, s: seq<T>, dim: nat, i: nat)
    requires |r| == |s| == dim * dim
  {
    forall p, q :: 0 <= p < dim && 0 <= q < dim ==>
      r[Cell(p, q, dim)] == if p < i && q < i then s[Cell(q, p, dim)] else s[Cell(p, q, dim)]
  }

  /** transposeMatrix(pMatrix, dim): swaps cell (i, j) with cell (j, i) for every j < i. */
  method TransposeMatrix<T>(a: array<T>, dim: nat)
    requires a.Length == dim * dim
    modifies a
    ensures IsTranspose(a[..], old(a[..]), dim)
  {
    ghost var s := a[..];
    var i := 1;
    if dim == 0 {
      return;
    }
    while i < dim
      invariant 1 <= i <= dim
      invariant TransposedBelow(a[..], s, dim, i)
    {
      TransposeRow(a, dim, i, s);
      i := i + 1;
    }
  }

  /**
   * Inside pass `i`: the first `i` rows and columns are transposed, and so
   * are the first `j` cells of row `i` and of column `i`.
   */
  ghost predicate TransposedTo<T>(r: seq<T>, s: seq<T>, dim: nat, i: nat, j: nat)
    requires |r| == |s| == dim * dim
  {
    forall p, q :: 0 <= p < dim && 0 <= q < dim ==>
      r[Cell(p, q, dim)] ==
        if (p < i && q < i) || (p == i && q < j) || (q == i && p < j) then s[Cell(q, p, dim)]
        else s[Cell(p, q, dim)]
  }

  /** Swapping cell (i, j) with cell (j, i) extends the transposed part by one. */
  lemma SwapStep<T>(r: seq<T>, s: seq<T>, dim: nat, i: nat, j: nat)
    requires |r| == |s| == dim * dim && j < i < dim
    requires TransposedTo(r, s, dim, i, j)
    ensures TransposedTo(r[Cell(i, j, dim) := r[Cell(j, i, dim)]][Cell(j, i, dim) := r[Cell(i, j, dim)]], s, dim, i, j + 1)
  {
    var x, y := Cell(i, j, dim), Cell(j, i, dim);
    var r' := r[x := r[y]][y := r[x]];
    forall p, q | 0 <= p < dim && 0 <= q < dim
      ensures r'[Cell(p, q, dim)] ==
        if (p < i && q < i) || (p == i && q < j + 1) || (q == i && p < j + 1) then s[Cell(q, p, dim)]
        else s[Cell(p, q, dim)]
    {
      var z := Cell(p, q, dim);
      if z == x {
        CellInjective(p, q, i, j, dim);
      } else if z == y {
        CellInjective(p, q, j, i, dim);
      }
    }
  }

  /** One pass of the outer loop of transposeMatrix: row `i` swapped with column `i`. */
  method TransposeRow<T>(a: array<T>, dim: nat, i: nat, ghost s: seq<T>)
    requires a.Length == |s| == dim * dim && i < dim
    requires TransposedBelow(a[..], s, dim, i)
    modifies a
    ensures TransposedBelow(a[..], s, dim, i + 1)
  {
    var j := 0;
    while j < i
      invariant 0 <= j <= i
      invariant TransposedTo(a[..], s, dim, i, j)
    {
      var x, y := Cell(i, j, dim), Cell(j, i, dim);
      SwapStep(a[..], s, dim, i, j);
      a[x], a[y] := a[y], a[x];
      j := j + 1;
    }
  }

  /** Transposing leaves the diagonal in place, and transposing twice restores the matrix. */
  lemma TransposeTwice<T>(r: seq<T>, m: seq<T>, s: seq<T>, dim: nat)
    requires IsTranspose(m, s, dim) && IsTranspose(r, m, dim)
    ensures forall i :: 0 <= i < dim ==> m[Cell(i, i, dim)] == s[Cell(i, i, dim)]
    ensures r == s
  {
    forall x | 0 <= x < |s|
      ensures r[x] == s[x]
    {
      var i, j := CellOf(x, dim);
      assert r[Cell(i, j, dim)] == m[Cell(j, i, dim)];
    }
  }

  // ---------------------------------------------------------------------
  // Colour channels
  // ---------------------------------------------------------------------

  /** An unsigned 32-bit colour value, 0xRRGGBBAA. */
  type Word = x: int | 0 <= x < 0x1_0000_0000

  /** Colors::R / Color::R: `(color >> 24) & 0xff`. */
  function R(color: Word): (r: int)
    ensures 0 <= r < 0x100
  {
    color / 0x100_0000 % 0x100
  }

  /** Colors::G / Color::G: `(color >> 16) & 0xff`. */
  function G(color: Word): (r: int)
    ensures 0 <= r < 0x100
  {
    color / 0x1_0000 % 0x100
  }

  /** Colors::B / Color::B: `(color >> 8) & 0xff`. */
  function B(color: Word): (r: int)
    ensures 0 <= r < 0x100
  {
    color / 0x100 % 0x100
  }

  /** Colors::A / Color::A: `color & 0xff`. */
  function A(color: Word): (r: int)
    ensures 0 <= r < 0x100
  {
    color % 0x100
  }

  /** The four channel bytes make up the colour again, most significant first. */
  lemma {:induction false} ChannelsRecompose(color: Word)
    ensures R(color) * 0x100_0000 + G(color) * 0x1_0000 + B(color) * 0x100 + A(color) == color
  {
    var q1 := color / 0x100;
    var q2 := q1 / 0x100;
    var q3 := q2 / 0x100;
    assert color == q1 * 0x100 + A(color);
    assert q1 == q2 * 0x100 + q1 % 0x100;
    assert q2 == q3 * 0x100 + q2 % 0x100;
    assert q1 == color / 0x100 && q2 == color / 0x1_0000 && q3 == color / 0x100_0000;
    assert q3 < 0x100;
  }

  /** The COLORS palette. */
  datatype Colors = NONE | WHITE | RED | GREEN | BLUE | YELLOW | CYAN | MAGENTA | GRAY | LIGHT_PINK | BLACK

  /** The 0xRRGGBBAA value behind each palette entry. */
  function ColorValue(c: Colors): Word
  {
    match c
    case NONE => 0
    case WHITE => 0xffffffff
    case RED => 0xff0000ff
    case GREEN => 0x00ff00ff
    case BLUE => 0x0000ffff
    case YELLOW => 0xffff00ff
    case CYAN => 0x00ffffff
    case MAGENTA => 0xff00ffff
    case GRAY => 0x808080ff
    case LIGHT_PINK => 0xff99ffff
    case BLACK => 0x000000ff
  }

  /**
   * Different palette entries have different values, and every entry but
   * NONE is opaque (alpha 0xff).
   */
  lemma PaletteDistinct(a: Colors, b: Colors)
    ensures ColorValue(a) == ColorValue(b) ==> a == b
    ensures a != NONE ==> A(ColorValue(a)) == 0xff
  {
  }
}
