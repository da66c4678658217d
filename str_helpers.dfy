/**
 * split and replace (utils/src/strHelpers.cpp, with identical copies in
 * utils/src/helpers.cpp and utils/helpers.cpp).
 */
module StrHelpers {
  import Helpers

  /**
   * The pieces std::getline(ss, item, delim) yields one by one: the text
   * between delimiters, where an empty text after the last delimiter
   * (and an empty string) yields no piece.
   */
  function Pieces(s: string, d: char): (r: seq<string>)
    decreases |s|
  {
    if |s| == 0 then []
    else
      var i := Helpers.IndexOf(s, d);
      if i == |s| then [s] else [s[..i]] + Pieces(s[i + 1..], d)
  }

  /** The pieces joined again with the delimiter. */
  function Join(pieces: seq<string>, d: char): string
  {
    if |pieces| == 0 then []
    else if |pieces| == 1 then pieces[0]
    else pieces[0] + [d] + Join(pieces[1..], d)
  }

  /** No piece holds the delimiter. */
  lemma {:induction false} PiecesFree(s: string, d: char)
    ensures forall k :: 0 <= k < |Pieces(s, d)| ==> d !in Pieces(s, d)[k]
    decreases |s|
  {
    if |s| > 0 {
      var i := Helpers.IndexOf(s, d);
      if i < |s| {
        PiecesFree(s[i + 1..], d);
        assert d !in s[..i];
      }
    }
  }

  /**
   * Joining the pieces with the delimiter gives the string back, except
   * for a trailing delimiter, which yields no piece of its own.
   */
  lemma {:induction false} PiecesJoin(s: string, d: char)
    ensures |s| > 0 && s[|s| - 1] == d ==> Join(Pieces(s, d), d) + [d] == s
    ensures |s| == 0 || s[|s| - 1] != d ==> Join(Pieces(s, d), d) == s
    decreases |s|
  {
    if |s| > 0 {
      var i := Helpers.IndexOf(s, d);
      if i < |s| {
        var head, rest := s[..i], s[i + 1..];
        assert s == head + [d] + rest;
        var pr := Pieces(rest, d);
        assert Pieces(s, d) == [head] + pr;
        PiecesJoin(rest, d);
        if |rest| == 0 {
          assert pr == [];
        } else {
          assert |pr| > 0;
          JoinCons(head, pr, d);
          assert s[|s| - 1] == rest[|rest| - 1];
        }
      }
    }
  }

  lemma JoinCons(a: string, ps: seq<string>, d: char)
    requires |ps| > 0
    ensures Join([a] + ps, d) == a + [d] + Join(ps, d)
  {
    assert ([a] + ps)[1..] == ps;
  }

  /** Pieces of a string that starts with a delimiter-free `item` and a delimiter. */
  lemma PiecesAfterItem(item: string, d: char, rest: string)
    requires d !in item
    ensures Pieces(item + [d] + rest, d) == [item] + Pieces(rest, d)
  {
    var s := item + [d] + rest;
    FirstAfterItem(item, d, rest);
    assert s[..|item|] == item && s[|item| + 1..] == rest;
  }

  lemma {:induction false} FirstAfterItem(item: string, d: char, rest: string)
    requires d !in item
    ensures Helpers.IndexOf(item + [d] + rest, d) == |item|
    decreases |item|
  {
    if |item| > 0 {
      FirstAfterItem(item[1..], d, rest);
      assert (item + [d] + rest)[1..] == item[1..] + [d] + rest;
    }
  }

  /** One character of the getline loop: a delimiter ends the current item, any other character extends it. */
  lemma SplitStep(item: string, s: string, i: nat, d: char)
    requires d !in item && i < |s|
    ensures s[i] == d ==> Pieces(item + s[i..], d) == [item] + Pieces([] + s[i + 1..], d)
    ensures s[i] != d ==> Pieces(item + s[i..], d) == Pieces((item + [s[i]]) + s[i + 1..], d)
  {
    if s[i] == d {
      assert item + s[i..] == item + [d] + s[i + 1..];
      assert [] + s[i + 1..] == s[i + 1..];
      PiecesAfterItem(item, d, s[i + 1..]);
    } else {
      assert item + s[i..] == (item + [s[i]]) + s[i + 1..];
    }
  }

  /**
   * split(s, delim, elems): the pieces of `s` are appended to `elems`,
   * whose earlier entries are kept, and the vector is returned.
   */
  method Split(s: string, delim: char, elems: seq<string>) returns (r: seq<string>)
    ensures r == elems + Pieces(s, delim)
  {
    r := elems;
    var item: string := [];
    var i := 0;
    assert item + s[i..] == s;
    while i < |s|
      invariant 0 <= i <= |s|
      invariant delim !in item
      invariant elems + Pieces(s, delim) == r + Pieces(item + s[i..], delim)
    {
      SplitStep(item, s, i, delim);
      if s[i] == delim {
        r := r + [item];
        item := [];
      } else {
        item := item + [s[i]];
      }
      i := i + 1;
    }
    assert item + s[i..] == item;
    if item != [] {
      assert Helpers.IndexOf(item, delim) == |item|;
      r := r + [item];
    }
  }

  /** An occurrence of `from` at position `i` of `s`. */
  predicate OccursAt(s: string, from: string, i: nat)
  {
    i + |from| <= |s| && s[i..i + |from|] == from
  }

  /** `p` is the first occurrence of `from` in `s`. */
  predicate FirstOccurrence(s: string, from: string, p: nat)
  {
    OccursAt(s, from, p) && forall k: nat :: k < p ==> !OccursAt(s, from, k)
  }

  /** std::string::find: the first position of `from` in `s` at or after `i`, or -1 (npos). */
  function Find(s: string, from: string, i: nat): (p: int)
    ensures p == -1 || (i <= p && OccursAt(s, from, p))
    ensures p == -1 ==> forall k :: i <= k && OccursAt(s, from, k) ==> false
    ensures p != -1 ==> forall k :: i <= k < p ==> !OccursAt(s, from, k)
    decreases |s| - i
  {
    if i + |from| > |s| then -1
    else if s[i..i + |from|] == from then i
    else Find(s, from, i + 1)
  }

  /**
   * replace(str, from, to): false and `str` unchanged when `from` does not
   * occur; otherwise its first occurrence is replaced by `to` and true
   * returned.
   */
  method Replace(str: string, from: string, to: string) returns (found: bool, s: string)
    ensures found <==> exists k :: OccursAt(str, from, k)
    ensures !found ==> s == str
    ensures found ==> |s| == |str| - |from| + |to|
    ensures found ==>
      exists p: nat ::
        FirstOccurrence(str, from, p) && p + |to| <= |s| &&
        s[..p] == str[..p] && s[p..p + |to|] == to && s[p + |to|..] == str[p + |from|..]
  {
    var startPos := Find(str, from, 0);
    if startPos == -1 {
      return false, str;
    }
    s := str[..startPos] + to + str[startPos + |from|..];
    found := true;
    assert s[..startPos] == str[..startPos];
    assert s[startPos..startPos + |to|] == to;
    assert s[startPos + |to|..] == str[startPos + |from|..];
  }
}
