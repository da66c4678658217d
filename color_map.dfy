/** The triangle-marker colour map of geomUtils/inc/mesh.h (class ColorMap). */
module ColorMaps {
  import opened Helpers

  /** c_numTriangleMarkers: the number of colours a map starts with. */
  const NUM_TRIANGLE_MARKERS: nat := 10

  /**
   * getIndexForColor as written: a colour not yet in the map is added by
   * addColor, which answers the map's new size.
   */
  function IndexForColorAsWritten(colors: seq<Colors>, c: Colors): (r: (seq<Colors>, nat))
  {
    var i := IndexOf(colors, c);
    if i < |colors| then (colors, i) else (colors + [c], |colors| + 1)
  }

  /** For a new colour the answer as written is one past the last entry: not an index of the map. */
  lemma NewColorIndexOutOfRange(colors: seq<Colors>, c: Colors)
    requires c !in colors
    ensures IndexForColorAsWritten(colors, c).1 == |IndexForColorAsWritten(colors, c).0|
  {
  }

  /**
   * getIndexForColor with addColor answering the index of the colour it
   * appended: the answer always indexes the colour asked for, and the map
   * only grows when the colour was missing.
   */
  function IndexForColor(colors: seq<Colors>, c: Colors): (r: (seq<Colors>, nat))
    ensures r.1 < |r.0| && r.0[r.1] == c
    ensures c in colors ==> r.0 == colors && forall k :: 0 <= k < r.1 ==> colors[k] != c
    ensures c !in colors ==> r.0 == colors + [c] && r.1 == |colors|
  {
    var i := IndexOf(colors, c);
    if i < |colors| then (colors, i) else (colors + [c], |colors|)
  }

  /** Asking again for the same colour gives the same index and leaves the map as it is. */
  lemma IndexForColorStable(colors: seq<Colors>, c: Colors)
    ensures var (m, i) := IndexForColor(colors, c); IndexForColor(m, c) == (m, i)
  {
    var (m, i) := IndexForColor(colors, c);
    assert c in m;
    var j := IndexForColor(m, c).1;
    assert m[i] == c && m[j] == c;
  }

  class ColorMap {
    var colors: seq<Colors>

    /** ColorMap(pColorMap): takes over a list of exactly c_numTriangleMarkers colours. */
    constructor (init: seq<Colors>)
      requires |init| == NUM_TRIANGLE_MARKERS
      ensures colors == init
    {
      colors := init;
    }

    /** operator[](index). */
    function At(index: nat): (c: Colors)
      reads this
      requires index < |colors|
      ensures c in colors
    {
      colors[index]
    }

    /** addColor(color), corrected to answer the index of the appended colour. */
    method AddColor(color: Colors) returns (index: nat)
      modifies this
      ensures colors == old(colors) + [color]
      ensures index == |colors| - 1 && At(index) == color
    {
      colors := colors + [color];
      index := |colors| - 1;
    }

    /** getIndexForColor(color). */
    method GetIndexForColor(color: Colors) returns (index: nat)
      modifies this
      ensures (colors, index) == IndexForColor(old(colors), color)
      ensures index < |colors| && At(index) == color
    {
      var i := 0;
      while i < |colors| && colors[i] != color
        invariant 0 <= i <= |colors|
        invariant forall k :: 0 <= k < i ==> colors[k] != color
      {
        i := i + 1;
      }
      if i == |colors| {
        index := AddColor(color);
      } else {
        index := i;
      }
    }
  }
}
