/**
 * The bounded-key sets: MaxElementHoldingSet (utils/inc/helpers.h) and
 * BoundedCardinalitySet (utils/inc/boundedCardinalitySet.h). Both keep
 * the inserted elements in insertion order, plus one "already contained"
 * flag per key below the current maximum key.
 */
module BoundedSets {

  /**
   * A set of elements of type T, each inserted under a key below `maxElement`.
   * `keys` is the ghost record of the keys inserted, in order.
   */
  class BoundedSet<T> {
    var flags: seq<bool>
    var container: seq<T>
    var maxElement: nat
    ghost var keys: seq<nat>

    /** The flags cover the keys below the maximum, and a flag is set exactly for an inserted key. */
    ghost predicate Valid()
      reads this
    {
      |flags| == maxElement &&
      |keys| == |container| &&
      (forall i, j :: 0 <= i < j < |keys| ==> keys[i] != keys[j]) &&
      (forall i :: 0 <= i < |keys| ==> keys[i] < maxElement) &&
      (forall k :: 0 <= k < |flags| ==> (flags[k] <==> k in keys))
    }

    /** The constructor: an empty set with `maxSize` cleared flags. */
    constructor (maxSize: nat)
      ensures Valid()
      ensures maxElement == maxSize && container == [] && keys == []
    {
      maxElement := maxSize;
      flags := seq(maxSize, _ => false);
      container := [];
      keys := [];
    }

    /** maxValue(). */
    function MaxValue(): (m: nat)
      reads this
      requires Valid()
      ensures m == |flags|
    {
      maxElement
    }

    /** Whether an element has been inserted under `key`. */
    predicate Contains(key: nat)
      reads this
      requires Valid() && key < maxElement
    {
      flags[key]
    }

    /**
     * insert(element, key): the element is appended and true returned
     * exactly when no element was inserted under `key` before.
     */
    method Insert(element: T, key: nat) returns (added: bool)
      requires Valid() && key < maxElement
      modifies this
      ensures Valid()
      ensures added <==> key !in old(keys)
      ensures added ==> container == old(container) + [element] && keys == old(keys) + [key]
      ensures !added ==> container == old(container) && keys == old(keys) && flags == old(flags)
      ensures flags == old(flags)[key := true] && maxElement == old(maxElement)
      ensures Contains(key)
    {
      if !flags[key] {
        container := container + [element];
        flags := flags[key := true];
        keys := keys + [key];
        added := true;
      } else {
        added := false;
      }
    }

    /** increaseSize(sizeIncrement): more keys become usable; membership is kept. */
    method IncreaseSize(sizeIncrement: nat)
      requires Valid()
      modifies this
      ensures Valid()
      ensures maxElement == old(maxElement) + sizeIncrement
      ensures flags == old(flags) + seq(sizeIncrement, _ => false)
      ensures container == old(container) && keys == old(keys)
    {
      maxElement := maxElement + sizeIncrement;
      flags := flags + seq(sizeIncrement, _ => false);
    }

    /** clear(): no element and no flag is left; the maximum key stays. */
    method Clear()
      requires Valid()
      modifies this
      ensures Valid()
      ensures maxElement == old(maxElement) && container == [] && keys == []
      ensures forall k :: 0 <= k < maxElement ==> !Contains(k)
    {
      flags := seq(maxElement, _ => false);
      container := [];
      keys := [];
    }

    /** reset(newSize): a new maximum key, then clear(). */
    method Reset(newSize: nat)
      requires Valid()
      modifies this
      ensures Valid()
      ensures maxElement == newSize && container == [] && keys == []
      ensures forall k :: 0 <= k < maxElement ==> !Contains(k)
    {
      maxElement := newSize;
      keys := [];
      flags := seq(maxElement, _ => false);
      container := [];
    }
  }

  /**
   * After any sequence of insertions into an empty set, the container
   * holds one element per distinct key inserted: its length is the number
   * of keys whose flag is set.
   */
  lemma {:induction false} ContainerCountsKeys(flags: seq<bool>, keys: seq<nat>)
    requires forall i, j :: 0 <= i < j < |keys| ==> keys[i] != keys[j]
    requires forall i :: 0 <= i < |keys| ==> keys[i] < |flags|
    requires forall k :: 0 <= k < |flags| ==> (flags[k] <==> k in keys)
    ensures |keys| == |set k | 0 <= k < |flags| && flags[k]|
  {
    var flagged := set k | 0 <= k < |flags| && flags[k];
    var keySet := set i | 0 <= i < |keys| :: keys[i];
    assert flagged == keySet;
    DistinctCard(keys);
  }

  /** A sequence without repetitions has as many elements as its set of values. */
  lemma {:induction false} DistinctCard(keys: seq<nat>)
    requires forall i, j :: 0 <= i < j < |keys| ==> keys[i] != keys[j]
    ensures |set i | 0 <= i < |keys| :: keys[i]| == |keys|
  {
    if keys != [] {
      var init := keys[..|keys| - 1];
      DistinctCard(init);
      var s := set i | 0 <= i < |init| :: init[i];
      assert (set i | 0 <= i < |keys| :: keys[i]) == s + {keys[|keys| - 1]};
      assert keys[|keys| - 1] !in s;
    }
  }
}
