/**
  The `Sequence` cell of the disruptor: one counter that every cursor in the
  system (the write cursor, the cached gating bound, each subscriber's read
  position) is made of, and the folds that find the slowest and the fastest of
  a list of such cells.
*/
module Sequences {

  /** A single sequence counter. The source stores a `u64` in an atomic; the
      model is sequential, so the cell is a plain mutable field. */
  class Sequence {
    var value: nat

    constructor WithValue(initialValue: nat)
      ensures value == initialValue
    {
      value := initialValue;
    }

    method Get() returns (current: nat)
      ensures current == value
    {
      current := value;
    }

    /** Stores `newValue` and hands back the value it replaced. */
    method Set(newValue: nat) returns (previous: nat)
      modifies this
      ensures value == newValue
      ensures previous == old(value)
    {
      previous := value;
      value := newValue;
    }

    /** Replaces the value by `newValue` exactly when it equals `expected`. */
    method CompareAndSwap(expected: nat, newValue: nat) returns (swapped: bool)
      modifies this
      ensures swapped <==> old(value) == expected
      ensures value == if swapped then newValue else old(value)
    {
      var previous := value;
      if previous == expected {
        value := newValue;
      }
      swapped := previous == expected;
    }

    /** Advances the counter by one; used by the subscriber's receive loop. */
    method Increment()
      modifies this
      ensures value == old(value) + 1
    {
      value := value + 1;
    }
  }

  /** The values held by a list of cells, in order. */
  ghost function Values(sequences: seq<Sequence>): (vs: seq<nat>)
    reads sequences
    ensures |vs| == |sequences|
    ensures forall i :: 0 <= i < |sequences| ==> vs[i] == sequences[i].value
  {
    seq(|sequences|, i reads sequences requires 0 <= i < |sequences| => sequences[i].value)
  }

  function Min(a: nat, b: nat): (m: nat) { if a <= b then a else b }

  function Max(a: nat, b: nat): (m: nat) { if a <= b then b else a }

  /** The left-to-right `min` fold over `values` that starts at `fallback`. */
  function MinOver(values: seq<nat>, fallback: nat): (m: nat)
  {
    if values == [] then fallback
    else Min(MinOver(values[..|values| - 1], fallback), values[|values| - 1])
  }

  /** The left-to-right `max` fold over `values` that starts at `fallback`. */
  function MaxOver(values: seq<nat>, fallback: nat): (m: nat)
  {
    if values == [] then fallback
    else Max(MaxOver(values[..|values| - 1], fallback), values[|values| - 1])
  }

  /** The minimum fold is a lower bound of the fallback and of every element,
      and it is one of them. */
  lemma {:induction false} MinOverIsLeast(values: seq<nat>, fallback: nat)
    ensures MinOver(values, fallback) <= fallback
    ensures forall i :: 0 <= i < |values| ==> MinOver(values, fallback) <= values[i]
    ensures MinOver(values, fallback) == fallback || MinOver(values, fallback) in values
  {
    if values != [] {
      var init := values[..|values| - 1];
      MinOverIsLeast(init, fallback);
      assert forall i :: 0 <= i < |init| ==> init[i] == values[i];
    }
  }

  /** The maximum fold is an upper bound of the fallback and of every element,
      and it is one of them. */
  lemma {:induction false} MaxOverIsGreatest(values: seq<nat>, fallback: nat)
    ensures fallback <= MaxOver(values, fallback)
    ensures forall i :: 0 <= i < |values| ==> values[i] <= MaxOver(values, fallback)
    ensures MaxOver(values, fallback) == fallback || MaxOver(values, fallback) in values
  {
    if values != [] {
      var init := values[..|values| - 1];
      MaxOverIsGreatest(init, fallback);
      assert forall i :: 0 <= i < |init| ==> init[i] == values[i];
    }
  }

  /** A value below the fallback and below every element is below the fold:
      the fold is the greatest lower bound. */
  lemma {:induction false} MinOverIsGreatestLowerBound(values: seq<nat>, fallback: nat, bound: int)
    requires bound <= fallback
    requires forall i :: 0 <= i < |values| ==> bound <= values[i]
    ensures bound <= MinOver(values, fallback)
  {
    if values != [] {
      MinOverIsGreatestLowerBound(values[..|values| - 1], fallback, bound);
    }
  }

  /** `Sequence::get_minimum_sequence`: reads every cell once, in order, and
      folds its value into the running minimum. */
  method GetMinimumSequence(sequences: seq<Sequence>, minimum: nat) returns (result: nat)
    ensures result == MinOver(Values(sequences), minimum)
    ensures result <= minimum
    ensures forall i :: 0 <= i < |sequences| ==> result <= sequences[i].value
    ensures result == minimum || exists i :: 0 <= i < |sequences| && result == sequences[i].value
    ensures sequences == [] ==> result == minimum
  {
    result := minimum;
    for k := 0 to |sequences|
      invariant result == MinOver(Values(sequences)[..k], minimum)
    {
      assert Values(sequences)[..k + 1][..k] == Values(sequences)[..k];
      var value := sequences[k].Get();
      result := Min(result, value);
    }
    assert Values(sequences)[..|sequences|] == Values(sequences);
    MinOverIsLeast(Values(sequences), minimum);
  }

  /** `Sequence::get_maximum_sequence`: the same scan folding with `max`. */
  method GetMaximumSequence(sequences: seq<Sequence>, maximum: nat) returns (result: nat)
    ensures result == MaxOver(Values(sequences), maximum)
    ensures maximum <= result
    ensures forall i :: 0 <= i < |sequences| ==> sequences[i].value <= result
    ensures result == maximum || exists i :: 0 <= i < |sequences| && result == sequences[i].value
    ensures sequences == [] ==> result == maximum
  {
    result := maximum;
    for k := 0 to |sequences|
      invariant result == MaxOver(Values(sequences)[..k], maximum)
    {
      assert Values(sequences)[..k + 1][..k] == Values(sequences)[..k];
      var value := sequences[k].Get();
      result := Max(result, value);
    }
    assert Values(sequences)[..|sequences|] == Values(sequences);
    MaxOverIsGreatest(Values(sequences), maximum);
  }

  /** A cell made by `with_value(v)` reads back `v`. */
  method WithValueThenGet(v: nat) returns (read: nat)
    ensures read == v
  {
    var s := new Sequence.WithValue(v);
    read := s.Get();
  }
}
