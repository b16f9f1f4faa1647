/**
  `EventEnvelope`, one slot of the ring: the sequence number last published
  into it and a type-erased payload. The payload's static type is erased to a
  tag (Rust's `TypeId`), and a typed read succeeds only when the tags agree.
*/
module Events {
  import opened Wrappers

  /** The identity of a payload's static type (Rust's `TypeId`). */
  datatype TypeTag = TypeTag(id: nat)

  /** A payload. The model never looks inside one; two shapes are enough to
      write the scenarios below. */
  datatype Value = Number(n: int) | Text(s: string)

  /** A type-erased event: the tag of the type it was written with, and the
      boxed data. */
  datatype Event = Event(tag: TypeTag, data: Value)

  /** What an envelope holds at one moment. */
  datatype Slot = Slot(sequence: nat, event: Option<Event>)

  /** A freshly built envelope: sequence 0 and no payload. */
  const EmptySlot := Slot(0, None)

  /** `read<T>` on an envelope's state: the payload when one is present and
      its tag is `tag`, nothing otherwise (a mismatch is not an error). */
  function ReadSlot(slot: Slot, tag: TypeTag): (r: Option<Value>)
  {
    if slot.event.Some? && slot.event.value.tag == tag then Some(slot.event.value.data) else None
  }

  /** A slot answers a typed read for at most one type: two types that both
      read a value from the same slot are the same type, and read the same
      value. */
  lemma ReadSlotAtMostOneType(slot: Slot, t1: TypeTag, t2: TypeTag)
    requires ReadSlot(slot, t1).Some? && ReadSlot(slot, t2).Some?
    ensures t1 == t2
    ensures ReadSlot(slot, t1).value == ReadSlot(slot, t2).value
  {
  }

  class EventEnvelope {
    var sequence: nat
    var event: Option<Event>

    ghost function State(): Slot
      reads this
    {
      Slot(sequence, event)
    }

    constructor ()
      ensures State() == EmptySlot
      ensures forall tag :: ReadSlot(State(), tag) == None
    {
      sequence := 0;
      event := None;
    }

    method Sequence() returns (s: nat)
      ensures s == sequence
    {
      s := sequence;
    }

    /** `read<T>`: the current payload if its tag is `tag`, otherwise nothing.
        The value returned is a copy, so later overwrites cannot change it. */
    method Read(tag: TypeTag) returns (r: Option<Value>)
      ensures r.Some? <==> event.Some? && event.value.tag == tag
      ensures r.Some? ==> r.value == event.value.data
      ensures r == ReadSlot(State(), tag)
    {
      var current := event;
      if current.Some? && current.value.tag == tag {
        r := Some(current.value.data);
      } else {
        r := None;
      }
    }

    /** The compare-and-set on the payload reference. */
    method CompareAndSetEvent(expected: Option<Event>, replacement: Event) returns (swapped: bool)
      modifies this`event
      ensures swapped <==> old(event) == expected
      ensures event == if swapped then Some(replacement) else old(event)
    {
      swapped := event == expected;
      if swapped {
        event := Some(replacement);
      }
    }

    /** `overwrite(sequence, data)`: swaps in the new tagged payload (retrying
        the compare-and-set with the same new event until it wins, which
        sequentially is at once), then publishes the new sequence number. */
    method Overwrite(newSequence: nat, tag: TypeTag, data: Value)
      modifies this
      ensures State() == Slot(newSequence, Some(Event(tag, data)))
      ensures ReadSlot(State(), tag) == Some(data)
      ensures forall other :: other != tag ==> ReadSlot(State(), other) == None
    {
      var replacement := Event(tag, data);
      var done := false;
      while !done
        invariant !done ==> State() == old(State())
        invariant done ==> State() == Slot(newSequence, Some(replacement))
        decreases if done then 0 else 1
      {
        var current := event;
        var swapped := CompareAndSetEvent(current, replacement);
        if swapped {
          sequence := newSequence;
          done := true;
        }
      }
    }
  }

  /** A new envelope has sequence 0 and yields nothing for a read of any type. */
  method NewEnvelopeIsEmpty(tag: TypeTag) returns (s: nat, r: Option<Value>)
    ensures s == 0 && r == None
  {
    var e := new EventEnvelope();
    s := e.Sequence();
    r := e.Read(tag);
  }

  /** Overwrite, read, overwrite again, read again: each read returns the
      latest payload, a read of another type returns nothing, and the value
      obtained by the first read is still the first payload afterwards. */
  method OverwriteThenRead(text: TypeTag, other: TypeTag) returns (first: Option<Value>, second: Option<Value>, mismatched: Option<Value>, s: nat)
    requires text != other
    ensures first == Some(Text("Hello world!"))
    ensures second == Some(Text("Bye Felicia!"))
    ensures mismatched == None
    ensures s == 1
  {
    var e := new EventEnvelope();
    e.Overwrite(1, text, Text("Hello world!"));
    first := e.Read(text);
    e.Overwrite(1, text, Text("Bye Felicia!"));
    second := e.Read(text);
    mismatched := e.Read(other);
    s := e.Sequence();
  }
}
