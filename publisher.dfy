/**
  `AsyncPublisher`: a sink that holds at most one pending event. Accepting an
  item claims its slot at once; flushing writes the pending item into the
  claimed envelope. The `Poll` results of the sink carry no error in the
  source (`Ready(Ok(()))` or `Pending`), so they are modelled as two values.
*/
module Publishers {
  import opened Wrappers
  import opened Events
  import opened Sequencing
  import opened Ring

  datatype Poll = Ready | Pending

  class AsyncPublisher {
    const ring: RingBuffer
    const tag: TypeTag
    var sequence: Option<nat>
    var event: Option<Value>

    ghost predicate Valid()
      reads this, ring, ring.sequencer
    {
      ring.Valid()
    }

    /** A claimed sequence and a pending item come and go together. */
    ghost predicate Paired()
      reads this
    {
      sequence.Some? <==> event.Some?
    }

    constructor (ring: RingBuffer, tag: TypeTag)
      requires ring.Valid()
      ensures this.ring == ring && this.tag == tag
      ensures sequence == None && event == None
      ensures Valid() && Paired()
    {
      this.ring := ring;
      this.tag := tag;
      sequence := None;
      event := None;
    }

    /** Takes the claimed sequence (always clearing it) and, when an item is
        pending, takes it too and overwrites the envelope of that sequence with
        it. No other envelope changes. */
    method Publish()
      requires Valid()
      modifies this, ring.slots
      ensures sequence == None
      ensures event == if old(sequence).Some? then None else old(event)
      ensures ring.Snapshot() ==
        if old(sequence).Some? && old(event).Some? then
          old(ring.Snapshot())[old(sequence).value % ring.bufferSize :=
            Slot(old(sequence).value, Some(Event(tag, old(event).value)))]
        else old(ring.Snapshot())
      ensures old(Paired()) ==> Paired()
    {
      var claimed := sequence;
      sequence := None;
      if claimed.Some? {
        var s := claimed.value;
        var envelope := ring.GetEnvelope(s);
        var pending := event;
        if pending.Some? {
          event := None;
          envelope.Overwrite(s, tag, pending.value);
        }
      }
    }

    /** Not ready while an item is pending. */
    method PollReady() returns (p: Poll)
      ensures p == Pending <==> event.Some?
    {
      p := if event.Some? then Pending else Ready;
    }

    /** Claims one slot through the ring and records it with the item; the
        envelopes are not touched until the flush. */
    method StartSend(item: Value)
      requires Valid()
      requires ClaimEnds(ring.sequencer.State(), 1, ring.bufferSize, ring.sequencer.GatingValues())
      modifies this, ring.sequencer.cursor, ring.sequencer.gatingCache
      ensures sequence == Some(old(ring.sequencer.cursor.value) + 1) && event == Some(item)
      ensures ring.sequencer.cursor.value == sequence.value
      ensures NextFromSpec(old(ring.sequencer.State()), 1, ring.bufferSize, ring.sequencer.GatingValues())
           == (Granted(sequence.value), ring.sequencer.State())
      ensures ring.Snapshot() == old(ring.Snapshot())
      ensures old(ring.sequencer.Backpressure()) ==> ring.sequencer.Backpressure()
      ensures Paired()
    {
      var claimed := ring.Next();
      sequence := Some(claimed);
      event := Some(item);
    }

    /** Publishes the pending item, if any, and is always ready. */
    method PollFlush() returns (p: Poll)
      requires Valid()
      modifies this, ring.slots
      ensures p == Ready
      ensures sequence == None
      ensures event == if old(sequence).Some? then None else old(event)
      ensures ring.Snapshot() ==
        if old(sequence).Some? && old(event).Some? then
          old(ring.Snapshot())[old(sequence).value % ring.bufferSize :=
            Slot(old(sequence).value, Some(Event(tag, old(event).value)))]
        else old(ring.Snapshot())
      ensures old(Paired()) ==> Paired()
    {
      Publish();
      p := Ready;
    }

    /** Closing drops the handle: nothing is claimed or written. */
    method PollClose() returns (p: Poll)
      ensures p == Ready
    {
      p := Ready;
    }
  }
}
