/**
  `Subscriber`: a typed consumer with a private read cursor (the sequence it
  expects next). Each pass of its receive loop compares the cursor with the
  sequence of the envelope the cursor maps to and reads, waits or skips.

  The loop is first stated on a snapshot of the ring (`ReceiveStep`, one pass;
  `Receive`, the passes until an event is returned or the subscriber would
  park), with its properties proved there; `Subscriber.Recv` runs it on the
  live envelopes and is proved to follow it.
*/
module Subscribers {
  import opened Wrappers
  import opened Sequences
  import opened Events
  import opened Ring
  import Sequencing

  /** What one pass of the receive loop does. */
  datatype Received =
    | Delivered(value: Value)   // sequence matched and the tag matched: return the event
    | Irrelevant                // sequence matched but the slot holds no event of this type
    | Wait                      // the slot is behind the cursor: park until a writer wakes us
    | Lapped                    // the slot is ahead of the cursor: the expected event was overwritten

  /** One pass: equal sequences advance the cursor and read; a cursor ahead of
      the slot waits in place; a cursor behind the slot skips one. */
  function ReceiveStep(cursor: nat, slot: Slot, tag: TypeTag): (r: (Received, nat))
  {
    if cursor == slot.sequence then
      var read := ReadSlot(slot, tag);
      (if read.Some? then Delivered(read.value) else Irrelevant, cursor + 1)
    else if cursor > slot.sequence then (Wait, cursor)
    else (Lapped, cursor + 1)
  }

  /** The sequence numbers held by a ring snapshot. */
  function SlotSequences(slots: seq<Slot>): (s: seq<nat>)
    ensures |s| == |slots|
    ensures forall i :: 0 <= i < |slots| ==> s[i] == slots[i].sequence
  {
    seq(|slots|, i requires 0 <= i < |slots| => slots[i].sequence)
  }

  /** One past the largest sequence in the snapshot: a cursor there waits. */
  function Horizon(slots: seq<Slot>): (h: nat)
  {
    MaxOver(SlotSequences(slots), 0) + 1
  }

  lemma SlotBelowHorizon(slots: seq<Slot>, i: nat)
    requires i < |slots|
    ensures slots[i].sequence < Horizon(slots)
  {
    MaxOverIsGreatest(SlotSequences(slots), 0);
  }

  /** The receive loop on an unchanging snapshot: the event returned (or
      `None` if the subscriber would park) and the cursor it ends at. */
  function Receive(slots: seq<Slot>, cursor: nat, tag: TypeTag): (r: (Option<Value>, nat))
    requires |slots| > 0
    decreases Horizon(slots) - cursor
  {
    var slot := slots[cursor % |slots|];
    var (step, next) := ReceiveStep(cursor, slot, tag);
    match step
    case Delivered(v) => (Some(v), next)
    case Wait => (None, next)
    case _ =>
      SlotBelowHorizon(slots, cursor % |slots|);
      Receive(slots, next, tag)
  }

  /** Nothing can be delivered from sequence `k`: its slot holds another
      sequence, or that sequence with no event of the subscriber's type. */
  predicate Undeliverable(slots: seq<Slot>, k: nat, tag: TypeTag)
    requires |slots| > 0
  {
    var slot := slots[k % |slots|];
    slot.sequence != k || ReadSlot(slot, tag).None?
  }

  /** The cursor never moves back; a delivered event comes from the slot of
      the sequence just before the final cursor, that slot held exactly that
      sequence and an event of the subscriber's type; a `None` leaves the
      cursor on a slot that is behind it (where the subscriber parks); and no
      sequence skipped on the way could have been delivered. */
  lemma {:induction false} ReceiveCharacterized(slots: seq<Slot>, cursor: nat, tag: TypeTag)
    requires |slots| > 0
    decreases Horizon(slots) - cursor
    ensures var (r, last) := Receive(slots, cursor, tag);
      && cursor <= last
      && (r.Some? ==>
            && cursor < last
            && slots[(last - 1) % |slots|].sequence == last - 1
            && slots[(last - 1) % |slots|].event == Some(Event(tag, r.value)))
      && (r.None? ==> slots[last % |slots|].sequence < last)
      && (forall k :: cursor <= k < (if r.Some? then last - 1 else last) ==> Undeliverable(slots, k, tag))
  {
    var slot := slots[cursor % |slots|];
    var (step, next) := ReceiveStep(cursor, slot, tag);
    if !step.Delivered? && !step.Wait? {
      SlotBelowHorizon(slots, cursor % |slots|);
      ReceiveCharacterized(slots, next, tag);
    }
  }

  /** A receive ends at the first deliverable sequence, if any comes before
      the subscriber would park, and the event is that sequence's payload. */
  lemma {:induction false} ReceiveDeliversFirstMatch(slots: seq<Slot>, cursor: nat, tag: TypeTag, k: nat, v: Value)
    requires |slots| > 0
    requires cursor <= k
    requires slots[k % |slots|] == Slot(k, Some(Event(tag, v)))
    requires forall j :: cursor <= j < k ==> slots[j % |slots|].sequence >= j && Undeliverable(slots, j, tag)
    decreases k - cursor
    ensures Receive(slots, cursor, tag) == (Some(v), k + 1)
  {
    if cursor < k {
      assert Undeliverable(slots, cursor, tag);
      SlotBelowHorizon(slots, cursor % |slots|);
      ReceiveDeliversFirstMatch(slots, cursor + 1, tag, k, v);
    }
  }

  /** The inclusive gating check of the sequencer loses an event. A ring of
      four holds sequences 1 to 4 and one subscriber expects sequence 1; had
      the publisher waited, the subscriber would receive sequence 1. The
      sequencer grants sequence 5 all the same (its wrap point 1 equals the
      subscriber's cursor); writing it replaces sequence 1 in slot 1, and the
      subscriber then skips from 1 to 2: the event of sequence 1 is never
      delivered. */
  lemma {:induction false} InclusiveCheckLosesEvent(tag: TypeTag, v1: Value, v2: Value, v3: Value, v4: Value, v5: Value)
    ensures var before := [Slot(4, Some(Event(tag, v4))), Slot(1, Some(Event(tag, v1))),
                           Slot(2, Some(Event(tag, v2))), Slot(3, Some(Event(tag, v3)))];
      && Receive(before, 1, tag) == (Some(v1), 2)
      && Sequencing.NextFromSpec(Sequencing.Cursors(4, 1), 1, 4, [1])
         == (Sequencing.Granted(5), Sequencing.Cursors(5, 1))
      && Receive(before[5 % 4 := Slot(5, Some(Event(tag, v5)))], 1, tag) == (Some(v2), 3)
  {
    var before := [Slot(4, Some(Event(tag, v4))), Slot(1, Some(Event(tag, v1))),
                   Slot(2, Some(Event(tag, v2))), Slot(3, Some(Event(tag, v3)))];
    var after := before[5 % 4 := Slot(5, Some(Event(tag, v5)))];
    ReceiveDeliversFirstMatch(before, 1, tag, 1, v1);
    ReceiveDeliversFirstMatch(after, 1, tag, 2, v2);
  }

  class Subscriber {
    const ring: RingBuffer
    const sequence: Sequence
    const tag: TypeTag

    /** The subscriber's cursor is neither the write cursor nor the cache. */
    ghost predicate Valid()
      reads this, ring, ring.sequencer
    {
      ring.Valid() && sequence != ring.sequencer.cursor && sequence != ring.sequencer.gatingCache
    }

    constructor (ring: RingBuffer, sequence: Sequence, tag: TypeTag)
      requires ring.Valid()
      requires sequence != ring.sequencer.cursor && sequence != ring.sequencer.gatingCache
      ensures this.ring == ring && this.sequence == sequence && this.tag == tag
      ensures Valid()
    {
      this.ring := ring;
      this.sequence := sequence;
      this.tag := tag;
    }

    /** `sequence()`: the cursor, unchanged. */
    method Sequence() returns (s: nat)
      ensures s == sequence.value
    {
      s := sequence.Get();
    }

    /** One pass of the loop of `recv()` on the live envelopes: the cursor
        and the sequence of the envelope it maps to decide between reading,
        waiting and skipping, as `ReceiveStep` says. */
    method Step() returns (step: Received)
      requires Valid()
      modifies sequence
      ensures (step, sequence.value)
           == ReceiveStep(old(sequence.value), ring.Snapshot()[old(sequence.value) % ring.bufferSize], tag)
    {
      var current := sequence.Get();
      var envelope := ring.GetEnvelope(current);
      var envelopeSequence := envelope.Sequence();
      if current == envelopeSequence {
        sequence.Increment();
        var read := envelope.Read(tag);
        step := if read.Some? then Delivered(read.value) else Irrelevant;
      } else if current > envelopeSequence {
        step := Wait;
      } else {
        sequence.Increment();
        step := Lapped;
      }
    }

    /** The receive loop of `recv()` over the envelopes: it stops with an
        event of the subscriber's type (`Some`) or where `recv()` would park
        (`None`), exactly as `Receive` says, and only moves the cursor
        forward. */
    method ReceiveLoop() returns (r: Option<Value>)
      requires Valid()
      modifies sequence
      ensures (r, sequence.value) == Receive(ring.Snapshot(), old(sequence.value), tag)
      ensures old(sequence.value) <= sequence.value
    {
      ghost var slots := ring.Snapshot();
      ghost var start := sequence.value;
      while true
        invariant ring.Snapshot() == slots
        invariant start <= sequence.value
        invariant Receive(slots, start, tag) == Receive(slots, sequence.value, tag)
        decreases Horizon(slots) - sequence.value
      {
        SlotBelowHorizon(slots, sequence.value % |slots|);
        var step := Step();
        if step.Delivered? {
          r := Some(step.value);
          break;
        } else if step.Wait? {
          r := None;
          break;
        }
      }
    }

    /** `recv()`: the receive loop (calling `Recv` again after a publish is the
        retry that follows a wake-up). Only the cursor changes, and the
        backpressure invariant of the sequencer, which may gate on this
        cursor, survives because a gating cursor only moves forward. */
    method Recv() returns (r: Option<Value>)
      requires Valid()
      modifies sequence
      ensures (r, sequence.value) == Receive(ring.Snapshot(), old(sequence.value), tag)
      ensures old(sequence.value) <= sequence.value
      ensures ring.Snapshot() == old(ring.Snapshot())
      ensures old(ring.sequencer.Backpressure()) ==> ring.sequencer.Backpressure()
    {
      r := ReceiveLoop();
      ghost var sequencer := ring.sequencer;
      ghost var before := old(sequencer.GatingValues());
      ghost var after := sequencer.GatingValues();
      forall i | 0 <= i < |before|
        ensures before[i] <= after[i]
      {
        assert old(sequencer.gating[i].value) <= sequencer.gating[i].value;
      }
      if old(sequencer.Backpressure()) {
        Sequencing.GatingProgressKeepsGated(sequencer.State(), ring.bufferSize, before, after);
      }
    }
  }
}
