/**
  The ring buffer that holds the envelopes and the sequencer. Its source is not
  part of this model; this is the least of it that the subscriber and the
  publisher use: `buffer_size` envelopes built empty, the lookup of the
  envelope for a sequence (sequence modulo `buffer_size`), and `next()`,
  which hands over to the sequencer.
*/
module Ring {
  import opened Events
  import opened Sequencing

  class RingBuffer {
    const bufferSize: nat
    const slots: seq<EventEnvelope>
    const sequencer: Sequencer

    /** As many distinct envelopes as the buffer size, and a sequencer of that
        size. */
    ghost predicate Valid()
      reads this, sequencer
    {
      && 0 < bufferSize
      && |slots| == bufferSize
      && sequencer.bufferSize == bufferSize
      && sequencer.Valid()
      && forall i, j :: 0 <= i < j < |slots| ==> slots[i] != slots[j]
    }

    /** The state of every envelope, by slot index. */
    ghost function Snapshot(): (s: seq<Slot>)
      reads this, slots
      ensures |s| == |slots|
      ensures forall i :: 0 <= i < |slots| ==> s[i] == slots[i].State()
    {
      seq(|slots|, i reads slots requires 0 <= i < |slots| => slots[i].State())
    }

    constructor (bufferSize: nat)
      requires 0 < bufferSize
      ensures Valid() && this.bufferSize == bufferSize
      ensures Snapshot() == seq(bufferSize, _ => EmptySlot)
      ensures fresh(sequencer) && fresh(sequencer.cursor) && fresh(sequencer.gatingCache)
      ensures sequencer.State() == Cursors(0, 0) && sequencer.gating == []
      ensures forall i :: 0 <= i < |slots| ==> fresh(slots[i])
    {
      var envelopes: seq<EventEnvelope> := [];
      while |envelopes| < bufferSize
        invariant |envelopes| <= bufferSize
        invariant forall i :: 0 <= i < |envelopes| ==> fresh(envelopes[i]) && envelopes[i].State() == EmptySlot
        invariant forall i, j :: 0 <= i < j < |envelopes| ==> envelopes[i] != envelopes[j]
      {
        var e := new EventEnvelope();
        envelopes := envelopes + [e];
      }
      this.bufferSize := bufferSize;
      slots := envelopes;
      sequencer := new Sequencer(bufferSize);
    }

    /** The envelope that sequence `s` is written to. */
    function GetEnvelope(s: nat): EventEnvelope
      requires Valid()
      reads this, sequencer
    {
      slots[s % bufferSize]
    }

    /** Claims one slot through the sequencer; the envelopes are untouched. */
    method Next() returns (next: nat)
      requires Valid()
      requires ClaimEnds(sequencer.State(), 1, bufferSize, sequencer.GatingValues())
      modifies sequencer.cursor, sequencer.gatingCache
      ensures next == old(sequencer.cursor.value) + 1 && sequencer.cursor.value == next
      ensures NextFromSpec(old(sequencer.State()), 1, bufferSize, sequencer.GatingValues())
           == (Granted(next), sequencer.State())
      ensures sequencer.GatingValues() == old(sequencer.GatingValues())
      ensures Snapshot() == old(Snapshot())
      ensures old(sequencer.Backpressure()) ==> sequencer.Backpressure()
    {
      next := sequencer.Next();
    }
  }
}
