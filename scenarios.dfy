/**
  Client scenarios of the whole engine, proved from the members' contracts alone:
  the subscriber's documented example and one cycle of the async publisher.
  Publishing synchronously (the bus's own `publish`, which is not part of this
  model) is written out as a claim through the ring followed by an overwrite of
  the claimed envelope.
*/
module Scenarios {
  import opened Wrappers
  import opened Sequences
  import opened Events
  import opened Sequencing
  import opened Ring
  import opened Subscribers
  import opened Publishers

  const USize := TypeTag(0)

  /** Subscribe on a bus of four slots (the subscriber's cursor starts at the
      write cursor and gates the sequencer), publish 1234, and receive it. */
  method SubscribeThenPublish() returns (msg: Option<Value>, claimed: nat)
    ensures claimed == 1
    ensures msg == Some(Number(1234))
  {
    var bus := new RingBuffer(4);
    var start := bus.sequencer.Get();
    var cursor := new Sequence.WithValue(start);
    bus.sequencer.RegisterGatingSequence(cursor);
    var subscriber := new Subscriber(bus, cursor, USize);

    claimed := bus.Next();
    var envelope := bus.GetEnvelope(claimed);
    ghost var first := bus.slots[0];
    assert first.State() == EmptySlot && first != envelope;
    envelope.Overwrite(claimed, USize, Number(1234));

    ghost var slots := bus.Snapshot();
    assert slots[1] == Slot(1, Some(Event(USize, Number(1234))));
    assert slots[0] == first.State();
    ReceiveDeliversFirstMatch(slots, 0, USize, 1, Number(1234));
    msg := subscriber.Recv();
  }

  /** One cycle of the async publisher: ready, accept (claims slot 1), not
      ready, flush (writes slot 1), ready again; a second flush changes
      nothing. */
  method PublisherCycle(item: Value) returns (before: Poll, pending: Poll, after: Poll, written: Slot, stable: bool)
    ensures before == Ready && pending == Pending && after == Ready
    ensures written == Slot(1, Some(Event(USize, item)))
    ensures stable
  {
    var bus := new RingBuffer(4);
    var publisher := new AsyncPublisher(bus, USize);
    before := publisher.PollReady();
    publisher.StartSend(item);
    pending := publisher.PollReady();
    var _ := publisher.PollFlush();
    after := publisher.PollReady();
    written := Slot(bus.slots[1].sequence, bus.slots[1].event);
    ghost var once := bus.Snapshot();
    var _ := publisher.PollFlush();
    stable := Slot(bus.slots[1].sequence, bus.slots[1].event) == written;
    assert bus.Snapshot() == once;
  }
}
