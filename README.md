# A verified model of the seam disruptor

This project models the core of an in-process event bus built on the
disruptor pattern:

- a ring of `EventEnvelope` slots, each holding a sequence number and a
  type-erased event;
- a `Sequencer` that hands out increasing write sequences, and stops a
  publisher from lapping the slowest subscriber (backpressure);
- `Subscriber`s that follow the ring with their own read cursor and return
  events of their own type;
- an `AsyncPublisher` sink that claims a slot when an item is accepted and
  writes the item when flushed.

The model is sequential: one thread of control, atomics as plain fields. The
classes keep the source's own shape. A `Sequence` cell is a class with a
mutable value. The sequencer is a class over such cells. An envelope is a
class with its own plain sequence and event fields, as the source's two
atomics are. The loops of `get_minimum_sequence`, `next_from`, `overwrite` and `recv`
are `while`/`for` loops with invariants. Each imperative operation is proved
against a value-level specification whose properties are proved as lemmas:

- `MinOver`/`MaxOver` for the group minimum and maximum;
- `ClaimStep`/`NextFromSpec`, a state machine over the write cursor and the
  gating cache, for the claim protocol;
- `ReadSlot` for a typed read;
- `ReceiveStep`/`Receive`, over a snapshot of the ring, for the receive loop.

Files:

- `wrappers.dfy` holds `Option` and `Result`.
- `sequence.dfy` models `seam-disruptor/src/sequence.rs`.
- `sequencer.dfy` models `seam-disruptor/src/sequence/sequencer.rs`.
- `event.dfy` models `seam-disruptor/src/event.rs` and its tests.
- `ring_buffer.dfy` is the smallest ring the other modules need.
- `subscriber.dfy` models `src/subscriber.rs`.
- `publisher.dfy` models `seam-disruptor/src/futures/publisher.rs`.
- `scenarios.dfy` holds two client scenarios, proved from the contracts alone: the
  subscriber's documented example, and one async publisher cycle.

The backpressure invariant is `Gated`. The cache is at most the cursor and at
most every gating sequence, and the cursor is at most `buffer_size` past the
cache. Every claim keeps it, and so does every receive by a subscriber whose
cursor gates the sequencer. The bound, however, is inclusive: a claim may
reach exactly `buffer_size` past a subscriber's cursor. That cursor names the
sequence the subscriber reads next, so such a claim overwrites an event the
subscriber has not read, and the subscriber then skips it (see "Findings").
The imperative `Sequencer` keeps the check as the code writes it. A strict
check, `StrictNextFromSpec`, is defined beside it and proved never to
overwrite an unread event.

## Model

| member | source | states |
|---|---|---|
| `Sequences.Sequence.WithValue` | seam-disruptor/src/sequence.rs:8-12 | a new cell holds the given initial value |
| `Sequences.Sequence.Get` | seam-disruptor/src/sequence.rs:36-38 | returns the cell's current value |
| `Sequences.Sequence.Set` | seam-disruptor/src/sequence.rs:40-42 | stores the new value and returns the value it replaced (swap semantics) |
| `Sequences.Sequence.CompareAndSwap` | seam-disruptor/src/sequence.rs:44-46 | reports success exactly when the old value equals `expected`, and then (and only then) stores the new value |
| `Sequences.Sequence.Increment` | src/subscriber.rs:96 | the cell's value grows by exactly one |
| `Sequences.MinOverIsLeast` | seam-disruptor/src/sequence.rs:14-23 | the folded minimum is at most the fallback and at most every value, and it is the fallback or one of the values |
| `Sequences.MinOverIsGreatestLowerBound` | seam-disruptor/src/sequence.rs:14-23 | any bound below the fallback and below every value is below the folded minimum |
| `Sequences.MaxOverIsGreatest` | seam-disruptor/src/sequence.rs:25-34 | the folded maximum is at least the fallback and at least every value, and it is the fallback or one of the values |
| `Sequences.GetMinimumSequence` | seam-disruptor/src/sequence.rs:14-23 | the loop returns the minimum of the starting value and every cell's value: it bounds all of them from below and equals one of them; an empty list gives back the starting value |
| `Sequences.GetMaximumSequence` | seam-disruptor/src/sequence.rs:25-34 | the loop returns the maximum of the starting value and every cell's value: it bounds all of them from above and equals one of them; an empty list gives back the starting value |
| `Sequences.WithValueThenGet` | seam-disruptor/src/sequence.rs:8-38 | reading a freshly built cell returns the value it was built with |
| `Sequencing.ClaimStepShape` | seam-disruptor/src/sequence/sequencer.rs:40-60 | one loop pass reaches the compare-and-swap exactly when the cache admits the claim, and then grants `cursor + n` and moves the cursor there; every other pass keeps the cursor, and the cache either stays or becomes the fresh minimum, which bounds the cursor and every gating sequence from below |
| `Sequencing.RetryThenClaims` | seam-disruptor/src/sequence/sequencer.rs:49-58 | after the cache is refreshed it admits the claim, so the next pass claims |
| `Sequencing.ClaimStepKeepsGated` | seam-disruptor/src/sequence/sequencer.rs:40-60 | every loop pass keeps the backpressure invariant, and a granted claim is at most `buffer_size` past every gating sequence |
| `Sequencing.NextFromEndsIff` | seam-disruptor/src/sequence/sequencer.rs:35-61 | under the invariant, `next_from` with a valid size ends exactly when the wrap point is at most the minimum of the gating sequences and the cursor; otherwise it spins and changes nothing |
| `Sequencing.NextFromResult` | seam-disruptor/src/sequence/sequencer.rs:35-61 | the error happens exactly for `n < 1` or `n > buffer_size` and changes nothing; a granted claim is the old cursor plus `n`, and the cursor moves there; the cache only ever becomes the fresh minimum; a valid claim whose loop ends is always granted |
| `Sequencing.NextFromKeepsGated` | seam-disruptor/src/sequence/sequencer.rs:35-61 | `next_from` keeps the backpressure invariant, and leaves no gating sequence more than `buffer_size` behind the claim |
| `Sequencing.SuccessiveClaimsIncrease` | seam-disruptor/src/sequence/sequencer.rs:35-61 | two successive granted claims are strictly increasing, whatever the gating sequences did in between |
| `Sequencing.GatingProgressKeepsGated` | seam-disruptor/src/sequence/sequencer.rs:48-51 | gating sequences that only move forward keep the backpressure invariant |
| `Sequencing.StrictNextFromNeverLapsUnread` | seam-disruptor/src/sequence/sequencer.rs:45-58 | with the strict check, every granted claim overwrites only a sequence below every gating sequence, and the strict invariant survives |
| `Sequencing.StrictNextFromEndsIff` | seam-disruptor/src/sequence/sequencer.rs:35-61 | with the strict check and a valid size, `cursor + n` is granted exactly when the wrap point is below every gating sequence and at most the cursor; otherwise the loop spins and changes nothing |
| `Sequencing.InclusiveCheckGrantsUnreadSlot` | seam-disruptor/src/sequence/sequencer.rs:45-51 | with a buffer of four, the write cursor at 4 and a subscriber at 1, the check as written grants sequence 5 into the slot of the unread sequence 1, and the strict check spins |
| `Sequencing.Sequencer.constructor` | seam-disruptor/src/sequence/sequencer.rs:13-20 | cursor and cache both start at 0 in distinct fresh cells, the group is empty, and the backpressure invariant holds |
| `Sequencing.Sequencer.RegisterGatingSequence` | seam-disruptor/src/sequence/sequencer.rs:22-24 | appends the cell to the group and changes nothing else; the invariant survives when the new cell is not below the cache |
| `Sequencing.Sequencer.Get` | seam-disruptor/src/sequence/sequencer.rs:26-28 | returns the write cursor |
| `Sequencing.Sequencer.TryClaim` | seam-disruptor/src/sequence/sequencer.rs:41-59 | one pass of the loop on the live cells does exactly what `ClaimStep` does to the cursor and the cache, and leaves the gating sequences alone |
| `Sequencing.Sequencer.NextFrom` | seam-disruptor/src/sequence/sequencer.rs:35-61 | fails exactly for a bad size and then changes nothing; otherwise returns the old cursor plus `n` with the cursor moved there; the final state is `NextFromSpec`'s; backpressure is preserved |
| `Sequencing.Sequencer.Next` | seam-disruptor/src/sequence/sequencer.rs:30-33 | claims one slot: returns the old cursor plus one, as `NextFromSpec` says, preserving backpressure |
| `Events.ReadSlotAtMostOneType` | seam-disruptor/src/event.rs:49-65 | a slot yields a value to at most one type: two types that both read a value from it are the same type and read the same value |
| `Events.EventEnvelope.constructor` | seam-disruptor/src/event.rs:38-43 | a new envelope has sequence 0 and no event, so every typed read yields nothing |
| `Events.EventEnvelope.Sequence` | seam-disruptor/src/event.rs:45-47 | returns the envelope's sequence |
| `Events.EventEnvelope.Read` | seam-disruptor/src/event.rs:49-65 | returns the payload exactly when an event is present and its tag matches, and that payload is the event's data |
| `Events.EventEnvelope.CompareAndSetEvent` | seam-disruptor/src/event.rs:78-81 | the event is replaced exactly when it equals the expected one |
| `Events.EventEnvelope.Overwrite` | seam-disruptor/src/event.rs:67-96 | the retry loop ends with the new tagged event and the new sequence stored; a read of that type then returns the data, and a read of any other type returns nothing |
| `Events.NewEnvelopeIsEmpty` | seam-disruptor/src/event.rs:103-108 | a new envelope has sequence 0 and yields nothing on a read |
| `Events.OverwriteThenRead` | seam-disruptor/src/event.rs:110-134 | each read after an overwrite returns the latest payload and a read of another type returns nothing, while a value already read keeps its old contents |
| `Ring.RingBuffer.Next` | seam-disruptor/src/futures/publisher.rs:46 | claims one slot through the sequencer as `NextFromSpec` says, leaving every envelope untouched |
| `Subscribers.SlotBelowHorizon` | src/subscriber.rs:102-106 | every slot's sequence is below the horizon, where a cursor waits; so the receive loop on a fixed ring ends |
| `Subscribers.ReceiveCharacterized` | src/subscriber.rs:84-111 | the cursor never moves back; a delivered event is the payload of sequence `last - 1` of the subscriber's type; a `None` leaves the cursor on a slot behind it; no skipped sequence could have been delivered |
| `Subscribers.ReceiveDeliversFirstMatch` | src/subscriber.rs:84-111 | a receive returns the first deliverable sequence that comes before any slot behind the cursor, and ends one past it |
| `Subscribers.InclusiveCheckLosesEvent` | src/subscriber.rs:95-108 | on a ring holding sequences 1 to 4, a subscriber at 1 would receive sequence 1; after the granted claim of sequence 5 overwrites slot 1, it skips to sequence 2 instead |
| `Subscribers.Subscriber.constructor` | src/subscriber.rs:51-57 | the subscriber keeps its ring, its cursor cell and its type |
| `Subscribers.Subscriber.Sequence` | src/subscriber.rs:63-65 | returns the subscriber's cursor |
| `Subscribers.Subscriber.Step` | src/subscriber.rs:86-109 | one pass on the live envelopes does exactly what `ReceiveStep` does to the cursor |
| `Subscribers.Subscriber.ReceiveLoop` | src/subscriber.rs:85-110 | the loop on the live envelopes ends with the event and cursor that `Receive` gives, with the cursor moved only forward |
| `Subscribers.Subscriber.Recv` | src/subscriber.rs:84-111 | returns what `Receive` gives on the ring as it is; only this cursor moves, forward, and the sequencer's backpressure invariant survives |
| `Publishers.AsyncPublisher.constructor` | seam-disruptor/src/futures/publisher.rs:15-21 | nothing is claimed or pending |
| `Publishers.AsyncPublisher.Publish` | seam-disruptor/src/futures/publisher.rs:23-31 | the claimed sequence is always taken; the pending item is taken and written to the claimed sequence's envelope exactly when both were present; no other envelope changes |
| `Publishers.AsyncPublisher.PollReady` | seam-disruptor/src/futures/publisher.rs:37-43 | pending exactly while an item is held |
| `Publishers.AsyncPublisher.StartSend` | seam-disruptor/src/futures/publisher.rs:45-52 | claims the next sequence (the old cursor plus one, as `NextFromSpec` says) and holds the item with it; the envelopes are untouched and backpressure is preserved |
| `Publishers.AsyncPublisher.PollFlush` | seam-disruptor/src/futures/publisher.rs:54-60 | publishes as `Publish` does and is always ready |
| `Publishers.AsyncPublisher.PollClose` | seam-disruptor/src/futures/publisher.rs:62-65 | always ready, nothing written |
| `Scenarios.SubscribeThenPublish` | src/subscriber.rs:28-38 | on a bus of four, a subscriber that subscribed first receives the published 1234, at sequence 1 |
| `Scenarios.PublisherCycle` | seam-disruptor/src/futures/publisher.rs:37-60 | one sink cycle: ready, pending after an accept, ready after the flush; slot 1 holds the item with sequence 1; a second flush changes nothing |

## Left out

- Width: counters are unbounded naturals. The model does not capture `u64` wrap-around or the `as i64` casts in `next_from`. The wrap point is a signed integer, as the `i64` is, and no overflow arises below 2^63.
- Concurrency: the atomics, their memory orderings and contention between threads are not modelled. With one thread, the cursor's compare-and-swap in `next_from` and the payload's compare-and-set in `overwrite` always succeed.
- Memory: epoch-based reclamation (`pin`, `defer_destroy`), raw pointers, `EventRead` guards and `Box<dyn Any>` downcasts are not modelled. A payload is a value tagged with its type (`TypeTag` stands for `TypeId`). A read returns a copy.
- `EventReadLabel` is not used by any modelled operation, so it is not modelled.
- Parking: `Parker`/`Unparker`, `SubscriberAlert` and `add_subscriber` are not modelled. Where `recv` would park, `Recv` returns `None`; calling it again after a publish is the wake-up.
- Subscribers.Subscriber.Recv: the source's `recv` never returns without an event. The model instead returns `None` where the source parks. This is weaker than the source's promise because the wake-up is outside the model.
- Polling: `Pin`, `Context` and the `Result` inside `Poll` are not modelled. The source never returns an error from the sink, so `Poll` has just two values.
- The ring buffer's source, `SequenceGroup` and the bus type (`Eventador`, its `publish` and `subscribe`) are not part of this model. `Ring.RingBuffer` is the least the other modules use:
  - `bufferSize` empty envelopes;
  - `get_envelope` as the sequence modulo the size (a power-of-two mask is not modelled, only a positive size);
  - `next` handing over to the sequencer.
- The group minimum `minimum_sequence(current)` is modelled as `get_minimum_sequence` over the group's cells with `current` as the start.
- The subscriber's starting cursor comes from `subscribe`, which is outside the model. The scenario builds it from the sequencer's cursor and registers it as a gating sequence.
- Sequences.Sequence.Increment: the cell's `increment` is called in `src/subscriber.rs` but not defined in `sequence.rs`; it is modelled as adding one.
- Sequencing.Sequencer.NextFrom: a claim whose loop would spin forever (the slowest subscriber too far behind, with nothing else running) is excluded by the precondition `ClaimEnds`. The spin itself is characterised on the value model by `NextFromEndsIff`.
- Sequencing.Sequencer.Next: the source panics when `next_from(1)` fails, which happens only for a buffer of size 0. The model requires a size of at least 1.
- Sequencing.Sequencer.RegisterGatingSequence: the model requires the registered cell to differ from the sequencer's own cursor and cache. Shared `Arc`s between them are not modelled.

## Findings

| source | as written | input that shows it | evidently intended | confidence | as-written member | corrected member |
|---|---|---|---|---|---|---|
| seam-disruptor/src/sequence/sequencer.rs:48-51 | the claim spins only when `wrap_point > gating_sequence`, and the cache admits a claim when `wrap_point <= cached`, so the wrap point may equal a subscriber's cursor; that cursor is the sequence the subscriber reads next (src/subscriber.rs:95-96) | buffer size 4, write cursor 4, one subscriber at 1 that has not yet read sequence 1: `next()` grants 5, which is written into slot 1, and the subscriber skips from 1 to 2 | a claim waits until `next - buffer_size` is below every subscriber's cursor, so no unread event is overwritten | high; not executed | `Subscribers.InclusiveCheckLosesEvent` | `Sequencing.StrictNextFromNeverLapsUnread` |
