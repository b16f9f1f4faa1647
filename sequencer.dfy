/**
  The `Sequencer`: owner of the write cursor, of a cached bound on the slowest
  subscriber, and of the group of subscriber cursors (gating sequences) that
  publishers must not lap. Its claim protocol reserves slots for a publisher.

  The protocol is first stated on values, as a state machine over the cursor
  and the cache (`ClaimStep`, one pass of the retry loop, and `NextFromSpec`,
  the whole loop), and its properties are proved there; the class below performs
  it on `Sequence` cells and is proved to follow it.
*/
module Sequencing {
  import opened Wrappers
  import opened Sequences

  /** The error `next_from` reports for a claim of 0 slots or of more slots
      than the buffer holds. */
  datatype ClaimError = InvalidClaimSize

  /** The two counters a claim reads and writes: the write cursor (the last
      claimed sequence) and the cached gating bound. */
  datatype Cursors = Cursors(cursor: nat, cache: nat)

  /** What one pass through the retry loop of `next_from` does: it grants the
      claim, or it goes round again (after refreshing the cache, or after losing
      the compare-and-swap), or it goes round again having changed nothing
      because the slowest subscriber is too far behind. */
  datatype Iteration = Claimed(next: nat) | Retry | Spin

  /** How the whole loop ends: a granted claim, the invalid-argument error, or
      never (sequentially nothing else moves, so a spinning loop spins forever). */
  datatype Outcome = Granted(next: nat) | Invalid | Spins

  /** The sequence `buffer_size` slots before the last slot of a claim of `n`;
      it may be negative, as the source's `i64` is. */
  function WrapPoint(current: nat, n: nat, bufferSize: nat): (w: int)
  {
    current + n - bufferSize
  }

  /** The cached bound lets the claim through without rescanning the group. */
  predicate CacheAdmits(s: Cursors, n: nat, bufferSize: nat)
  {
    WrapPoint(s.cursor, n, bufferSize) <= s.cache <= s.cursor
  }

  /** The retry loop ends: either the cache already admits the claim, or the
      slowest gating sequence (floored at the cursor) is far enough ahead. */
  predicate ClaimEnds(s: Cursors, n: nat, bufferSize: nat, gating: seq<nat>)
  {
    CacheAdmits(s, n, bufferSize) || WrapPoint(s.cursor, n, bufferSize) <= MinOver(gating, s.cursor)
  }

  /** The backpressure invariant: the cache is at most the cursor and at most
      every gating sequence, and the cursor is at most `bufferSize` past the
      cache, hence at most `bufferSize` past every gating sequence. */
  predicate Gated(s: Cursors, bufferSize: nat, gating: seq<nat>)
  {
    && s.cursor <= s.cache + bufferSize
    && s.cache <= s.cursor
    && forall i :: 0 <= i < |gating| ==> s.cache <= gating[i]
  }

  /** One pass of the loop body of `next_from`, read sequentially: the
      compare-and-swap on the cursor cannot lose, since nothing else runs. */
  function ClaimStep(s: Cursors, n: nat, bufferSize: nat, gating: seq<nat>): (r: (Iteration, Cursors))
  {
    var wrapPoint := WrapPoint(s.cursor, n, bufferSize);
    if wrapPoint > s.cache || s.cache > s.cursor then
      var gatingSequence := MinOver(gating, s.cursor);
      if wrapPoint > gatingSequence then (Spin, s)
      else (Retry, Cursors(s.cursor, gatingSequence))
    else (Claimed(s.cursor + n), Cursors(s.cursor + n, s.cache))
  }

  /** `next_from(n)` as a whole: the argument check, then at most two passes of
      the loop (a refresh of the cache always leads to a granted claim). */
  function NextFromSpec(s: Cursors, n: nat, bufferSize: nat, gating: seq<nat>): (r: (Outcome, Cursors))
  {
    if n < 1 || n > bufferSize then (Invalid, s)
    else
      var (first, s1) := ClaimStep(s, n, bufferSize, gating);
      match first
      case Claimed(next) => (Granted(next), s1)
      case Spin => (Spins, s)
      case Retry =>
        var (second, s2) := ClaimStep(s1, n, bufferSize, gating);
        // A refresh always leads to a claim (`RetryThenClaims`), so the
        // `Spins` alternative here is never taken.
        if second.Claimed? then (Granted(second.next), s2) else (Spins, s1)
  }

  /** The compare-and-swap is reached exactly when the cached bound admits the
      claim; it then grants `cursor + n` and moves the cursor there, leaving the
      cache alone. Every other pass leaves the cursor where it was, and the
      cache either stays or becomes the fresh minimum, which is a lower bound
      of the cursor and of every gating sequence. */
  lemma ClaimStepShape(s: Cursors, n: nat, bufferSize: nat, gating: seq<nat>)
    ensures var (step, t) := ClaimStep(s, n, bufferSize, gating);
      && (step.Claimed? <==> CacheAdmits(s, n, bufferSize))
      && (step.Claimed? ==> step.next == s.cursor + n && t == Cursors(s.cursor + n, s.cache))
      && (!step.Claimed? ==> t.cursor == s.cursor)
      && (step.Spin? ==> t == s)
      && (t.cache == s.cache || t.cache == MinOver(gating, s.cursor))
      && (t.cache != s.cache ==> t.cache <= s.cursor && forall i :: 0 <= i < |gating| ==> t.cache <= gating[i])
  {
    MinOverIsLeast(gating, s.cursor);
  }

  /** After a refresh the cache admits the claim, so the next pass claims. */
  lemma RetryThenClaims(s: Cursors, n: nat, bufferSize: nat, gating: seq<nat>)
    requires ClaimStep(s, n, bufferSize, gating).0.Retry?
    ensures CacheAdmits(ClaimStep(s, n, bufferSize, gating).1, n, bufferSize)
    ensures ClaimStep(ClaimStep(s, n, bufferSize, gating).1, n, bufferSize, gating).0.Claimed?
  {
    MinOverIsLeast(gating, s.cursor);
  }

  /** The backpressure invariant survives every pass of the loop, and a
      claim it grants is at most `bufferSize` past every gating sequence. */
  lemma ClaimStepKeepsGated(s: Cursors, n: nat, bufferSize: nat, gating: seq<nat>)
    requires Gated(s, bufferSize, gating)
    ensures Gated(ClaimStep(s, n, bufferSize, gating).1, bufferSize, gating)
    ensures var step := ClaimStep(s, n, bufferSize, gating).0;
      step.Claimed? ==> forall i :: 0 <= i < |gating| ==> step.next <= gating[i] + bufferSize
  {
    MinOverIsLeast(gating, s.cursor);
  }

  /** Under the backpressure invariant the cache never admits more than the
      true minimum would, so `next_from` ends (in at most two passes) exactly
      when the claim's wrap point is at most the minimum of the gating
      sequences and the cursor; otherwise it spins and changes nothing. */
  lemma NextFromEndsIff(s: Cursors, n: nat, bufferSize: nat, gating: seq<nat>)
    requires Gated(s, bufferSize, gating)
    requires 1 <= n <= bufferSize
    ensures NextFromSpec(s, n, bufferSize, gating).0.Spins?
        <==> WrapPoint(s.cursor, n, bufferSize) > MinOver(gating, s.cursor)
    ensures NextFromSpec(s, n, bufferSize, gating).0.Spins? ==> NextFromSpec(s, n, bufferSize, gating).1 == s
  {
    MinOverIsGreatestLowerBound(gating, s.cursor, s.cache);
    if ClaimStep(s, n, bufferSize, gating).0.Retry? {
      RetryThenClaims(s, n, bufferSize, gating);
    }
  }

  /** What `next_from` promises: the bad sizes fail and change nothing; a
      claim that ends returns the old cursor plus `n` and leaves the cursor
      there; the cache is only ever replaced by the fresh minimum; when the
      loop ends, it ends after at most one refresh. */
  lemma NextFromResult(s: Cursors, n: nat, bufferSize: nat, gating: seq<nat>)
    ensures var (out, t) := NextFromSpec(s, n, bufferSize, gating);
      && (out.Invalid? <==> n < 1 || n > bufferSize)
      && (out.Invalid? ==> t == s)
      && (out.Granted? ==> out.next == s.cursor + n && t.cursor == out.next)
      && (t.cache == s.cache || t.cache == MinOver(gating, s.cursor))
    ensures 1 <= n <= bufferSize && ClaimEnds(s, n, bufferSize, gating)
        ==> NextFromSpec(s, n, bufferSize, gating).0.Granted?
  {
    if 1 <= n <= bufferSize {
      ClaimStepShape(s, n, bufferSize, gating);
      var (first, s1) := ClaimStep(s, n, bufferSize, gating);
      if first.Retry? {
        RetryThenClaims(s, n, bufferSize, gating);
        ClaimStepShape(s1, n, bufferSize, gating);
      }
    }
  }

  /** `next_from` keeps the backpressure invariant, and the claim it grants
      leaves no gating sequence more than `bufferSize` behind. */
  lemma NextFromKeepsGated(s: Cursors, n: nat, bufferSize: nat, gating: seq<nat>)
    requires Gated(s, bufferSize, gating)
    ensures Gated(NextFromSpec(s, n, bufferSize, gating).1, bufferSize, gating)
    ensures var out := NextFromSpec(s, n, bufferSize, gating).0;
      out.Granted? ==> forall i :: 0 <= i < |gating| ==> out.next <= gating[i] + bufferSize
  {
    if 1 <= n <= bufferSize {
      ClaimStepKeepsGated(s, n, bufferSize, gating);
      var (first, s1) := ClaimStep(s, n, bufferSize, gating);
      if first.Retry? {
        ClaimStepKeepsGated(s1, n, bufferSize, gating);
      }
    }
  }

  /** Two successive granted claims are strictly increasing, whatever the
      gating sequences did in between. */
  lemma SuccessiveClaimsIncrease(s: Cursors, n1: nat, n2: nat, bufferSize: nat, g1: seq<nat>, g2: seq<nat>)
    requires NextFromSpec(s, n1, bufferSize, g1).0.Granted?
    requires NextFromSpec(NextFromSpec(s, n1, bufferSize, g1).1, n2, bufferSize, g2).0.Granted?
    ensures NextFromSpec(s, n1, bufferSize, g1).0.next
          < NextFromSpec(NextFromSpec(s, n1, bufferSize, g1).1, n2, bufferSize, g2).0.next
  {
    NextFromResult(s, n1, bufferSize, g1);
    NextFromResult(NextFromSpec(s, n1, bufferSize, g1).1, n2, bufferSize, g2);
  }

  /** The backpressure invariant only needs the gating sequences to stay at or
      above the cache, so gating sequences that move forward keep it. */
  lemma GatingProgressKeepsGated(s: Cursors, bufferSize: nat, before: seq<nat>, after: seq<nat>)
    requires Gated(s, bufferSize, before)
    requires |before| == |after|
    requires forall i :: 0 <= i < |before| ==> before[i] <= after[i]
    ensures Gated(s, bufferSize, after)
  {
  }

  /*
    The claim check as evidently intended. A subscriber's cursor names the
    sequence it reads next, so the event at that cursor is still unread, and a
    claim must stay strictly below it one buffer later: `next - bufferSize`
    below every gating sequence, and at most the write cursor. The check as
    written (`ClaimStep`) lets the wrap point equal the slowest gating
    sequence. The strict check differs in its two comparisons: the cache
    admits only a wrap point below it, and the refreshed minimum is floored at
    `cursor + 1`, so a cache of `cursor + 1` is no longer stale.
  */

  /** The cached bound lets a strict claim through without a rescan. */
  predicate StrictCacheAdmits(s: Cursors, n: nat, bufferSize: nat)
  {
    WrapPoint(s.cursor, n, bufferSize) < s.cache <= s.cursor + 1
  }

  /** One pass of the retry loop with the strict check. */
  function StrictClaimStep(s: Cursors, n: nat, bufferSize: nat, gating: seq<nat>): (r: (Iteration, Cursors))
  {
    var wrapPoint := WrapPoint(s.cursor, n, bufferSize);
    if !StrictCacheAdmits(s, n, bufferSize) then
      var gatingSequence := MinOver(gating, s.cursor + 1);
      if wrapPoint >= gatingSequence then (Spin, s)
      else (Retry, Cursors(s.cursor, gatingSequence))
    else (Claimed(s.cursor + n), Cursors(s.cursor + n, s.cache))
  }

  /** `next_from(n)` with the strict check: the argument check, then at most
      two passes, as in `NextFromSpec`. */
  function StrictNextFromSpec(s: Cursors, n: nat, bufferSize: nat, gating: seq<nat>): (r: (Outcome, Cursors))
  {
    if n < 1 || n > bufferSize then (Invalid, s)
    else
      var (first, s1) := StrictClaimStep(s, n, bufferSize, gating);
      match first
      case Claimed(next) => (Granted(next), s1)
      case Spin => (Spins, s)
      case Retry =>
        var (second, s2) := StrictClaimStep(s1, n, bufferSize, gating);
        if second.Claimed? then (Granted(second.next), s2) else (Spins, s1)
  }

  /** What the strict check relies on: the cache is at most one past the
      cursor and at most every gating sequence. */
  predicate StrictGated(s: Cursors, gating: seq<nat>)
  {
    && s.cache <= s.cursor + 1
    && forall i :: 0 <= i < |gating| ==> s.cache <= gating[i]
  }

  /** With the strict check no granted claim reaches an unread event: the
      sequence it overwrites (`next - bufferSize`) is below every gating
      sequence, and the invariant survives. */
  lemma StrictNextFromNeverLapsUnread(s: Cursors, n: nat, bufferSize: nat, gating: seq<nat>)
    requires StrictGated(s, gating)
    ensures StrictGated(StrictNextFromSpec(s, n, bufferSize, gating).1, gating)
    ensures var out := StrictNextFromSpec(s, n, bufferSize, gating).0;
      out.Granted? ==> forall i :: 0 <= i < |gating| ==> out.next - bufferSize < gating[i]
  {
    MinOverIsLeast(gating, s.cursor + 1);
  }

  /** The strict check gives up nothing it need not: with a valid size it
      grants `cursor + n` exactly when the claim's wrap point is below every
      gating sequence and at most the cursor, and otherwise spins and changes
      nothing. */
  lemma StrictNextFromEndsIff(s: Cursors, n: nat, bufferSize: nat, gating: seq<nat>)
    requires StrictGated(s, gating)
    requires 1 <= n <= bufferSize
    ensures var (out, t) := StrictNextFromSpec(s, n, bufferSize, gating);
      && (out.Granted? <==> WrapPoint(s.cursor, n, bufferSize) < MinOver(gating, s.cursor + 1))
      && (out.Granted? ==> out.next == s.cursor + n && t.cursor == out.next)
      && (!out.Granted? ==> out.Spins? && t == s)
  {
    MinOverIsLeast(gating, s.cursor + 1);
    MinOverIsGreatestLowerBound(gating, s.cursor + 1, s.cache);
  }

  /** Where the two checks part: with a buffer of four, the write cursor at 4
      and one subscriber at 1, the check as written grants sequence 5, which
      lives in the slot of the unread sequence 1; the strict check spins. */
  lemma InclusiveCheckGrantsUnreadSlot()
    ensures Gated(Cursors(4, 1), 4, [1]) && StrictGated(Cursors(4, 1), [1])
    ensures NextFromSpec(Cursors(4, 1), 1, 4, [1]) == (Granted(5), Cursors(5, 1))
    ensures 5 % 4 == 1 % 4
    ensures StrictNextFromSpec(Cursors(4, 1), 1, 4, [1]) == (Spins, Cursors(4, 1))
  {
  }

  class Sequencer {
    const bufferSize: nat
    const cursor: Sequence
    const gatingCache: Sequence
    var gating: seq<Sequence>

    /** The cursor and the cache are private cells, distinct from each other
        and from every registered gating sequence. */
    ghost predicate Valid()
      reads this
    {
      cursor != gatingCache && cursor !in gating && gatingCache !in gating
    }

    ghost function State(): Cursors
      reads this, cursor, gatingCache
    {
      Cursors(cursor.value, gatingCache.value)
    }

    ghost function GatingValues(): seq<nat>
      reads this, gating
    {
      Values(gating)
    }

    /** The backpressure invariant on the live cells. */
    ghost predicate Backpressure()
      reads this, cursor, gatingCache, gating
    {
      Gated(State(), bufferSize, GatingValues())
    }

    constructor (bufferSize: nat)
      ensures this.bufferSize == bufferSize
      ensures Valid() && fresh(cursor) && fresh(gatingCache)
      ensures State() == Cursors(0, 0) && gating == []
      ensures Backpressure()
    {
      this.bufferSize := bufferSize;
      cursor := new Sequence.WithValue(0);
      gatingCache := new Sequence.WithValue(0);
      gating := [];
    }

    /** Appends a subscriber's cursor to the group; nothing else changes. The
        invariant survives when the new cursor is not below the cache (a
        subscriber that starts at the write cursor, for one). */
    method RegisterGatingSequence(sequence: Sequence)
      requires Valid()
      requires sequence != cursor && sequence != gatingCache
      modifies this`gating
      ensures gating == old(gating) + [sequence]
      ensures Valid() && State() == old(State())
      ensures old(Backpressure()) && gatingCache.value <= sequence.value ==> Backpressure()
    {
      gating := gating + [sequence];
    }

    method Get() returns (current: nat)
      ensures current == cursor.value
    {
      current := cursor.Get();
    }

    /** One pass of the retry loop of `next_from`, on the live cells. */
    method TryClaim(n: nat) returns (step: Iteration)
      requires Valid()
      modifies cursor, gatingCache
      ensures (step, State()) == ClaimStep(old(State()), n, bufferSize, GatingValues())
      ensures GatingValues() == old(GatingValues())
    {
      ghost var before := State();
      ghost var gatingValues := GatingValues();
      var current := cursor.Get();
      var next := current + n;
      var wrapPoint: int := next - bufferSize;
      var cached := gatingCache.Get();
      if wrapPoint > cached || cached > current {
        var gatingSequence := GetMinimumSequence(gating, current);
        assert gatingSequence == MinOver(gatingValues, current);
        if wrapPoint > gatingSequence {
          step := Spin;
          assert ClaimStep(before, n, bufferSize, gatingValues) == (Spin, before);
        } else {
          var _ := gatingCache.Set(gatingSequence);
          step := Retry;
          assert ClaimStep(before, n, bufferSize, gatingValues) == (Retry, Cursors(current, gatingSequence));
        }
      } else {
        var swapped := cursor.CompareAndSwap(current, next);
        step := if swapped then Claimed(next) else Retry;
        assert ClaimStep(before, n, bufferSize, gatingValues) == (Claimed(next), Cursors(next, cached));
      }
      assert GatingValues() == gatingValues;
    }

    /** `next_from(n)`: rejects a bad size, otherwise runs the retry loop until
        it claims. The loop is required to end (`ClaimEnds`): a claim that
        would lap the slowest subscriber spins forever when nothing else runs. */
    method NextFrom(n: nat) returns (r: Result<nat, ClaimError>)
      requires Valid()
      requires n < 1 || n > bufferSize || ClaimEnds(State(), n, bufferSize, GatingValues())
      modifies cursor, gatingCache
      ensures r.Failure? <==> n < 1 || n > bufferSize
      ensures r.Failure? ==> State() == old(State())
      ensures r.Success? ==> r.value == old(cursor.value) + n && cursor.value == r.value
      ensures NextFromSpec(old(State()), n, bufferSize, GatingValues())
           == (if r.Success? then Granted(r.value) else Invalid, State())
      ensures GatingValues() == old(GatingValues())
      ensures old(Backpressure()) ==> Backpressure()
    {
      if n < 1 || n > bufferSize {
        return Failure(InvalidClaimSize);
      }
      ghost var start := State();
      ghost var gatingValues := GatingValues();
      NextFromResult(start, n, bufferSize, gatingValues);
      if Backpressure() {
        NextFromKeepsGated(start, n, bufferSize, gatingValues);
      }
      while true
        invariant Valid()
        invariant GatingValues() == gatingValues && old(GatingValues()) == gatingValues
        invariant State() == start
               || (ClaimStep(start, n, bufferSize, gatingValues).0.Retry?
                   && State() == ClaimStep(start, n, bufferSize, gatingValues).1)
        invariant ClaimEnds(State(), n, bufferSize, gatingValues)
        decreases if CacheAdmits(State(), n, bufferSize) then 0 else 1
      {
        if !CacheAdmits(State(), n, bufferSize) {
          assert State() == start;
          RetryThenClaims(State(), n, bufferSize, gatingValues);
        }
        var step := TryClaim(n);
        if step.Claimed? {
          return Success(step.next);
        }
      }
    }

    /** `next()`: a claim of one slot, which cannot fail once the buffer has a
        slot (the source panics otherwise). */
    method Next() returns (next: nat)
      requires Valid() && 1 <= bufferSize
      requires ClaimEnds(State(), 1, bufferSize, GatingValues())
      modifies cursor, gatingCache
      ensures next == old(cursor.value) + 1 && cursor.value == next
      ensures NextFromSpec(old(State()), 1, bufferSize, GatingValues()) == (Granted(next), State())
      ensures GatingValues() == old(GatingValues())
      ensures old(Backpressure()) ==> Backpressure()
    {
      var r := NextFrom(1);
      next := r.value;
    }
  }
}
