/** The token bucket: a buffered channel of tokens, a ticker whose channel holds one tick, and the goroutine
    that turns ticks into tokens, one channel operation at a time. Time in nanoseconds. */
module TokenBucket {
  import opened Common

  /** Fire: the ticker puts a tick in its one-place channel, or loses it. Take: the goroutine receives the tick.
      Offer: it offers a token, which may be some time later. Grant: an Acquire receives a token. Stop: the stop
      channel is closed. Exit: the goroutine sees that and returns; until then it may still serve ticks. */
  datatype Kind = Fire | Take | Offer | Grant | Stop | Exit
  datatype Event = Event(kind: Kind, time: int)

  /** `pending`: a tick waits in the ticker's channel. `inHand`: the goroutine has received one and has not
      offered its token yet. `lost` counts ticks the ticker could not deliver, `dropped` tokens a full bucket
      refused. */
  datatype Bucket = Bucket(
    capacity: nat, level: nat, pending: bool, inHand: bool, stopped: bool, exited: bool, lost: nat, dropped: nat)

  /** The channel is filled up front. */
  function NewTokenBucket(capacity: nat): Bucket {
    Bucket(capacity, capacity, false, false, false, false, 0, 0)
  }

  /** The refill period is the integer quotient. */
  function TickOf(capacity: nat, interval: int): int
    requires capacity > 0 && interval >= 0
  {
    interval / capacity
  }

  predicate Enabled(b: Bucket, k: Kind) {
    match k
    case Fire => !b.exited
    case Take => b.pending && !b.inHand && !b.exited
    case Offer => b.inHand
    case Grant => b.level > 0
    case Stop => !b.stopped
    case Exit => b.stopped && !b.exited && !b.inHand
  }

  function Do(b: Bucket, k: Kind): Bucket
    requires Enabled(b, k)
  {
    match k
    case Fire => if b.pending then b.(lost := b.lost + 1) else b.(pending := true)
    case Take => b.(pending := false, inHand := true)
    case Offer =>
      if b.level < b.capacity then b.(inHand := false, level := b.level + 1)
      else b.(inHand := false, dropped := b.dropped + 1)
    case Grant => b.(level := b.level - 1)
    case Stop => b.(stopped := true)
    case Exit => b.(exited := true)
  }

  /** Tokens that can be granted without a further tick: in the bucket, in the goroutine's hand, in the ticker's
      channel. */
  function Backlog(b: Bucket): nat {
    b.level + (if b.inHand then 1 else 0) + (if b.pending then 1 else 0)
  }

  /** The state after a run, None when some event was not possible when it happened. */
  function RunFrom(b: Bucket, run: seq<Event>): Option<Bucket> {
    if run == [] then Some(b)
    else
      var before := RunFrom(b, run[..|run| - 1]);
      var kind := run[|run| - 1].kind;
      if before.Some? && Enabled(before.value, kind) then Some(Do(before.value, kind)) else None
  }

  predicate Possible(b: Bucket, run: seq<Event>) {
    RunFrom(b, run).Some?
  }

  function After(b: Bucket, run: seq<Event>): Bucket
    requires Possible(b, run)
  {
    RunFrom(b, run).value
  }

  /** The times of the events of one kind. */
  function Times(run: seq<Event>, k: Kind): seq<int> {
    if run == [] then []
    else Times(run[..|run| - 1], k) + if run[|run| - 1].kind == k then [run[|run| - 1].time] else []
  }

  function Count(run: seq<Event>, k: Kind): nat {
    |Times(run, k)|
  }

  lemma CountSnoc(run: seq<Event>, k: Kind)
    requires run != []
    ensures Count(run, k) == Count(run[..|run| - 1], k) + if run[|run| - 1].kind == k then 1 else 0
  {
  }

  lemma StepConservesTokens(b: Bucket, k: Kind)
    requires Enabled(b, k) && b.level <= b.capacity
    ensures var a := Do(b, k);
      && a.capacity == b.capacity && a.level <= a.capacity && a.dropped >= b.dropped
      && (if k == Grant then 1 else 0) + a.level + (a.dropped - b.dropped)
         == b.level + (if k == Offer then 1 else 0)
  {
  }

  /** Conservation from any starting state, and the level bound. */
  lemma {:induction false} TokensAreConserved(b: Bucket, run: seq<Event>)
    requires Possible(b, run) && b.level <= b.capacity
    ensures var a := After(b, run);
      && a.capacity == b.capacity && a.level <= a.capacity && a.dropped >= b.dropped
      && Count(run, Grant) + a.level + (a.dropped - b.dropped) == b.level + Count(run, Offer)
    decreases |run|
  {
    if run != [] {
      var init, last := run[..|run| - 1], run[|run| - 1];
      TokensAreConserved(b, init);
      StepConservesTokens(After(b, init), last.kind);
      CountSnoc(run, Grant);
      CountSnoc(run, Offer);
      assert After(b, run) == Do(After(b, init), last.kind);
    }
  }

  /** In every run of a new bucket: granted + level + dropped tokens = capacity + tokens offered. */
  lemma BucketLaw(capacity: nat, run: seq<Event>)
    requires Possible(NewTokenBucket(capacity), run)
    ensures var a := After(NewTokenBucket(capacity), run);
      && Count(run, Grant) + a.level + a.dropped == capacity + Count(run, Offer)
      && a.level <= capacity
  {
    TokensAreConserved(NewTokenBucket(capacity), run);
  }

  lemma StepConservesTicks(b: Bucket, k: Kind)
    requires Enabled(b, k)
    ensures var a := Do(b, k);
      && a.lost >= b.lost && a.dropped >= b.dropped
      && (if k == Grant then 1 else 0) + Backlog(a) + (a.lost - b.lost) + (a.dropped - b.dropped)
         == Backlog(b) + (if k == Fire then 1 else 0)
  {
  }

  /** Every tick is granted, lost, dropped, or still in the backlog. */
  lemma {:induction false} TicksAreConserved(b: Bucket, run: seq<Event>)
    requires Possible(b, run)
    ensures var a := After(b, run);
      && a.lost >= b.lost && a.dropped >= b.dropped
      && Count(run, Grant) + Backlog(a) + (a.lost - b.lost) + (a.dropped - b.dropped)
         == Backlog(b) + Count(run, Fire)
    decreases |run|
  {
    if run != [] {
      var init, last := run[..|run| - 1], run[|run| - 1];
      TicksAreConserved(b, init);
      StepConservesTicks(After(b, init), last.kind);
      CountSnoc(run, Grant);
      CountSnoc(run, Fire);
      assert After(b, run) == Do(After(b, init), last.kind);
    }
  }

  /** The goroutine returns with nothing in hand, and nothing is offered any more. */
  lemma {:induction false} ExitedOffersNothing(b: Bucket, run: seq<Event>)
    requires Possible(b, run) && b.exited && !b.inHand
    ensures After(b, run).exited && !After(b, run).inHand
    ensures Count(run, Offer) == 0 && Count(run, Fire) == 0
    decreases |run|
  {
    if run != [] {
      ExitedOffersNothing(b, run[..|run| - 1]);
    }
  }

  lemma {:induction false} ExitedHoldsNothing(capacity: nat, run: seq<Event>)
    requires Possible(NewTokenBucket(capacity), run)
    ensures var a := After(NewTokenBucket(capacity), run); a.exited ==> !a.inHand
    decreases |run|
  {
    if run != [] {
      ExitedHoldsNothing(capacity, run[..|run| - 1]);
    }
  }

  lemma {:induction false} PossibleSuffix(b: Bucket, first: seq<Event>, second: seq<Event>)
    requires Possible(b, first + second)
    ensures Possible(b, first) && Possible(After(b, first), second)
    ensures After(After(b, first), second) == After(b, first + second)
    decreases |second|
  {
    if second == [] {
      assert first + second == first;
    } else {
      var init := second[..|second| - 1];
      assert (first + second)[..|first + second| - 1] == first + init;
      PossibleSuffix(b, first, init);
    }
  }

  // ---------------------------------------------------------------- windows

  ghost predicate Spaced(times: seq<int>, gap: int) {
    forall i | 0 <= i < |times| - 1 :: times[i + 1] - times[i] >= gap
  }

  ghost predicate Within(run: seq<Event>, start: int, width: int) {
    forall e | e in run :: start <= e.time <= start + width
  }

  lemma {:induction false} TimesWithin(run: seq<Event>, k: Kind, start: int, width: int)
    requires Within(run, start, width)
    ensures forall t | t in Times(run, k) :: start <= t <= start + width
    decreases |run|
  {
    if run != [] {
      assert run == run[..|run| - 1] + [run[|run| - 1]];
      TimesWithin(run[..|run| - 1], k, start, width);
    }
  }

  lemma {:induction false} SpacedSpan(times: seq<int>, gap: int)
    requires Spaced(times, gap) && |times| > 0
    ensures times[|times| - 1] - times[0] >= (|times| - 1) * gap
    decreases |times|
  {
    if |times| > 1 {
      var init := times[..|times| - 1];
      SpacedSpan(init, gap);
      assert (|times| - 1) * gap == (|init| - 1) * gap + gap;
    }
  }

  lemma Monotone(a: int, b: int, gap: int)
    requires a <= b && gap > 0
    ensures a * gap <= b * gap
  {
  }

  lemma QuotientBound(n: nat, gap: int, width: nat)
    requires gap > 0 && n * gap <= width
    ensures n <= width / gap
  {
    if n >= width / gap + 1 {
      Monotone(width / gap + 1, n, gap);
    }
  }

  /** Events `gap` apart: at most width / gap + 1 of them fit in a window. */
  lemma SpacedCount(run: seq<Event>, k: Kind, gap: int, start: int, width: nat)
    requires gap > 0 && Within(run, start, width) && Spaced(Times(run, k), gap)
    ensures Count(run, k) <= width / gap + 1
  {
    var times := Times(run, k);
    if |times| > 0 {
      TimesWithin(run, k, start, width);
      SpacedSpan(times, gap);
      assert times[0] in times && times[|times| - 1] in times;
      QuotientBound(|times| - 1, gap, width);
    }
  }

  /** The grants of any stretch of a run are bounded by the capacity and the tokens offered in it, and by what
      its start had in the backlog and the ticks fired in it. */
  lemma WindowGrants(capacity: nat, before: seq<Event>, window: seq<Event>)
    requires Possible(NewTokenBucket(capacity), before + window)
    ensures Possible(NewTokenBucket(capacity), before)
    ensures var b := After(NewTokenBucket(capacity), before);
      && Count(window, Grant) <= capacity + Count(window, Offer)
      && Count(window, Grant) <= Backlog(b) + Count(window, Fire)
      && (b.exited ==> Count(window, Grant) <= b.level)
      && b.level <= capacity && b.capacity == capacity
  {
    var initial := NewTokenBucket(capacity);
    PossibleSuffix(initial, before, window);
    TokensAreConserved(initial, before);
    var b := After(initial, before);
    TokensAreConserved(b, window);
    TicksAreConserved(b, window);
    ExitedHoldsNothing(capacity, before);
    if b.exited {
      ExitedOffersNothing(b, window);
    }
  }

  /** When tokens are offered at least a tick apart, a window of length `width` grants at most
      capacity + width / tick + 1 tokens. */
  lemma WindowBound(capacity: nat, interval: int, before: seq<Event>, window: seq<Event>, start: int, width: nat)
    requires capacity > 0 && interval >= 0 && TickOf(capacity, interval) > 0
    requires Possible(NewTokenBucket(capacity), before + window) && Within(window, start, width)
    requires Spaced(Times(window, Offer), TickOf(capacity, interval))
    ensures Count(window, Grant) <= capacity + width / TickOf(capacity, interval) + 1
  {
    WindowGrants(capacity, before, window);
    SpacedCount(window, Offer, TickOf(capacity, interval), start, width);
  }

  /** Only the ticker is regular; the goroutine may be late between any two of its channel operations. A window
      grants at most the backlog at its start and width / tick + 1 tokens, so never more than
      capacity + width / tick + 3. */
  lemma WindowBoundByBacklog(capacity: nat, interval: int, before: seq<Event>, window: seq<Event>,
                             start: int, width: nat)
    requires capacity > 0 && interval >= 0 && TickOf(capacity, interval) > 0
    requires Possible(NewTokenBucket(capacity), before + window) && Within(window, start, width)
    requires Spaced(Times(window, Fire), TickOf(capacity, interval))
    ensures Possible(NewTokenBucket(capacity), before)
    ensures var b := After(NewTokenBucket(capacity), before);
      && Count(window, Grant) <= Backlog(b) + width / TickOf(capacity, interval) + 1
      && Backlog(b) <= capacity + 2
      && (b.exited ==> Count(window, Grant) <= capacity)
  {
    WindowGrants(capacity, before, window);
    SpacedCount(window, Fire, TickOf(capacity, interval), start, width);
  }

  // ---------------------------------------------------------------- the exact bound

  ghost predicate Ordered(run: seq<Event>) {
    forall i, j | 0 <= i < j < |run| :: run[i].time <= run[j].time
  }

  /** A possible stretch of a run in a window, time going forward and ticks at least `tick` apart throughout. */
  ghost predicate IsWindow(capacity: nat, tick: int, before: seq<Event>, window: seq<Event>, start: int, width: nat) {
    && Possible(NewTokenBucket(capacity), before + window) && Within(window, start, width)
    && Ordered(before + window) && Spaced(Times(before + window, Fire), tick)
  }

  lemma {:induction false} RunOfConcat(b: Bucket, first: seq<Event>, second: seq<Event>)
    requires Possible(b, first)
    ensures RunFrom(b, first + second) == RunFrom(After(b, first), second)
    decreases |second|
  {
    if second == [] {
      assert first + second == first;
    } else {
      var init := second[..|second| - 1];
      assert (first + second)[..|first + second| - 1] == first + init;
      RunOfConcat(b, first, init);
    }
  }

  lemma {:induction false} TimesOfConcat(first: seq<Event>, second: seq<Event>, k: Kind)
    ensures Times(first + second, k) == Times(first, k) + Times(second, k)
    decreases |second|
  {
    if second == [] {
      assert first + second == first;
    } else {
      var init := second[..|second| - 1];
      assert (first + second)[..|first + second| - 1] == first + init;
      TimesOfConcat(first, init, k);
    }
  }

  lemma OneMoreEvent(b: Bucket, run: seq<Event>, e: Event)
    requires Possible(b, run) && Enabled(After(b, run), e.kind)
    ensures RunFrom(b, run + [e]) == Some(Do(After(b, run), e.kind))
    ensures Times(run + [e], Grant) == Times(run, Grant) + if e.kind == Grant then [e.time] else []
    ensures Times(run + [e], Fire) == Times(run, Fire) + if e.kind == Fire then [e.time] else []
  {
    assert (run + [e])[..|run|] == run;
  }

  lemma FirstEvent(b: Bucket, e: Event)
    requires Enabled(b, e.kind)
    ensures RunFrom(b, [e]) == Some(Do(b, e.kind))
    ensures Times([e], Grant) == if e.kind == Grant then [e.time] else []
    ensures Times([e], Fire) == if e.kind == Fire then [e.time] else []
  {
    assert [] + [e] == [e];
    OneMoreEvent(b, [], e);
  }

  /** n grants at one time. */
  function Drain(n: nat, time: int): seq<Event> {
    if n == 0 then [] else Drain(n - 1, time) + [Event(Grant, time)]
  }

  lemma OneMoreGrant(b: Bucket, run: seq<Event>, n: nat, time: int)
    requires n < b.level && RunFrom(b, run) == Some(b.(level := b.level - n))
    requires Count(run, Grant) == n && Times(run, Fire) == []
    ensures var more := run + [Event(Grant, time)];
      && RunFrom(b, more) == Some(b.(level := b.level - (n + 1)))
      && Count(more, Grant) == n + 1 && Times(more, Fire) == []
  {
    OneMoreEvent(b, run, Event(Grant, time));
  }

  lemma {:induction false} DrainRuns(b: Bucket, n: nat, time: int)
    requires n <= b.level
    ensures RunFrom(b, Drain(n, time)) == Some(b.(level := b.level - n))
    ensures Count(Drain(n, time), Grant) == n && Times(Drain(n, time), Fire) == []
  {
    if n > 0 {
      DrainRuns(b, n - 1, time);
      OneMoreGrant(b, Drain(n - 1, time), n - 1, time);
    }
  }

  lemma {:induction false} DrainTimes(n: nat, time: int)
    ensures forall e | e in Drain(n, time) :: e.time == time
  {
    if n > 0 {
      DrainTimes(n - 1, time);
    }
  }

  /** A tick, taken, offered and granted at once. */
  function Cycle(t: int): seq<Event> {
    [Event(Fire, t), Event(Take, t), Event(Offer, t), Event(Grant, t)]
  }

  /** Nothing is left to grant, and the goroutine is ready for the next tick. */
  predicate Drained(b: Bucket) {
    Backlog(b) == 0 && !b.exited && b.capacity > 0
  }

  /** A token in hand, offered to the empty bucket and granted. */
  lemma OfferIsGranted(b: Bucket, run: seq<Event>, t: int)
    requires Possible(b, run)
    requires var a := After(b, run); a.level == 0 && a.inHand && a.capacity > 0
    ensures var served := run + [Event(Offer, t)] + [Event(Grant, t)];
      && RunFrom(b, served) == Some(After(b, run).(inHand := false))
      && Times(served, Grant) == Times(run, Grant) + [t] && Times(served, Fire) == Times(run, Fire)
  {
    var offered := run + [Event(Offer, t)];
    OneMoreEvent(b, run, Event(Offer, t));
    assert After(b, offered) == After(b, run).(inHand := false, level := 1);
    OneMoreEvent(b, offered, Event(Grant, t));
  }

  /** A waiting tick, taken, offered and granted. */
  lemma TickIsGranted(b: Bucket, run: seq<Event>, t: int)
    requires Possible(b, run)
    requires var a := After(b, run); a.level == 0 && a.pending && !a.inHand && !a.exited && a.capacity > 0
    ensures var served := run + [Event(Take, t)] + [Event(Offer, t)] + [Event(Grant, t)];
      && RunFrom(b, served) == Some(After(b, run).(pending := false))
      && Times(served, Grant) == Times(run, Grant) + [t] && Times(served, Fire) == Times(run, Fire)
  {
    OneMoreEvent(b, run, Event(Take, t));
    OfferIsGranted(b, run + [Event(Take, t)], t);
  }

  lemma OneCycle(b: Bucket, t: int)
    requires Drained(b)
    ensures RunFrom(b, Cycle(t)) == Some(b) && Times(Cycle(t), Grant) == [t] && Times(Cycle(t), Fire) == [t]
  {
    var fire := Event(Fire, t);
    FirstEvent(b, fire);
    TickIsGranted(b, [fire], t);
    assert Cycle(t) == [fire] + [Event(Take, t)] + [Event(Offer, t)] + [Event(Grant, t)];
  }

  /** The last of n ticks, one tick apart. */
  function LastTick(n: nat, start: int, tick: int): int {
    start + (n - 1) * tick
  }

  /** n cycles, one tick apart. */
  function Cycles(n: nat, start: int, tick: int): seq<Event> {
    if n == 0 then [] else Cycles(n - 1, start, tick) + Cycle(LastTick(n, start, tick))
  }

  function TickTimes(n: nat, start: int, tick: int): seq<int> {
    seq(n, i requires 0 <= i < n => start + i * tick)
  }

  lemma TickTimesSnoc(n: nat, start: int, tick: int)
    requires n > 0
    ensures TickTimes(n, start, tick) == TickTimes(n - 1, start, tick) + [LastTick(n, start, tick)]
  {
  }

  lemma OneMoreCycle(b: Bucket, run: seq<Event>, t: int)
    requires Drained(b) && RunFrom(b, run) == Some(b)
    ensures RunFrom(b, run + Cycle(t)) == Some(b)
    ensures Times(run + Cycle(t), Grant) == Times(run, Grant) + [t]
    ensures Times(run + Cycle(t), Fire) == Times(run, Fire) + [t]
  {
    OneCycle(b, t);
    RunOfConcat(b, run, Cycle(t));
    TimesOfConcat(run, Cycle(t), Fire);
    TimesOfConcat(run, Cycle(t), Grant);
  }

  lemma {:induction false} CyclesRun(b: Bucket, n: nat, start: int, tick: int)
    requires Drained(b)
    ensures RunFrom(b, Cycles(n, start, tick)) == Some(b)
    ensures Times(Cycles(n, start, tick), Grant) == TickTimes(n, start, tick)
    ensures Times(Cycles(n, start, tick), Fire) == TickTimes(n, start, tick)
  {
    if n > 0 {
      var t := LastTick(n, start, tick);
      CyclesRun(b, n - 1, start, tick);
      OneMoreCycle(b, Cycles(n - 1, start, tick), t);
      TickTimesSnoc(n, start, tick);
    }
  }

  lemma OrderedConcat(first: seq<Event>, second: seq<Event>, t: int)
    requires Ordered(first) && Ordered(second)
    requires (forall e | e in first :: e.time <= t) && (forall e | e in second :: t <= e.time)
    ensures Ordered(first + second)
  {
    var all := first + second;
    forall i, j | 0 <= i < j < |all|
      ensures all[i].time <= all[j].time
    {
      assert i < |first| ==> all[i] in first;
      assert j < |first| || all[j] in second;
    }
  }

  /** Events in order, none after `last`. */
  ghost predicate OrderedUpTo(run: seq<Event>, start: int, last: int) {
    Ordered(run) && forall e | e in run :: start <= e.time <= last
  }

  lemma OneMoreOrdered(run: seq<Event>, start: int, last: int, t: int)
    requires OrderedUpTo(run, start, last) && last <= t && start <= t
    ensures OrderedUpTo(run + Cycle(t), start, t)
  {
    OrderedConcat(run, Cycle(t), t);
  }

  lemma NextTick(n: nat, start: int, tick: int)
    requires tick > 0 && n > 0
    ensures LastTick(n + 1, start, tick) == LastTick(n, start, tick) + tick && start <= LastTick(n, start, tick)
  {
    Monotone(0, n - 1, tick);
    assert n * tick == (n - 1) * tick + tick;
  }

  lemma {:induction false} CyclesOrdered(n: nat, start: int, tick: int)
    requires tick > 0 && n > 0
    ensures OrderedUpTo(Cycles(n, start, tick), start, LastTick(n, start, tick))
  {
    if n == 1 {
      assert LastTick(1, start, tick) == start;
      assert Cycles(0, start, tick) == [];
      OneMoreOrdered([], start, start, start);
    } else {
      CyclesOrdered(n - 1, start, tick);
      NextTick(n - 1, start, tick);
      OneMoreOrdered(Cycles(n - 1, start, tick), start, LastTick(n - 1, start, tick), LastTick(n, start, tick));
    }
  }

  function ServeHand(inHand: bool, t: int): seq<Event> {
    if inHand then [Event(Offer, t), Event(Grant, t)] else []
  }

  function ServeTick(pending: bool, t: int): seq<Event> {
    if pending then [Event(Take, t), Event(Offer, t), Event(Grant, t)] else []
  }

  /** The grants that the backlog allows at one time: the bucket, the token in hand, the waiting tick. */
  function ServeBacklog(b: Bucket, t: int): seq<Event> {
    Drain(b.level, t) + ServeHand(b.inHand, t) + ServeTick(b.pending, t)
  }

  lemma HandIsServed(b: Bucket, run: seq<Event>, t: int)
    requires Possible(b, run) && After(b, run).level == 0 && After(b, run).capacity > 0
    ensures var a := After(b, run); var served := run + ServeHand(a.inHand, t);
      && RunFrom(b, served) == Some(a.(inHand := false))
      && Count(served, Grant) == Count(run, Grant) + (if a.inHand then 1 else 0)
      && Times(served, Fire) == Times(run, Fire)
  {
    if After(b, run).inHand {
      OfferIsGranted(b, run, t);
      assert run + ServeHand(true, t) == run + [Event(Offer, t)] + [Event(Grant, t)];
    } else {
      assert run + ServeHand(false, t) == run;
    }
  }

  lemma TickIsServed(b: Bucket, run: seq<Event>, t: int)
    requires Possible(b, run)
    requires var a := After(b, run); a.level == 0 && !a.inHand && !a.exited && a.capacity > 0
    ensures var a := After(b, run); var served := run + ServeTick(a.pending, t);
      && RunFrom(b, served) == Some(a.(pending := false))
      && Count(served, Grant) == Count(run, Grant) + (if a.pending then 1 else 0)
      && Times(served, Fire) == Times(run, Fire)
  {
    if After(b, run).pending {
      TickIsGranted(b, run, t);
      assert run + ServeTick(true, t) == run + [Event(Take, t)] + [Event(Offer, t)] + [Event(Grant, t)];
    } else {
      assert run + ServeTick(false, t) == run;
    }
  }

  lemma BacklogIsServed(b: Bucket, t: int)
    requires !b.exited && b.capacity > 0
    ensures RunFrom(b, ServeBacklog(b, t)) == Some(b.(level := 0, inHand := false, pending := false))
    ensures Count(ServeBacklog(b, t), Grant) == Backlog(b) && Times(ServeBacklog(b, t), Fire) == []
  {
    var d := Drain(b.level, t);
    DrainRuns(b, b.level, t);
    HandIsServed(b, d, t);
    TickIsServed(b, d + ServeHand(b.inHand, t), t);
  }

  lemma BacklogTimes(b: Bucket, t: int)
    ensures forall e | e in ServeBacklog(b, t) :: e.time == t
  {
    DrainTimes(b.level, t);
  }

  /** Serves the backlog, then every tick at once. */
  function Burst(b: Bucket, cycles: nat, start: int, tick: int): seq<Event> {
    ServeBacklog(b, start) + Cycles(cycles, start, tick)
  }

  lemma BurstRuns(b: Bucket, cycles: nat, start: int, tick: int)
    requires !b.exited && b.capacity > 0
    ensures var burst := Burst(b, cycles, start, tick);
      && Possible(b, burst)
      && Count(burst, Grant) == Backlog(b) + cycles
      && Times(burst, Fire) == TickTimes(cycles, start, tick)
  {
    var first, then' := ServeBacklog(b, start), Cycles(cycles, start, tick);
    BacklogIsServed(b, start);
    CyclesRun(b.(level := 0, inHand := false, pending := false), cycles, start, tick);
    RunOfConcat(b, first, then');
    TimesOfConcat(first, then', Grant);
    TimesOfConcat(first, then', Fire);
  }

  lemma BurstOrdered(b: Bucket, cycles: nat, start: int, tick: int)
    requires !b.exited && b.capacity > 0 && tick > 0 && cycles > 0
    ensures OrderedUpTo(Burst(b, cycles, start, tick), start, LastTick(cycles, start, tick))
  {
    BacklogTimes(b, start);
    CyclesOrdered(cycles, start, tick);
    NextTick(cycles, start, tick);
    SameTimeOrdered(ServeBacklog(b, start), start);
    OrderedConcat(ServeBacklog(b, start), Cycles(cycles, start, tick), start);
  }

  lemma SameTimeOrdered(run: seq<Event>, t: int)
    requires forall e | e in run :: e.time == t
    ensures Ordered(run)
  {
    assert forall i | 0 <= i < |run| :: run[i] in run;
  }

  /** A start that is a tick after everything before. */
  function NextStart(before: seq<Event>, tick: int): int {
    if before == [] then 0 else before[|before| - 1].time + tick
  }

  lemma BeforeNextStart(before: seq<Event>, tick: int)
    requires Ordered(before) && tick > 0
    ensures forall e | e in before :: e.time + tick <= NextStart(before, tick)
    ensures forall t | t in Times(before, Fire) :: t + tick <= NextStart(before, tick)
  {
    forall e | e in before
      ensures e.time + tick <= NextStart(before, tick)
    {
      var i :| 0 <= i < |before| && before[i] == e;
    }
    if before != [] {
      FireTimesBound(before, before[|before| - 1].time);
    }
  }

  lemma {:induction false} FireTimesBound(run: seq<Event>, bound: int)
    requires forall e | e in run :: e.time <= bound
    ensures forall t | t in Times(run, Fire) :: t <= bound
    decreases |run|
  {
    if run != [] {
      assert run == run[..|run| - 1] + [run[|run| - 1]];
      FireTimesBound(run[..|run| - 1], bound);
    }
  }

  lemma SpacedConcat(first: seq<int>, n: nat, start: int, tick: int)
    requires Spaced(first, tick) && forall t | t in first :: t + tick <= start
    ensures Spaced(first + TickTimes(n, start, tick), tick)
  {
    var all := first + TickTimes(n, start, tick);
    forall i | 0 <= i < |all| - 1
      ensures all[i + 1] - all[i] >= tick
    {
      if i + 1 == |first| {
        assert first[i] in first;
        assert all[i + 1] == start + 0 * tick;
      } else if i >= |first| {
        var k := i - |first|;
        assert start + (k + 1) * tick == start + k * tick + tick;
      }
    }
  }

  lemma QuotientFits(width: nat, gap: int)
    requires gap > 0
    ensures width / gap >= 0 && (width / gap) * gap <= width
  {
  }

  /** Until the goroutine returns, after every run and for every width there is a window that grants the whole
      backlog and width / tick + 1 tokens. */
  lemma BacklogIsReached(capacity: nat, tick: int, before: seq<Event>, width: nat)
    returns (window: seq<Event>, start: int)
    requires capacity > 0 && tick > 0
    requires Possible(NewTokenBucket(capacity), before) && !After(NewTokenBucket(capacity), before).exited
    requires Ordered(before) && Spaced(Times(before, Fire), tick)
    ensures IsWindow(capacity, tick, before, window, start, width)
    ensures Count(window, Grant) == Backlog(After(NewTokenBucket(capacity), before)) + width / tick + 1
  {
    var initial := NewTokenBucket(capacity);
    var b := After(initial, before);
    TokensAreConserved(initial, before);
    start := NextStart(before, tick);
    QuotientFits(width, tick);
    var cycles := width / tick + 1;
    window := Burst(b, cycles, start, tick);
    BurstRuns(b, cycles, start, tick);
    BurstOrdered(b, cycles, start, tick);
    RunOfConcat(initial, before, window);
    BeforeNextStart(before, tick);
    OrderedConcat(before, window, start);
    TimesOfConcat(before, window, Fire);
    SpacedConcat(Times(before, Fire), cycles, start, tick);
  }

  lemma SuffixSpaced(first: seq<int>, second: seq<int>, gap: int)
    requires Spaced(first + second, gap)
    ensures Spaced(second, gap)
  {
    forall i | 0 <= i < |second| - 1
      ensures second[i + 1] - second[i] >= gap
    {
      var k := |first| + i;
      assert (first + second)[k + 1] - (first + second)[k] >= gap;
    }
  }

  /** The exact bound: with a regular ticker, the windows of any width that follow a run grant at most `bound`
      plus width / tick + 1 tokens if and only if the goroutine has returned or the backlog is at most `bound`,
      for every bound that is not below the capacity. */
  lemma WindowBoundIff(capacity: nat, interval: int, before: seq<Event>, width: nat, bound: nat)
    requires capacity > 0 && interval >= 0 && TickOf(capacity, interval) > 0 && bound >= capacity
    requires Possible(NewTokenBucket(capacity), before)
    requires Ordered(before) && Spaced(Times(before, Fire), TickOf(capacity, interval))
    ensures var b := After(NewTokenBucket(capacity), before);
      (forall window, start | IsWindow(capacity, TickOf(capacity, interval), before, window, start, width) ::
         Count(window, Grant) <= bound + width / TickOf(capacity, interval) + 1)
      <==> b.exited || Backlog(b) <= bound
  {
    var tick := TickOf(capacity, interval);
    var b := After(NewTokenBucket(capacity), before);
    QuotientFits(width, tick);
    if !b.exited && Backlog(b) > bound {
      var window, start := BacklogIsReached(capacity, tick, before, width);
      assert IsWindow(capacity, tick, before, window, start, width);
    } else {
      forall window, start | IsWindow(capacity, tick, before, window, start, width)
        ensures Count(window, Grant) <= bound + width / tick + 1
      {
        TimesOfConcat(before, window, Fire);
        SuffixSpaced(Times(before, Fire), Times(window, Fire), tick);
        WindowBoundByBacklog(capacity, interval, before, window, start, width);
      }
    }
  }

  /** In particular capacity + width / tick + 1 holds if and only if the goroutine has returned or bucket, hand
      and ticker together hold no more than the capacity. */
  lemma CapacityBoundIff(capacity: nat, interval: int, before: seq<Event>, width: nat)
    requires capacity > 0 && interval >= 0 && TickOf(capacity, interval) > 0
    requires Possible(NewTokenBucket(capacity), before)
    requires Ordered(before) && Spaced(Times(before, Fire), TickOf(capacity, interval))
    ensures var b := After(NewTokenBucket(capacity), before);
      (forall window, start | IsWindow(capacity, TickOf(capacity, interval), before, window, start, width) ::
         Count(window, Grant) <= capacity + width / TickOf(capacity, interval) + 1)
      <==> b.exited || Backlog(b) <= capacity
  {
    WindowBoundIff(capacity, interval, before, width, capacity);
  }

  /** The limiter of the reconciler, 100 per second: no second ever grants more than 203 requests, and none more
      than 201 unless bucket, hand and ticker hold more than 100 when it starts. */
  lemma DefaultLimiter(before: seq<Event>, window: seq<Event>, start: int)
    requires Possible(NewTokenBucket(100), before + window) && Within(window, start, SECOND)
    requires Spaced(Times(window, Fire), TickOf(100, SECOND))
    ensures Count(window, Grant) <= 203
    ensures Possible(NewTokenBucket(100), before)
    ensures var b := After(NewTokenBucket(100), before);
      b.exited || Backlog(b) <= 100 ==> Count(window, Grant) <= 201
  {
    WindowBoundByBacklog(100, SECOND, before, window, start, SECOND);
  }

  /** And 203 are reached: the goroutine takes a tick and is delayed, and the next tick fires. */
  lemma DefaultLimiterReaches203() returns (before: seq<Event>, window: seq<Event>, start: int)
    ensures IsWindow(100, TickOf(100, SECOND), before, window, start, SECOND)
    ensures Count(window, Grant) == 203
  {
    var tick := TickOf(100, SECOND);
    var b := NewTokenBucket(100);
    var first, take, second := Event(Fire, 0), Event(Take, 0), Event(Fire, tick);
    before := [first] + [take] + [second];
    FirstEvent(b, first);
    OneMoreEvent(b, [first], take);
    OneMoreEvent(b, [first] + [take], second);
    assert Times(before, Fire) == [0, tick];
    window, start := BacklogIsReached(100, tick, before, SECOND);
  }

  // ---------------------------------------------------------------- stopping

  /** After Stop the goroutine can always return: at once, or after it has offered the token in its hand. */
  lemma StopEndsTheGoroutine(capacity: nat, run: seq<Event>, t: int)
    requires Possible(NewTokenBucket(capacity), run)
    requires var b := After(NewTokenBucket(capacity), run); b.stopped && !b.exited
    ensures var b := After(NewTokenBucket(capacity), run);
      var more := if b.inHand then run + [Event(Offer, t)] + [Event(Exit, t)] else run + [Event(Exit, t)];
      Possible(NewTokenBucket(capacity), more) && After(NewTokenBucket(capacity), more).exited
  {
    var b := NewTokenBucket(capacity);
    if After(b, run).inHand {
      OneMoreEvent(b, run, Event(Offer, t));
      OneMoreEvent(b, run + [Event(Offer, t)], Event(Exit, t));
    } else {
      OneMoreEvent(b, run, Event(Exit, t));
    }
  }
}
