/** ProcessBatchRequests: one goroutine per request, a rate limiter, a semaphore of ten, a WaitGroup and a
    goroutine that closes the result channel. Every schedule and every cancellation point is a step list. */
module BatchRunner {
  import opened Common

  const SLOTS: nat := 10

  datatype Pc =
    | Unborn         // not yet started by the loop
    | Acquiring      // waits for a token or the cancellation
    | WaitingSlot    // has its token, waits for the semaphore
    | Running        // inside the request
    | Sending        // has a result
    | SendingError   // was cancelled
    | Releasing      // result sent, deferred release of the slot
    | Finishing      // deferred wg.Done
    | Finished

  datatype Closer = NotStarted | WaitingForAll | Closed

  /** `tokens` is the limiter's bucket; `wg` and `slots` are the two counters; `sent` lists the requests
      whose result is in the channel. */
  datatype Batch = Batch(
    pcs: seq<Pc>, spawned: nat, closer: Closer, tokens: nat, cancelled: bool, wg: nat, slots: nat, sent: seq<nat>)

  datatype Step =
    | Spawn                // wg.Add and go, next request
    | StartCloser          // after the loop
    | GetToken(i: nat)
    | GiveUp(i: nat)
    | GetSlot(i: nat)
    | Complete(i: nat)
    | Send(i: nat)
    | Release(i: nat)
    | Done(i: nat)
    | Close                // wg.Wait has returned
    | Cancel               // the context, by the caller
    | Tick                 // a refill of the bucket
    | TokenTaken           // by another user of the limiter

  predicate At(b: Batch, i: nat, pc: Pc) {
    i < |b.pcs| && b.pcs[i] == pc
  }

  function Goto(b: Batch, i: nat, pc: Pc): Batch
    requires i < |b.pcs|
  {
    b.(pcs := b.pcs[i := pc])
  }

  predicate Enabled(b: Batch, step: Step) {
    match step
    case Spawn => b.spawned < |b.pcs|
    case StartCloser => b.spawned == |b.pcs| && b.closer.NotStarted?
    case GetToken(i) => At(b, i, Acquiring) && b.tokens > 0
    case GiveUp(i) => At(b, i, Acquiring) && b.cancelled
    case GetSlot(i) => At(b, i, WaitingSlot) && b.slots < SLOTS
    case Complete(i) => At(b, i, Running)
    case Send(i) => At(b, i, Sending) || At(b, i, SendingError)
    case Release(i) => At(b, i, Releasing) && b.slots > 0
    case Done(i) => At(b, i, Finishing) && b.wg > 0
    case Close => b.closer.WaitingForAll? && b.wg == 0
    case Cancel => !b.cancelled
    case Tick => true
    case TokenTaken => b.tokens > 0
  }

  function Do(b: Batch, step: Step): Batch
    requires Enabled(b, step)
  {
    match step
    case Spawn =>
      b.(pcs := b.pcs[b.spawned := Acquiring], spawned := b.spawned + 1, wg := b.wg + 1)
    case StartCloser => b.(closer := WaitingForAll)
    case GetToken(i) => Goto(b, i, WaitingSlot).(tokens := b.tokens - 1)
    case GiveUp(i) => Goto(b, i, SendingError)
    case GetSlot(i) => Goto(b, i, Running).(slots := b.slots + 1)
    case Complete(i) => Goto(b, i, Sending)
    case Send(i) => Goto(b, i, if b.pcs[i].Sending? then Releasing else Finishing).(sent := b.sent + [i])
    case Release(i) => Goto(b, i, Finishing).(slots := b.slots - 1)
    case Done(i) => Goto(b, i, Finished).(wg := b.wg - 1)
    case Close => b.(closer := Closed)
    case Cancel => b.(cancelled := true)
    case Tick => b.(tokens := b.tokens + 1)
    case TokenTaken => b.(tokens := b.tokens - 1)
  }

  function Start(requests: nat, tokens: nat): Batch {
    Batch(seq(requests, _ => Unborn), 0, NotStarted, tokens, false, 0, 0, [])
  }

  /** A step that is not enabled does not happen. */
  function Try(b: Batch, step: Step): Batch {
    if Enabled(b, step) then Do(b, step) else b
  }

  function Run(requests: nat, tokens: nat, steps: seq<Step>): Batch {
    if steps == [] then Start(requests, tokens)
    else Try(Run(requests, tokens, steps[..|steps| - 1]), steps[|steps| - 1])
  }

  // ---------------------------------------------------------------- sums over the goroutines

  function Total(pcs: seq<Pc>, f: Pc -> nat): nat {
    if pcs == [] then 0 else Total(pcs[..|pcs| - 1], f) + f(pcs[|pcs| - 1])
  }

  lemma {:induction false} TotalUpdate(pcs: seq<Pc>, f: Pc -> nat, i: nat, pc: Pc)
    requires i < |pcs|
    ensures Total(pcs[i := pc], f) + f(pcs[i]) == Total(pcs, f) + f(pc)
    decreases |pcs|
  {
    var n := |pcs| - 1;
    if i < n {
      TotalUpdate(pcs[..n], f, i, pc);
      assert pcs[i := pc][..n] == pcs[..n][i := pc];
    } else {
      assert pcs[i := pc][..n] == pcs[..n];
    }
  }

  lemma {:induction false} TotalAtLeast(pcs: seq<Pc>, f: Pc -> nat, i: nat)
    requires i < |pcs|
    ensures f(pcs[i]) <= Total(pcs, f)
    decreases |pcs|
  {
    if i < |pcs| - 1 {
      TotalAtLeast(pcs[..|pcs| - 1], f, i);
    }
  }

  lemma {:induction false} TotalMonotone(pcs: seq<Pc>, f: Pc -> nat, g: Pc -> nat)
    requires forall pc :: f(pc) <= g(pc)
    ensures Total(pcs, f) <= Total(pcs, g)
    decreases |pcs|
  {
    if pcs != [] {
      TotalMonotone(pcs[..|pcs| - 1], f, g);
    }
  }

  /** A positive total has a positive summand. */
  lemma {:induction false} TotalWitness(pcs: seq<Pc>, f: Pc -> nat) returns (i: nat)
    requires Total(pcs, f) > 0
    ensures i < |pcs| && f(pcs[i]) > 0
    decreases |pcs|
  {
    var n := |pcs| - 1;
    if f(pcs[n]) > 0 {
      i := n;
    } else {
      i := TotalWitness(pcs[..n], f);
    }
  }

  function InRequest(pc: Pc): nat {
    if pc.Running? then 1 else 0
  }

  function HoldsSlot(pc: Pc): nat {
    if pc.Running? || pc.Sending? || pc.Releasing? then 1 else 0
  }

  function Outstanding(pc: Pc): nat {
    if pc.Unborn? || pc.Finished? then 0 else 1
  }

  predicate HasSent(pc: Pc) {
    pc.Releasing? || pc.Finishing? || pc.Finished?
  }

  // ---------------------------------------------------------------- the invariant

  ghost predicate CountersInv(b: Batch) {
    && b.slots == Total(b.pcs, HoldsSlot) && b.slots <= SLOTS
    && b.wg == Total(b.pcs, Outstanding)
  }

  ghost predicate SpawnInv(b: Batch) {
    && b.spawned <= |b.pcs|
    && (forall i | 0 <= i < |b.pcs| :: b.pcs[i].Unborn? <==> i >= b.spawned)
    && (!b.closer.NotStarted? ==> b.spawned == |b.pcs|)
    && (b.closer.Closed? ==> b.wg == 0)
  }

  ghost predicate SentInv(b: Batch) {
    && (forall j, k | 0 <= j < k < |b.sent| :: b.sent[j] != b.sent[k])
    && (forall i: nat :: i in b.sent <==> i < |b.pcs| && HasSent(b.pcs[i]))
  }

  ghost predicate Inv(b: Batch) {
    CountersInv(b) && SpawnInv(b) && SentInv(b)
  }

  /** The goroutine a step moves, and where to. */
  function Target(b: Batch, step: Step): Option<(nat, Pc)>
    requires Enabled(b, step)
  {
    match step
    case Spawn => Some((b.spawned, Acquiring))
    case GetToken(i) => Some((i, WaitingSlot))
    case GiveUp(i) => Some((i, SendingError))
    case GetSlot(i) => Some((i, Running))
    case Complete(i) => Some((i, Sending))
    case Send(i) => Some((i, if b.pcs[i].Sending? then Releasing else Finishing))
    case Release(i) => Some((i, Finishing))
    case Done(i) => Some((i, Finished))
    case _ => None
  }

  lemma StepMovesTarget(b: Batch, step: Step)
    requires Enabled(b, step)
    ensures var m := Target(b, step);
      Do(b, step).pcs == if m.None? then b.pcs else b.pcs[m.value.0 := m.value.1]
  {
  }

  lemma StepKeepsCounters(b: Batch, step: Step)
    requires Inv(b) && Enabled(b, step)
    ensures CountersInv(Do(b, step))
  {
    StepMovesTarget(b, step);
    var m := Target(b, step);
    if m.Some? {
      var i, pc := m.value.0, m.value.1;
      TotalUpdate(b.pcs, HoldsSlot, i, pc);
      TotalUpdate(b.pcs, Outstanding, i, pc);
      SlotChange(b, step);
    }
  }

  /** How a step moves the two counters together with its goroutine. */
  lemma SlotChange(b: Batch, step: Step)
    requires SpawnInv(b) && Enabled(b, step) && Target(b, step).Some?
    ensures var (i, pc) := Target(b, step).value;
      && i < |b.pcs|
      && Do(b, step).slots - b.slots == HoldsSlot(pc) - HoldsSlot(b.pcs[i])
      && Do(b, step).wg - b.wg == Outstanding(pc) - Outstanding(b.pcs[i])
  {
  }

  lemma StepKeepsSpawned(b: Batch, step: Step)
    requires Inv(b) && Enabled(b, step)
    ensures SpawnInv(Do(b, step))
  {
    StepMovesTarget(b, step);
    var m := Target(b, step);
    if m.Some? && b.closer.Closed? {
      TotalAtLeast(b.pcs, Outstanding, m.value.0);
    }
  }

  lemma StepKeepsSent(b: Batch, step: Step)
    requires Inv(b) && Enabled(b, step)
    ensures SentInv(Do(b, step))
  {
    StepMovesTarget(b, step);
    var b' := Do(b, step);
    if step.Send? {
      assert step.i !in b.sent;
      forall i: nat
        ensures i in b'.sent <==> i < |b'.pcs| && HasSent(b'.pcs[i])
      {
        assert i in b'.sent <==> i in b.sent || i == step.i;
      }
    } else {
      forall i: nat
        ensures i in b'.sent <==> i < |b'.pcs| && HasSent(b'.pcs[i])
      {
        assert i < |b.pcs| ==> (HasSent(b.pcs[i]) <==> HasSent(b'.pcs[i]));
      }
    }
  }

  lemma {:induction false} EveryRunKeepsInv(requests: nat, tokens: nat, steps: seq<Step>)
    ensures var b := Run(requests, tokens, steps); Inv(b) && |b.pcs| == requests
    decreases |steps|
  {
    if steps == [] {
      StartTotals(requests);
    } else {
      var b, step := Run(requests, tokens, steps[..|steps| - 1]), steps[|steps| - 1];
      EveryRunKeepsInv(requests, tokens, steps[..|steps| - 1]);
      if Enabled(b, step) {
        StepKeepsCounters(b, step);
        StepKeepsSpawned(b, step);
        StepKeepsSent(b, step);
      }
    }
  }

  lemma {:induction false} StartTotals(n: nat)
    ensures Total(seq(n, _ => Unborn), HoldsSlot) == 0 && Total(seq(n, _ => Unborn), Outstanding) == 0
  {
    if n > 0 {
      StartTotals(n - 1);
      assert seq(n, _ => Unborn)[..n - 1] == seq(n - 1, _ => Unborn);
    }
  }

  // ---------------------------------------------------------------- results

  /** Never more than ten requests run at once. */
  lemma AtMostTenAtOnce(requests: nat, tokens: nat, steps: seq<Step>)
    ensures Total(Run(requests, tokens, steps).pcs, InRequest) <= 10
  {
    EveryRunKeepsInv(requests, tokens, steps);
    TotalMonotone(Run(requests, tokens, steps).pcs, InRequest, HoldsSlot);
  }

  /** The channel is closed only when every goroutine is finished: no send follows, no result is missing. */
  lemma ClosedMeansAllSent(requests: nat, tokens: nat, steps: seq<Step>)
    requires Run(requests, tokens, steps).closer.Closed?
    ensures var b := Run(requests, tokens, steps);
      && |b.pcs| == requests
      && (forall i | 0 <= i < requests :: b.pcs[i] == Finished && i in b.sent)
      && (forall i: nat :: !Enabled(b, Send(i)))
  {
    EveryRunKeepsInv(requests, tokens, steps);
    var b := Run(requests, tokens, steps);
    forall i | 0 <= i < requests
      ensures b.pcs[i] == Finished
    {
      TotalAtLeast(b.pcs, Outstanding, i);
    }
  }

  function IdOf(i: nat, ids: seq<string>): string {
    if i < |ids| then ids[i] else ""
  }

  /** The request ids of the results, in the order they were sent. */
  function Ids(sent: seq<nat>, ids: seq<string>): seq<string> {
    seq(|sent|, k requires 0 <= k < |sent| => IdOf(sent[k], ids))
  }

  function Positions(n: nat): seq<nat> {
    seq(n, i => i)
  }

  /** Two duplicate-free lists with the same elements are permutations of each other. */
  lemma SameElementsSameMultiset(xs: seq<nat>, ys: seq<nat>)
    requires forall j, k | 0 <= j < k < |xs| :: xs[j] != xs[k]
    requires forall j, k | 0 <= j < k < |ys| :: ys[j] != ys[k]
    requires forall i: nat :: i in xs <==> i in ys
    ensures multiset(xs) == multiset(ys)
  {
    forall i: nat
      ensures multiset(xs)[i] == multiset(ys)[i]
    {
      OnceInMultiset(xs, i);
      OnceInMultiset(ys, i);
    }
  }

  lemma {:induction false} OnceInMultiset(xs: seq<nat>, i: nat)
    requires forall j, k | 0 <= j < k < |xs| :: xs[j] != xs[k]
    ensures multiset(xs)[i] == if i in xs then 1 else 0
    decreases |xs|
  {
    if xs != [] {
      var init, last := xs[..|xs| - 1], xs[|xs| - 1];
      assert xs == init + [last];
      OnceInMultiset(init, i);
    }
  }

  lemma {:induction false} MappedMultiset(xs: seq<nat>, ys: seq<nat>, ids: seq<string>)
    requires multiset(xs) == multiset(ys)
    ensures multiset(Ids(xs, ids)) == multiset(Ids(ys, ids))
    decreases |xs|
  {
    if xs == [] {
      assert |ys| == |multiset(ys)| == 0;
    } else {
      var x := xs[|xs| - 1];
      var init := xs[..|xs| - 1];
      assert xs == init + [x];
      assert x in multiset(ys);
      var k :| 0 <= k < |ys| && ys[k] == x;
      var rest := ys[..k] + ys[k + 1..];
      RemoveOne(xs, ys, k, ids);
      MappedMultiset(init, rest, ids);
      assert Ids(xs, ids) == Ids(init, ids) + [IdOf(x, ids)];
    }
  }

  lemma CancelCommon(m: multiset<nat>, n: multiset<nat>, x: nat)
    requires m + multiset{x} == n + multiset{x}
    ensures m == n
  {
    assert m == m + multiset{x} - multiset{x};
    assert n == n + multiset{x} - multiset{x};
  }

  lemma RemoveOne(xs: seq<nat>, ys: seq<nat>, k: nat, ids: seq<string>)
    requires xs != [] && multiset(xs) == multiset(ys) && k < |ys| && ys[k] == xs[|xs| - 1]
    ensures multiset(xs[..|xs| - 1]) == multiset(ys[..k] + ys[k + 1..])
    ensures multiset(Ids(ys, ids)) == multiset(Ids(ys[..k] + ys[k + 1..], ids)) + multiset{IdOf(ys[k], ids)}
  {
    var a, c := ys[..k], ys[k + 1..];
    assert xs == xs[..|xs| - 1] + [ys[k]];
    assert ys == a + [ys[k]] + c;
    CancelCommon(multiset(xs[..|xs| - 1]), multiset(a + c), ys[k]);
    assert Ids(ys, ids) == Ids(a, ids) + [IdOf(ys[k], ids)] + Ids(c, ids);
    assert Ids(a + c, ids) == Ids(a, ids) + Ids(c, ids);
  }

  /** When the channel is closed it has carried exactly one result per request: the same multiset of ids. */
  lemma ExactlyOneResultPerRequest(ids: seq<string>, tokens: nat, steps: seq<Step>)
    requires Run(|ids|, tokens, steps).closer.Closed?
    ensures var sent := Run(|ids|, tokens, steps).sent;
      && (forall i: nat | i in sent :: i < |ids|)
      && multiset(Ids(sent, ids)) == multiset(ids)
  {
    EveryRunKeepsInv(|ids|, tokens, steps);
    ClosedMeansAllSent(|ids|, tokens, steps);
    var b := Run(|ids|, tokens, steps);
    var all := Positions(|ids|);
    forall i: nat
      ensures i in b.sent <==> i in all
    {
      if i < |ids| {
        assert all[i] == i;
      }
    }
    SameElementsSameMultiset(b.sent, all);
    MappedMultiset(b.sent, all, ids);
    assert Ids(all, ids) == ids;
  }

  /** Also before the end, no request has more than one result. */
  lemma NeverTwoResults(requests: nat, tokens: nat, steps: seq<Step>)
    ensures var sent := Run(requests, tokens, steps).sent;
      forall j, k | 0 <= j < k < |sent| :: sent[j] != sent[k]
  {
    EveryRunKeepsInv(requests, tokens, steps);
  }

  // ---------------------------------------------------------------- termination

  function Rank(pc: Pc): nat {
    match pc
    case Unborn => 8
    case Acquiring => 7
    case WaitingSlot => 6
    case Running => 5
    case Sending => 4
    case SendingError => 3
    case Releasing => 2
    case Finishing => 1
    case Finished => 0
  }

  function Measure(b: Batch): nat {
    Total(b.pcs, Rank)
    + (match b.closer case NotStarted => 2 case WaitingForAll => 1 case Closed => 0)
    + (if b.cancelled then 0 else 1)
  }

  predicate Progress(step: Step) {
    !step.Tick? && !step.TokenTaken?
  }

  lemma MovesDown(b: Batch, step: Step)
    requires SpawnInv(b) && Enabled(b, step) && Target(b, step).Some?
    ensures var (i, pc) := Target(b, step).value; i < |b.pcs| && Rank(pc) < Rank(b.pcs[i])
    ensures Progress(step) && Do(b, step).closer == b.closer && Do(b, step).cancelled == b.cancelled
  {
  }

  /** Every step but the limiter's own ones makes the measure smaller. */
  lemma ProgressDecreasesMeasure(b: Batch, step: Step)
    requires Inv(b) && Enabled(b, step)
    ensures Progress(step) ==> Measure(Do(b, step)) < Measure(b)
    ensures !Progress(step) ==> Measure(Do(b, step)) == Measure(b)
  {
    StepMovesTarget(b, step);
    var m := Target(b, step);
    if m.Some? {
      MovesDown(b, step);
      TotalUpdate(b.pcs, Rank, m.value.0, m.value.1);
    }
  }

  function ProgressCount(requests: nat, tokens: nat, steps: seq<Step>): nat {
    if steps == [] then 0
    else
      var b := Run(requests, tokens, steps[..|steps| - 1]);
      var last := steps[|steps| - 1];
      ProgressCount(requests, tokens, steps[..|steps| - 1])
      + if Enabled(b, last) && Progress(last) then 1 else 0
  }

  lemma {:induction false} StartRank(n: nat)
    ensures Total(seq(n, _ => Unborn), Rank) == 8 * n
  {
    if n > 0 {
      StartRank(n - 1);
      assert seq(n, _ => Unborn)[..n - 1] == seq(n - 1, _ => Unborn);
    }
  }

  /** So no schedule contains more than 8n + 3 goroutine steps for n requests. */
  lemma {:induction false} BoundedSteps(requests: nat, tokens: nat, steps: seq<Step>)
    ensures ProgressCount(requests, tokens, steps) + Measure(Run(requests, tokens, steps)) <= 8 * requests + 3
    decreases |steps|
  {
    if steps == [] {
      StartRank(requests);
    } else {
      var init, last := steps[..|steps| - 1], steps[|steps| - 1];
      BoundedSteps(requests, tokens, init);
      EveryRunKeepsInv(requests, tokens, init);
      if Enabled(Run(requests, tokens, init), last) {
        ProgressDecreasesMeasure(Run(requests, tokens, init), last);
      }
    }
  }

  /** The step is a goroutine's, and is enabled now or after the next refill. */
  predicate Unblocked(b: Batch, step: Step) {
    && Progress(step) && !step.Cancel?
    && (Enabled(b, step) || (b.tokens == 0 && Enabled(Do(b, Tick), step)))
  }

  lemma FindUnblocked(b: Batch) returns (step: Step)
    requires Inv(b) && !b.closer.Closed?
    ensures Unblocked(b, step) && (b.cancelled ==> Enabled(b, step))
  {
    if b.spawned < |b.pcs| {
      step := Spawn;
    } else if b.closer.NotStarted? {
      step := StartCloser;
    } else if b.wg == 0 {
      step := Close;
    } else if b.slots > 0 {
      var i := TotalWitness(b.pcs, HoldsSlot);
      step := if b.pcs[i].Running? then Complete(i) else if b.pcs[i].Sending? then Send(i) else Release(i);
    } else {
      var i := TotalWitness(b.pcs, Outstanding);
      TotalAtLeast(b.pcs, HoldsSlot, i);
      step := match b.pcs[i]
        case Acquiring => if b.cancelled then GiveUp(i) else GetToken(i)
        case WaitingSlot => GetSlot(i)
        case SendingError => Send(i)
        case _ => Done(i);
    }
  }

  /** The batch cannot get stuck: until the channel is closed some goroutine step is enabled, or becomes
      enabled with the next refill; after a cancellation no refill is needed. The caller is assumed to read the
      result channel. */
  lemma NeverStuck(requests: nat, tokens: nat, steps: seq<Step>)
    requires !Run(requests, tokens, steps).closer.Closed?
    ensures exists step :: Unblocked(Run(requests, tokens, steps), step)
    ensures var b := Run(requests, tokens, steps);
            b.cancelled ==> exists step :: Unblocked(b, step) && Enabled(b, step)
  {
    EveryRunKeepsInv(requests, tokens, steps);
    var step := FindUnblocked(Run(requests, tokens, steps));
  }

  // ---------------------------------------------------------------- the rate limit

  /** How many enabled steps of a run satisfy p. */
  function Happened(requests: nat, tokens: nat, steps: seq<Step>, p: Step -> bool): nat {
    if steps == [] then 0
    else
      var init, last := steps[..|steps| - 1], steps[|steps| - 1];
      Happened(requests, tokens, init, p) + if Enabled(Run(requests, tokens, init), last) && p(last) then 1 else 0
  }

  predicate PassesLimiter(step: Step) {
    step.GetToken?
  }

  predicate TakesToken(step: Step) {
    step.TokenTaken?
  }

  predicate Refills(step: Step) {
    step.Tick?
  }

  predicate StartsRequest(step: Step) {
    step.GetSlot?
  }

  function WaitsForSlot(pc: Pc): nat {
    if pc.WaitingSlot? then 1 else 0
  }

  lemma StepSpendsTokens(b: Batch, step: Step)
    ensures Try(b, step).tokens
            + (if Enabled(b, step) && PassesLimiter(step) then 1 else 0)
            + (if Enabled(b, step) && TakesToken(step) then 1 else 0)
         == b.tokens + (if Enabled(b, step) && Refills(step) then 1 else 0)
  {
  }

  /** Tokens are neither made nor lost: what is left, what requests and others took, against start and refills. */
  lemma {:induction false} TokensAreSpent(requests: nat, tokens: nat, steps: seq<Step>)
    ensures Run(requests, tokens, steps).tokens
            + Happened(requests, tokens, steps, PassesLimiter) + Happened(requests, tokens, steps, TakesToken)
         == tokens + Happened(requests, tokens, steps, Refills)
    decreases |steps|
  {
    if steps != [] {
      var init, last := steps[..|steps| - 1], steps[|steps| - 1];
      TokensAreSpent(requests, tokens, init);
      StepSpendsTokens(Run(requests, tokens, init), last);
    }
  }

  lemma {:induction false} StartTotal(n: nat, f: Pc -> nat)
    requires f(Unborn) == 0
    ensures Total(seq(n, _ => Unborn), f) == 0
  {
    if n > 0 {
      StartTotal(n - 1, f);
      assert seq(n, _ => Unborn)[..n - 1] == seq(n - 1, _ => Unborn);
    }
  }

  lemma StepMovesWaiting(b: Batch, step: Step)
    requires SpawnInv(b) && Enabled(b, step)
    ensures Total(Do(b, step).pcs, WaitsForSlot) + (if StartsRequest(step) then 1 else 0)
         == Total(b.pcs, WaitsForSlot) + (if PassesLimiter(step) then 1 else 0)
  {
    StepMovesTarget(b, step);
    var m := Target(b, step);
    if m.Some? {
      MovesDown(b, step);
      TotalUpdate(b.pcs, WaitsForSlot, m.value.0, m.value.1);
    }
  }

  /** Every request that starts has passed the limiter; those that have not started wait for a slot. */
  lemma {:induction false} StartedHavePassed(requests: nat, tokens: nat, steps: seq<Step>)
    ensures Happened(requests, tokens, steps, StartsRequest) + Total(Run(requests, tokens, steps).pcs, WaitsForSlot)
         == Happened(requests, tokens, steps, PassesLimiter)
    decreases |steps|
  {
    if steps == [] {
      StartTotal(requests, WaitsForSlot);
    } else {
      var init, last := steps[..|steps| - 1], steps[|steps| - 1];
      StartedHavePassed(requests, tokens, init);
      EveryRunKeepsInv(requests, tokens, init);
      if Enabled(Run(requests, tokens, init), last) {
        StepMovesWaiting(Run(requests, tokens, init), last);
      }
    }
  }

  /** So no more requests are started than there were tokens at the start and refills since. */
  lemma RequestsAreRateLimited(requests: nat, tokens: nat, steps: seq<Step>)
    ensures Happened(requests, tokens, steps, StartsRequest) <= Happened(requests, tokens, steps, PassesLimiter)
         <= tokens + Happened(requests, tokens, steps, Refills)
  {
    TokensAreSpent(requests, tokens, steps);
    StartedHavePassed(requests, tokens, steps);
  }

  /** Without a token, a refill or a cancellation no request gets anywhere. */
  lemma {:induction false} NothingWithoutTokens(requests: nat, steps: seq<Step>)
    requires forall step | step in steps :: !step.Tick? && !step.Cancel?
    ensures var b := Run(requests, 0, steps);
      b.tokens == 0 && !b.cancelled && b.sent == [] && forall pc | pc in b.pcs :: pc.Unborn? || pc.Acquiring?
    decreases |steps|
  {
    if steps != [] {
      var init, last := steps[..|steps| - 1], steps[|steps| - 1];
      assert steps == init + [last];
      NothingWithoutTokens(requests, init);
      var b := Run(requests, 0, init);
      if Enabled(b, last) {
        StepMovesTarget(b, last);
        assert forall i | 0 <= i < |b.pcs| :: b.pcs[i] in b.pcs;
      }
    }
  }
}
