/** The pool of OpenStack clients under any interleaving of Get and Put. Each step is one atomic action of
    one goroutine: a channel operation, taking the mutex, the size check, the factory call, the count. */
module ClientPool {
  import opened Common

  /** Where a Get call is after it found no idle client. */
  datatype Getting =
    | Waiting          // for the mutex
    | Locked           // holds the mutex, before the size check
    | Creating         // holds the mutex, inside the factory
    | Made(client: nat)  // holds the mutex, the client not yet counted
    | Blocked          // holds the mutex, receiving from the channel

  /** `clients` is the buffered channel, `held` what callers have got and not put back; the factory returns
      a client it has not returned before. */
  datatype Pool = Pool(
    maxSize: nat, clients: seq<nat>, created: nat, mutex: Option<nat>, getters: map<nat, Getting>,
    held: set<nat>, nextClient: nat, discarded: nat)

  datatype Step =
    | TryReceive(t: nat)
    | Lock(t: nat)
    | CheckSize(t: nat)
    | FactoryOk(t: nat)
    | FactoryError(t: nat)
    | Count(t: nat)
    | Receive(t: nat)
    | Put(client: nat)

  function NewClientPool(maxSize: nat): Pool {
    Pool(maxSize, [], 0, None, map[], {}, 0, 0)
  }

  predicate At(s: Pool, t: nat, g: Getting) {
    t in s.getters && s.getters[t] == g
  }

  /** The oldest idle client goes to a caller. */
  function Take(s: Pool): Pool
    requires s.clients != []
  {
    s.(clients := s.clients[1..], held := s.held + {s.clients[0]})
  }

  /** Get returns: the deferred unlock runs. */
  function Leave(s: Pool, t: nat): Pool {
    s.(mutex := None, getters := s.getters - {t})
  }

  /** One step; a step that is not enabled changes nothing. */
  function Do(s: Pool, step: Step): Pool {
    match step
    case TryReceive(t) =>
      if t in s.getters then s
      else if s.clients != [] then Take(s)
      else s.(getters := s.getters[t := Waiting])
    case Lock(t) =>
      if At(s, t, Waiting) && s.mutex.None? then s.(mutex := Some(t), getters := s.getters[t := Locked]) else s
    case CheckSize(t) =>
      if !At(s, t, Locked) then s
      else s.(getters := s.getters[t := if s.created < s.maxSize then Creating else Blocked])
    case FactoryOk(t) =>
      if !At(s, t, Creating) then s
      else s.(getters := s.getters[t := Made(s.nextClient)], nextClient := s.nextClient + 1)
    case FactoryError(t) =>
      if !At(s, t, Creating) then s else Leave(s, t)
    case Count(t) =>
      if t in s.getters && s.getters[t].Made? then
        Leave(s.(created := s.created + 1, held := s.held + {s.getters[t].client}), t)
      else s
    case Receive(t) =>
      if At(s, t, Blocked) && s.clients != [] then Leave(Take(s), t) else s
    case Put(c) =>
      if c !in s.held then s
      else if |s.clients| < s.maxSize then s.(held := s.held - {c}, clients := s.clients + [c])
      else s.(held := s.held - {c}, discarded := s.discarded + 1)
  }

  function RunFrom(s: Pool, steps: seq<Step>): Pool {
    if steps == [] then s else Do(RunFrom(s, steps[..|steps| - 1]), steps[|steps| - 1])
  }

  function Run(maxSize: nat, steps: seq<Step>): Pool {
    RunFrom(NewClientPool(maxSize), steps)
  }

  // ---------------------------------------------------------------- the invariant

  ghost predicate Distinct(xs: seq<nat>) {
    forall i, j | 0 <= i < j < |xs| :: xs[i] != xs[j]
  }

  /** Exactly the mutex holder is past Waiting. */
  ghost predicate MutexInv(s: Pool) {
    && (s.mutex.Some? ==> s.mutex.value in s.getters && s.getters[s.mutex.value] != Waiting)
    && (forall t | t in s.getters && s.getters[t] != Waiting :: s.mutex == Some(t))
  }

  ghost predicate ClientsInv(s: Pool) {
    && Distinct(s.clients)
    && (forall c | c in s.clients :: c !in s.held && c < s.nextClient)
    && (forall c | c in s.held :: c < s.nextClient)
    && |s.clients| + |s.held| == s.created
    && s.created <= s.maxSize
    && s.discarded == 0
  }

  ghost predicate HolderInv(s: Pool) {
    s.mutex.Some? && s.mutex.value in s.getters ==>
      match s.getters[s.mutex.value]
      case Creating => s.created < s.maxSize
      case Made(c) => s.created < s.maxSize && c < s.nextClient && c !in s.clients && c !in s.held
      case Blocked => s.created == s.maxSize
      case _ => true
  }

  ghost predicate Inv(s: Pool) {
    MutexInv(s) && ClientsInv(s) && HolderInv(s)
  }

  lemma TakeKeepsClients(s: Pool)
    requires ClientsInv(s) && s.clients != []
    ensures ClientsInv(Take(s))
  {
    var c := s.clients[0];
    assert s.clients == [c] + s.clients[1..];
    assert c in s.clients;
  }

  lemma PutKeepsClients(s: Pool, c: nat)
    requires ClientsInv(s) && c in s.held
    ensures |s.clients| < s.maxSize && ClientsInv(Do(s, Put(c)))
  {
    assert s.held == (s.held - {c}) + {c};
    assert |s.held| == |s.held - {c}| + 1;
  }

  lemma ReceiveKeepsInv(s: Pool, t: nat)
    requires Inv(s)
    ensures Inv(Do(s, TryReceive(t))) && Inv(Do(s, Receive(t)))
  {
    if s.clients != [] {
      TakeKeepsClients(s);
    }
  }

  /** Taking the mutex, the size check and the factory call move no client. */
  lemma LockedStepKeepsInv(s: Pool, step: Step)
    requires Inv(s) && (step.Lock? || step.CheckSize? || step.FactoryOk? || step.FactoryError?)
    ensures Inv(Do(s, step))
  {
  }

  lemma CountKeepsInv(s: Pool, t: nat)
    requires Inv(s)
    ensures Inv(Do(s, Count(t)))
  {
  }

  lemma PutKeepsInv(s: Pool, c: nat)
    requires Inv(s)
    ensures Inv(Do(s, Put(c)))
  {
    if c in s.held {
      PutKeepsClients(s, c);
    }
  }

  lemma MaxSizeStays(s: Pool, step: Step)
    ensures Do(s, step).maxSize == s.maxSize
  {
  }

  lemma {:induction false} StepKeepsInv(s: Pool, step: Step)
    requires Inv(s)
    ensures Inv(Do(s, step)) && Do(s, step).maxSize == s.maxSize
  {
    MaxSizeStays(s, step);
    match step
    case TryReceive(t) => ReceiveKeepsInv(s, t);
    case Receive(t) => ReceiveKeepsInv(s, t);
    case Count(t) => CountKeepsInv(s, t);
    case Put(c) => PutKeepsInv(s, c);
    case _ => LockedStepKeepsInv(s, step);
  }

  lemma {:induction false} RunKeepsInv(s: Pool, steps: seq<Step>)
    requires Inv(s)
    ensures Inv(RunFrom(s, steps)) && RunFrom(s, steps).maxSize == s.maxSize
    decreases |steps|
  {
    if steps != [] {
      RunKeepsInv(s, steps[..|steps| - 1]);
      StepKeepsInv(RunFrom(s, steps[..|steps| - 1]), steps[|steps| - 1]);
    }
  }

  lemma EveryRunKeepsInv(maxSize: nat, steps: seq<Step>)
    ensures Inv(Run(maxSize, steps)) && Run(maxSize, steps).maxSize == maxSize
  {
    RunKeepsInv(NewClientPool(maxSize), steps);
  }

  // ---------------------------------------------------------------- what callers can rely on

  /** In every reachable state: never more clients than the maximum, every created client is either idle or
      held, none is in two places, and no Put has discarded a client. */
  lemma PoolIsConserved(maxSize: nat, steps: seq<Step>)
    ensures var s := Run(maxSize, steps);
      && s.created <= maxSize
      && |s.clients| + |s.held| == s.created
      && Distinct(s.clients) && (forall c | c in s.clients :: c !in s.held)
      && s.discarded == 0
  {
    EveryRunKeepsInv(maxSize, steps);
  }

  /** A Get that hands out a client, at once, after waiting or newly made, hands out one that nobody holds. */
  lemma HandedOutClientsAreFree(maxSize: nat, steps: seq<Step>, step: Step)
    ensures var s := Run(maxSize, steps);
      step.TryReceive? && step.t !in s.getters && s.clients != [] ==> s.clients[0] !in s.held
    ensures var s := Run(maxSize, steps);
      step.Receive? && At(s, step.t, Blocked) && s.clients != [] ==> s.clients[0] !in s.held
    ensures var s := Run(maxSize, steps);
      step.Count? && step.t in s.getters && s.getters[step.t].Made? ==> s.getters[step.t].client !in s.held
  {
    EveryRunKeepsInv(maxSize, steps);
    var s := Run(maxSize, steps);
    if s.clients != [] {
      assert s.clients[0] in s.clients;
    }
  }

  /** With room for at least one client, a Get that waits inside the mutex on an empty channel always has a
      holder, and that holder's Put, which needs no mutex, lets it return. */
  lemma BlockedGetCanBeServed(maxSize: nat, steps: seq<Step>, t: nat)
    requires maxSize > 0 && At(Run(maxSize, steps), t, Blocked) && Run(maxSize, steps).clients == []
    ensures var s := Run(maxSize, steps);
      exists c | c in s.held ::
        var s' := Do(Do(s, Put(c)), Receive(t));
        t !in s'.getters && s'.mutex.None? && c in s'.held
  {
    EveryRunKeepsInv(maxSize, steps);
    var s := Run(maxSize, steps);
    assert |s.held| == maxSize;
    var c :| c in s.held;
    var s1 := Do(s, Put(c));
    assert s1.clients == [c];
    var s' := Do(s1, Receive(t));
    assert t !in s'.getters && s'.mutex.None? && c in s'.held;
  }

  lemma EmptyPoolStaysBlocked(s: Pool, step: Step, t: nat)
    requires Inv(s) && s.maxSize == 0 && At(s, t, Blocked)
    ensures At(Do(s, step), t, Blocked)
  {
    assert s.clients == [] && s.held == {};
  }

  lemma {:induction false} EmptyPoolRunStaysBlocked(s: Pool, more: seq<Step>, t: nat)
    requires Inv(s) && s.maxSize == 0 && At(s, t, Blocked)
    ensures At(RunFrom(s, more), t, Blocked)
    decreases |more|
  {
    if more != [] {
      var init := more[..|more| - 1];
      EmptyPoolRunStaysBlocked(s, init, t);
      RunKeepsInv(s, init);
      EmptyPoolStaysBlocked(RunFrom(s, init), more[|more| - 1], t);
    }
  }

  /** With room for none, such a Get can never return: no client exists to be put back. */
  lemma EmptyPoolNeverServes(steps: seq<Step>, more: seq<Step>, t: nat)
    requires At(Run(0, steps), t, Blocked)
    ensures At(RunFrom(Run(0, steps), more), t, Blocked)
  {
    EveryRunKeepsInv(0, steps);
    EmptyPoolRunStaysBlocked(Run(0, steps), more, t);
  }

  // ---------------------------------------------------------------- what each step of a Get does

  /** A Get with an idle client takes the oldest at once, without the mutex; otherwise it waits for the mutex. */
  lemma IdleClientIsTaken(s: Pool, t: nat)
    requires t !in s.getters
    ensures var s' := Do(s, TryReceive(t));
      && s'.mutex == s.mutex && s'.created == s.created
      && if s.clients != [] then
           t !in s'.getters && s'.held == s.held + {s.clients[0]} && s'.clients == s.clients[1..]
         else At(s', t, Waiting) && s'.held == s.held && s'.clients == []
  {
  }

  /** A waiting Get can take the mutex exactly when it is free. */
  lemma WaitingGetLocks(s: Pool, t: nat)
    requires At(s, t, Waiting)
    ensures At(Do(s, Lock(t)), t, Locked) <==> s.mutex.None?
    ensures s.mutex.None? ==> Do(s, Lock(t)).mutex == Some(t)
  {
  }

  /** Below the maximum the Get creates a client, at the maximum it waits for one. */
  lemma SizeDecides(s: Pool, t: nat)
    requires At(s, t, Locked)
    ensures At(Do(s, CheckSize(t)), t, if s.created < s.maxSize then Creating else Blocked)
    ensures var s' := Do(s, CheckSize(t)); s'.created == s.created && s'.held == s.held && s'.mutex == s.mutex
  {
  }

  /** A factory error ends the Get without a client and frees the mutex; nothing is counted. */
  lemma FactoryErrorEndsGet(s: Pool, t: nat)
    requires At(s, t, Creating)
    ensures var s' := Do(s, FactoryError(t));
      t !in s'.getters && s'.mutex.None? && s'.created == s.created && s'.held == s.held && s'.clients == s.clients
  {
  }

  /** A new client is counted once and handed out, and the mutex is free again. */
  lemma NewClientIsHandedOut(s: Pool, t: nat)
    requires At(s, t, Creating)
    ensures var c := s.nextClient; var s' := Do(Do(s, FactoryOk(t)), Count(t));
      && t !in s'.getters && s'.mutex.None? && s'.created == s.created + 1
      && s'.held == s.held + {c} && s'.clients == s.clients
  {
  }

  /** A Put makes a held client the newest idle one. */
  lemma PutMakesIdle(maxSize: nat, steps: seq<Step>, c: nat)
    requires c in Run(maxSize, steps).held
    ensures var s := Run(maxSize, steps); var s' := Do(s, Put(c));
      s'.clients == s.clients + [c] && s'.held == s.held - {c} && s'.mutex == s.mutex && s'.getters == s.getters
  {
    EveryRunKeepsInv(maxSize, steps);
    PutKeepsClients(Run(maxSize, steps), c);
  }
}
