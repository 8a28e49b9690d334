/** getHTTPClient: the double-checked initialisation under a reader/writer lock, one atomic step at a time,
    for any number of callers. */
module HttpClient {
  import opened Common

  datatype Pc =
    | FastCheck    // holds the read lock
    | FastReturn   // holds the read lock, saw a client
    | Upgrade      // saw none, holds nothing
    | SlowCheck    // holds the write lock
    | Build        // holds the write lock, saw none
    | SlowReturn   // holds the write lock

  /** `field` is r.HTTPClient; `built` counts constructions and names the clients; `returned` is what the
      callers got. */
  datatype State = State(
    field: Option<nat>, built: nat, readers: set<nat>, writer: Option<nat>, callers: map<nat, Pc>,
    returned: seq<Option<nat>>)

  datatype Step = Call(t: nat) | Advance(t: nat)

  function Initial(): State {
    State(None, 0, {}, None, map[], [])
  }

  function Goto(s: State, t: nat, pc: Pc): State {
    s.(callers := s.callers[t := pc])
  }

  function Do(s: State, step: Step): State {
    match step
    case Call(t) =>
      if t in s.callers || s.writer.Some? then s
      else Goto(s.(readers := s.readers + {t}), t, FastCheck)
    case Advance(t) =>
      if t !in s.callers then s
      else match s.callers[t]
        case FastCheck =>
          if s.field.Some? then Goto(s, t, FastReturn)
          else Goto(s.(readers := s.readers - {t}), t, Upgrade)
        case FastReturn =>
          s.(returned := s.returned + [s.field], readers := s.readers - {t}, callers := s.callers - {t})
        case Upgrade =>
          if s.writer.None? && s.readers == {} then Goto(s.(writer := Some(t)), t, SlowCheck) else s
        case SlowCheck =>
          Goto(s, t, if s.field.Some? then SlowReturn else Build)
        case Build =>
          Goto(s.(field := Some(s.built), built := s.built + 1), t, SlowReturn)
        case SlowReturn =>
          s.(returned := s.returned + [s.field], writer := None, callers := s.callers - {t})
  }

  function Run(steps: seq<Step>): State {
    if steps == [] then Initial() else Do(Run(steps[..|steps| - 1]), steps[|steps| - 1])
  }

  predicate Reads(pc: Pc) {
    pc.FastCheck? || pc.FastReturn?
  }

  predicate Writes(pc: Pc) {
    pc.SlowCheck? || pc.Build? || pc.SlowReturn?
  }

  ghost predicate LockInv(s: State) {
    && (forall t | t in s.callers && Reads(s.callers[t]) :: t in s.readers)
    && (forall t | t in s.callers && Writes(s.callers[t]) :: s.writer == Some(t))
    && (s.writer.Some? ==> s.readers == {})
    && (forall t | t in s.callers ::
          && (s.callers[t].Build? ==> s.field.None?)
          && (s.callers[t].FastReturn? || s.callers[t].SlowReturn? ==> s.field.Some?))
    && s.built == (if s.field.Some? then 1 else 0)
    && (forall r | r in s.returned :: r.Some? && r == s.field)
  }

  lemma StepKeepsInv(s: State, step: Step)
    requires LockInv(s)
    ensures LockInv(Do(s, step))
    ensures s.field.Some? ==> Do(s, step).field == s.field
  {
  }

  lemma {:induction false} EveryRunKeepsInv(steps: seq<Step>)
    ensures LockInv(Run(steps))
    decreases |steps|
  {
    if steps != [] {
      EveryRunKeepsInv(steps[..|steps| - 1]);
      StepKeepsInv(Run(steps[..|steps| - 1]), steps[|steps| - 1]);
    }
  }

  lemma FieldSurvivesStep(steps: seq<Step>)
    requires steps != [] && Run(steps[..|steps| - 1]).field.Some?
    ensures Run(steps).field == Run(steps[..|steps| - 1]).field
  {
    EveryRunKeepsInv(steps[..|steps| - 1]);
    StepKeepsInv(Run(steps[..|steps| - 1]), steps[|steps| - 1]);
  }

  lemma {:induction false} FieldIsStable(steps: seq<Step>, more: seq<Step>)
    requires Run(steps).field.Some?
    ensures Run(steps + more).field == Run(steps).field
    decreases |more|
  {
    var all := steps + more;
    if more == [] {
      assert all == steps;
    } else {
      var init := more[..|more| - 1];
      FieldIsStable(steps, init);
      assert all[..|all| - 1] == steps + init;
      FieldSurvivesStep(all);
    }
  }

  /** Under every interleaving: at most one client is built, the field never changes once set, and all
      callers, earlier and later ones, return that same client. */
  lemma OneClientForAll(steps: seq<Step>, more: seq<Step>)
    ensures Run(steps).built <= 1
    ensures Run(steps).field.Some? ==> Run(steps + more).field == Run(steps).field
    ensures forall a, b | a in Run(steps).returned && b in Run(steps + more).returned :: a == b && a.Some?
  {
    EveryRunKeepsInv(steps);
    EveryRunKeepsInv(steps + more);
    if Run(steps).field.Some? {
      FieldIsStable(steps, more);
    }
  }

  // ---------------------------------------------------------------- progress

  /** Steps a call has still to make. */
  function Rank(pc: Pc): nat {
    match pc
    case FastCheck => 5
    case Upgrade => 4
    case SlowCheck => 3
    case Build => 2
    case SlowReturn => 1
    case FastReturn => 1
  }

  /** Every step that a caller makes brings it nearer to its return. */
  lemma AdvanceComesNearer(s: State, t: nat)
    requires t in s.callers
    ensures var s' := Do(s, Advance(t));
      s' == s || t !in s'.callers || Rank(s'.callers[t]) < Rank(s.callers[t])
  {
  }

  predicate CanAdvance(s: State, t: nat) {
    t in s.callers && Do(s, Advance(t)) != s
  }

  lemma HolderCanAdvance(s: State, t: nat)
    requires t in s.callers && !s.callers[t].Upgrade?
    ensures CanAdvance(s, t)
  {
    assert t !in (s.callers - {t});
    assert s.callers[t] != Upgrade;
  }

  /** Both locks are held only by callers that are about to use them. */
  ghost predicate LocksAreUsed(s: State) {
    && (forall t | t in s.readers :: t in s.callers && Reads(s.callers[t]))
    && (s.writer.Some? ==> s.writer.value in s.callers && Writes(s.callers[s.writer.value]))
  }

  lemma StepKeepsLocksUsed(s: State, step: Step)
    requires LockInv(s) && LocksAreUsed(s)
    ensures LocksAreUsed(Do(s, step))
  {
  }

  lemma {:induction false} LocksAreAlwaysUsed(steps: seq<Step>)
    ensures LocksAreUsed(Run(steps))
    decreases |steps|
  {
    if steps != [] {
      var init := steps[..|steps| - 1];
      LocksAreAlwaysUsed(init);
      EveryRunKeepsInv(init);
      StepKeepsLocksUsed(Run(init), steps[|steps| - 1]);
    }
  }

  /** No deadlock: while there are callers, one of them can make a step. */
  lemma SomeCallerCanAdvance(steps: seq<Step>)
    requires Run(steps).callers != map[]
    ensures exists t :: CanAdvance(Run(steps), t)
  {
    var s := Run(steps);
    EveryRunKeepsInv(steps);
    LocksAreAlwaysUsed(steps);
    if s.writer.Some? {
      HolderCanAdvance(s, s.writer.value);
    } else if s.readers != {} {
      var t :| t in s.readers;
      HolderCanAdvance(s, t);
    } else {
      var t :| t in s.callers;
      if !s.callers[t].Upgrade? {
        HolderCanAdvance(s, t);
      } else {
        assert Do(s, Advance(t)).writer == Some(t);
        assert CanAdvance(s, t);
      }
    }
  }

  /** A call that returns hands over the field. */
  lemma ReturnsTheField(s: State, t: nat)
    requires t in s.callers && (s.callers[t].FastReturn? || s.callers[t].SlowReturn?)
    ensures Do(s, Advance(t)).returned == s.returned + [s.field] && t !in Do(s, Advance(t)).callers
  {
  }
}
