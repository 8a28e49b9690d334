/** When a pass reaches the apply: the stored spec hash and the trigger policy, over whole runs of passes. */
module Trigger {
  import opened Common
  import opened Tables

  const RECONCILE_INTERVAL: int := 5 * MINUTE

  /** The interval text as time.ParseDuration sees it. */
  datatype Interval = Unset | Malformed | Duration(ns: int)

  datatype TriggerConfig = TriggerConfig(mode: string, interval: Interval, immediateOnCRChange: bool)

  /** The answer to listing the MultiNicOperators of the namespace. */
  datatype ConfigRead = ListFailed | Operators(configs: seq<TriggerConfig>)

  /** The first operator's configuration with its defaults; None when the list cannot be read. */
  function ReadConfig(r: ConfigRead): Option<TriggerConfig> {
    match r
    case ListFailed => None
    case Operators(configs) =>
      if configs == [] then Some(TriggerConfig("immediate", Unset, true))
      else
        var mode := if configs[0].mode == "" then "immediate" else configs[0].mode;
        Some(TriggerConfig(mode, configs[0].interval, mode == "immediate" || configs[0].immediateOnCRChange))
  }

  /** The reconciler falls back to manual mode when the configuration cannot be read. */
  function EffectiveConfig(r: ConfigRead): TriggerConfig {
    match ReadConfig(r)
    case Some(c) => c
    case None => TriggerConfig("manual", Unset, true)
  }

  /** 0 for no usable interval, otherwise at least one minute. */
  function ParseInterval(i: Interval): (d: int)
    ensures d == 0 || d >= MINUTE
    ensures d == 0 <==> !i.Duration?
  {
    match i
    case Duration(ns) => if ns < MINUTE then MINUTE else ns
    case _ => 0
  }

  function IntervalOrDefault(i: Interval): (d: int)
    ensures d >= MINUTE
  {
    if ParseInterval(i) > 0 then ParseInterval(i) else RECONCILE_INTERVAL
  }

  /** Whether to go on, and the requeue delay when not. */
  function ShouldReconcile(c: TriggerConfig, changed: bool): (r: (bool, int))
    ensures !r.0 ==> r.1 >= MINUTE
  {
    if changed && c.immediateOnCRChange then (true, 0)
    else if c.mode == "manual" then (if changed then (true, 0) else (false, 24 * HOUR))
    else if c.mode == "scheduled" then (!changed, IntervalOrDefault(c.interval))
    else if changed then (true, 0)
    else (false, 24 * HOUR)
  }

  function NextInterval(c: TriggerConfig): (d: int)
    ensures d >= MINUTE
  {
    if c.mode == "scheduled" then IntervalOrDefault(c.interval)
    else if c.mode == "manual" then 24 * HOUR
    else RECONCILE_INTERVAL
  }

  /** Scheduled mode keeps one period, whether a pass runs or waits for its turn: the configured interval
      when it is a duration of at least a minute, one minute when it is shorter, else five minutes. */
  lemma ScheduledPeriod(c: TriggerConfig)
    requires c.mode == "scheduled"
    ensures NextInterval(c) ==
      if !c.interval.Duration? then 5 * MINUTE else if c.interval.ns >= MINUTE then c.interval.ns else MINUTE
    ensures ShouldReconcile(c, false) == (true, NextInterval(c))
    ensures ShouldReconcile(c, true) == if c.immediateOnCRChange then (true, 0) else (false, NextInterval(c))
  {
  }

  /** An unreadable list falls back to manual, no operator to immediate; otherwise the first operator decides, an
      empty mode is immediate, and immediate always applies changes at once. */
  lemma ConfigDefaults(r: ConfigRead)
    ensures r.ListFailed? ==>
      ReadConfig(r) == None && EffectiveConfig(r).mode == "manual" && EffectiveConfig(r).immediateOnCRChange
    ensures r.Operators? ==> ReadConfig(r) == Some(EffectiveConfig(r))
    ensures r.Operators? && r.configs == [] ==>
      EffectiveConfig(r).mode == "immediate" && EffectiveConfig(r).immediateOnCRChange
    ensures r.Operators? && r.configs != [] ==>
      var first, c := r.configs[0], EffectiveConfig(r);
      && c.interval == first.interval
      && c.mode == (if first.mode == "" then "immediate" else first.mode)
      && (c.immediateOnCRChange <==> first.immediateOnCRChange || c.mode == "immediate")
  {
  }

  /** The scheduled period in nanoseconds: the configured duration, a minute when it is shorter, five minutes
      without one. */
  function Period(i: Interval): int {
    if !i.Duration? then 300_000_000_000 else if i.ns < 60_000_000_000 then 60_000_000_000 else i.ns
  }

  /** When a pass goes on, and how long one that does not has to wait. */
  lemma PolicyIs(c: TriggerConfig, changed: bool)
    ensures ShouldReconcile(c, changed).0 <==>
      if c.mode == "scheduled" then !changed || c.immediateOnCRChange else changed
    ensures !ShouldReconcile(c, changed).0 ==>
      ShouldReconcile(c, changed).1 == if c.mode == "scheduled" then Period(c.interval) else 86_400_000_000_000
  {
  }

  /** How long a pass that went on has to wait for the next. */
  lemma NextIntervalIs(c: TriggerConfig)
    ensures NextInterval(c) ==
      if c.mode == "scheduled" then Period(c.interval)
      else if c.mode == "manual" then 86_400_000_000_000 else 300_000_000_000
  {
  }

  // ---------------------------------------------------------------- the stored hash

  /** How the hash statements can go wrong. WriteLost: the row is written but the answer is an error. */
  datatype HashFault = NoFault | QueryFails | WriteFails | WriteLost

  /** One CR's hash step: the new stored hash, and whether the spec changed (None on an error). */
  function HashStep(stored: Option<Spec>, spec: Spec, fault: HashFault): (Option<Spec>, Option<bool>) {
    if fault.QueryFails? then (stored, None)
    else if stored == Some(spec) then (stored, Some(false))
    else match fault
      case WriteFails => (stored, None)
      case WriteLost => (Some(spec), None)
      case _ => (Some(spec), Some(true))
  }

  /** The step answers when the query does and, for a new spec, the write does; it then says whether the spec is
      new. The spec is stored when it was before, or a write took effect, answered or not. */
  lemma HashStepIs(stored: Option<Spec>, spec: Spec, fault: HashFault)
    ensures var (after, changed) := HashStep(stored, spec, fault);
      && (changed.Some? <==> !fault.QueryFails? && (stored == Some(spec) || fault.NoFault?))
      && (changed.Some? ==> changed.value == (stored != Some(spec)))
      && (after == if fault.NoFault? || fault.WriteLost? then Some(spec) else stored)
  {
  }

  /** One pass over the CR, as far as the policy is concerned. */
  datatype Pass = Pass(spec: Spec, fault: HashFault, config: ConfigRead)

  predicate HashCompleted(stored: Option<Spec>, p: Pass) {
    HashStep(stored, p.spec, p.fault).1.Some?
  }

  /** The hash was replaced although the pass saw an error. */
  predicate HashLost(stored: Option<Spec>, p: Pass) {
    HashStep(stored, p.spec, p.fault).1.None? && HashStep(stored, p.spec, p.fault).0 != stored
  }

  /** The pass gets to the OpenStack calls and the transaction. */
  predicate Attempts(stored: Option<Spec>, p: Pass) {
    var changed := HashStep(stored, p.spec, p.fault).1;
    changed.Some? && ShouldReconcile(EffectiveConfig(p.config), changed.value).0
  }

  function StoredAfter(stored: Option<Spec>, run: seq<Pass>): Option<Spec> {
    if run == [] then stored
    else
      var last := run[|run| - 1];
      HashStep(StoredAfter(stored, run[..|run| - 1]), last.spec, last.fault).0
  }

  function StoredAt(stored: Option<Spec>, run: seq<Pass>, k: nat): Option<Spec>
    requires k <= |run|
  {
    StoredAfter(stored, run[..k])
  }

  lemma {:induction false} HashStaysWhileSpecStays(stored: Option<Spec>, run: seq<Pass>, i: nat, j: nat)
    requires i < j < |run|
    requires HashCompleted(StoredAt(stored, run, i), run[i])
    requires forall k | i <= k < j :: run[k].spec == run[i].spec
    ensures StoredAt(stored, run, j) == Some(run[i].spec)
    decreases j
  {
    assert run[..j][..j - 1] == run[..j - 1];
    if j > i + 1 {
      HashStaysWhileSpecStays(stored, run, i, j - 1);
    }
  }

  /** After a pass has recorded a spec, later passes over the same spec reach the apply again exactly in
      mode "scheduled": there no change and no failed apply is lost, whatever immediateOnCRChange says. In
      every other mode nothing is retried. */
  lemma RetriedIffScheduled(stored: Option<Spec>, run: seq<Pass>, i: nat, j: nat)
    requires i < j < |run|
    requires HashCompleted(StoredAt(stored, run, i), run[i])
    requires forall k | i <= k <= j :: run[k].spec == run[i].spec
    ensures Attempts(StoredAt(stored, run, j), run[j]) <==>
              HashCompleted(StoredAt(stored, run, j), run[j]) && EffectiveConfig(run[j].config).mode == "scheduled"
  {
    HashStaysWhileSpecStays(stored, run, i, j);
  }

  /** A spec that a scheduled pass skips is applied by the next scheduled pass that sees it. */
  lemma ScheduledSkipIsPostponed(stored: Option<Spec>, run: seq<Pass>, i: nat)
    requires i + 1 < |run| && run[i + 1].spec == run[i].spec
    requires HashCompleted(StoredAt(stored, run, i), run[i]) && !Attempts(StoredAt(stored, run, i), run[i])
    requires EffectiveConfig(run[i].config).mode == "scheduled"
    requires HashCompleted(StoredAt(stored, run, i + 1), run[i + 1])
    requires EffectiveConfig(run[i + 1].config).mode == "scheduled"
    ensures Attempts(StoredAt(stored, run, i + 1), run[i + 1])
    ensures ShouldReconcile(EffectiveConfig(run[i].config), true)
         == (false, IntervalOrDefault(EffectiveConfig(run[i].config).interval))
  {
    RetriedIffScheduled(stored, run, i, i + 1);
  }

  // ---------------------------------------------------------------- counting applies

  function AttemptCount(stored: Option<Spec>, run: seq<Pass>): nat {
    if run == [] then 0
    else
      var init := run[..|run| - 1];
      AttemptCount(stored, init)
      + if Attempts(StoredAfter(stored, init), run[|run| - 1]) then 1 else 0
  }

  function LostCount(stored: Option<Spec>, run: seq<Pass>): nat {
    if run == [] then 0
    else
      var init := run[..|run| - 1];
      LostCount(stored, init)
      + if HashLost(StoredAfter(stored, init), run[|run| - 1]) then 1 else 0
  }

  /** The specs that reached the hash table, in order. */
  function Recorded(stored: Option<Spec>, run: seq<Pass>): seq<Spec> {
    if run == [] then []
    else
      var init, last := run[..|run| - 1], run[|run| - 1];
      var before := StoredAfter(stored, init);
      Recorded(stored, init) + if HashCompleted(before, last) || HashLost(before, last) then [last.spec] else []
  }

  /** One for the first sight and one for every adjacent pair that differs. */
  function Changes(specs: seq<Spec>): nat {
    if specs == [] then 0
    else
      Changes(specs[..|specs| - 1])
      + if |specs| == 1 || specs[|specs| - 2] != specs[|specs| - 1] then 1 else 0
  }

  lemma ChangesSnoc(specs: seq<Spec>, s: Spec)
    ensures Changes(specs + [s]) == Changes(specs) + if specs == [] || specs[|specs| - 1] != s then 1 else 0
  {
    var all := specs + [s];
    assert all[..|all| - 1] == specs && all[|all| - 1] == s;
    if specs != [] {
      assert all[|all| - 2] == specs[|specs| - 1];
    }
  }

  lemma {:induction false} StoredIsLastRecorded(run: seq<Pass>)
    ensures var r := Recorded(None, run);
            StoredAfter(None, run) == if r == [] then None else Some(r[|r| - 1])
    decreases |run|
  {
    if run != [] {
      StoredIsLastRecorded(run[..|run| - 1]);
    }
  }

  /** Outside scheduled mode a pass attempts or loses exactly when it records a different spec. */
  lemma AttemptOrLost(before: Option<Spec>, p: Pass)
    requires EffectiveConfig(p.config).mode != "scheduled"
    ensures (if Attempts(before, p) then 1 else 0) + (if HashLost(before, p) then 1 else 0)
         == if (HashCompleted(before, p) || HashLost(before, p)) && before != Some(p.spec) then 1 else 0
  {
  }

  /** Outside scheduled mode, over the passes of one CR's lifetime: applies plus lost hash answers equal
      one for the first sight plus the adjacent recorded specs that differ. */
  lemma {:induction false} ManualAppliesOncePerChange(run: seq<Pass>)
    requires forall p | p in run :: EffectiveConfig(p.config).mode != "scheduled"
    ensures AttemptCount(None, run) + LostCount(None, run) == Changes(Recorded(None, run))
    decreases |run|
  {
    if run != [] {
      var init, last := run[..|run| - 1], run[|run| - 1];
      assert run == init + [last];
      ManualAppliesOncePerChange(init);
      StoredIsLastRecorded(init);
      var before := StoredAfter(None, init);
      ChangesSnoc(Recorded(None, init), last.spec);
      assert EffectiveConfig(last.config).mode != "scheduled";
      AttemptOrLost(before, last);
      if !HashCompleted(before, last) && !HashLost(before, last) {
        assert Recorded(None, run) == Recorded(None, init);
      }
    }
  }

  lemma {:induction false} NoLostAnswers(stored: Option<Spec>, run: seq<Pass>)
    requires forall p | p in run :: p.fault != WriteLost
    ensures LostCount(stored, run) == 0
    decreases |run|
  {
    if run != [] {
      assert run == run[..|run| - 1] + [run[|run| - 1]];
      NoLostAnswers(stored, run[..|run| - 1]);
    }
  }

  /** Without lost answers the applies are exactly the changes. */
  lemma ManualAppliesEqualChanges(run: seq<Pass>)
    requires forall p | p in run :: EffectiveConfig(p.config).mode != "scheduled" && p.fault != WriteLost
    ensures AttemptCount(None, run) == Changes(Recorded(None, run))
  {
    ManualAppliesOncePerChange(run);
    NoLostAnswers(None, run);
  }
}
