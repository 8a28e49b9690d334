/** The event filter: which events of an object reach the reconciler, and how far apart the timer lets them be. */
module Timer {
  import opened Common
  import Trigger

  /** One event offered to the timer: the object, the configuration read for it, and the two clock readings,
      one compared with the last admission and a later one stored. */
  datatype Event = Event(namespace: string, name: string, config: Trigger.ConfigRead, check: int, stamp: int)

  function Key(namespace: string, name: string): string {
    namespace + "/" + name
  }

  lemma FirstSlash(namespace: string, name: string)
    requires '/' !in namespace
    ensures var k := Key(namespace, name);
      k[|namespace|] == '/' && k[..|namespace|] == namespace && k[|namespace| + 1..] == name
      && forall i | 0 <= i < |namespace| :: k[i] != '/'
  {
    forall i | 0 <= i < |namespace|
      ensures Key(namespace, name)[i] != '/'
    {
      assert namespace[i] in namespace;
    }
  }

  /** Kubernetes names hold no '/', so keys of different objects differ. */
  lemma KeyInjective(ns1: string, n1: string, ns2: string, n2: string)
    requires '/' !in ns1 && '/' !in ns2
    ensures Key(ns1, n1) == Key(ns2, n2) <==> ns1 == ns2 && n1 == n2
  {
    FirstSlash(ns1, n1);
    FirstSlash(ns2, n2);
  }

  /** The predicate's own fallback is one minute. */
  function TimerInterval(c: Trigger.TriggerConfig): (d: int)
    ensures d >= MINUTE
  {
    if Trigger.ParseInterval(c.interval) == 0 then MINUTE else Trigger.ParseInterval(c.interval)
  }

  /** The configuration is readable and its mode is "scheduled". */
  predicate Gated(config: Trigger.ConfigRead) {
    Trigger.ReadConfig(config).Some? && Trigger.ReadConfig(config).value.mode == "scheduled"
  }

  /** What decides an event that the timer does not gate. */
  function Ungated(config: Trigger.ConfigRead): bool
    requires !Gated(config)
  {
    match Trigger.ReadConfig(config)
    case None => true
    case Some(c) => c.mode !in ["manual", "immediate", "webhook", ""]
  }

  /** A gated event passes when the key is new or its interval has gone by since the stored time. */
  predicate Due(last: map<string, int>, e: Event)
    requires Gated(e.config)
  {
    var key := Key(e.namespace, e.name);
    key !in last || e.check - last[key] >= TimerInterval(Trigger.ReadConfig(e.config).value)
  }

  predicate Admitted(last: map<string, int>, e: Event) {
    if Gated(e.config) then Due(last, e) else Ungated(e.config)
  }

  function After(last: map<string, int>, e: Event): map<string, int> {
    if Gated(e.config) && Due(last, e) then last[Key(e.namespace, e.name) := e.stamp] else last
  }

  class TimerBasedPredicate {
    var lastReconcileTime: map<string, int>

    constructor ()
      ensures lastReconcileTime == map[]
    {
      lastReconcileTime := map[];
    }

    method ShouldReconcileBasedOnTimer(e: Event) returns (admit: bool)
      modifies this
      ensures admit == Admitted(old(lastReconcileTime), e)
      ensures lastReconcileTime == After(old(lastReconcileTime), e)
    {
      var config := Trigger.ReadConfig(e.config);
      if config.None? {
        return true;
      }
      var mode := config.value.mode;
      if mode == "manual" {
        return false;
      }
      if mode == "immediate" || mode == "webhook" || mode == "" {
        return false;
      }
      if mode == "scheduled" {
        var key := Key(e.namespace, e.name);
        if key !in lastReconcileTime {
          lastReconcileTime := lastReconcileTime[key := e.stamp];
          return true;
        }
        var interval := Trigger.ParseInterval(config.value.interval);
        if interval == 0 {
          interval := MINUTE;
        }
        if e.check - lastReconcileTime[key] >= interval {
          lastReconcileTime := lastReconcileTime[key := e.stamp];
          return true;
        }
        return false;
      }
      return true;
    }

    /** Spec changes (a new generation) always pass. */
    method Update(oldGeneration: int, newGeneration: int, e: Event) returns (admit: bool)
      modifies this
      ensures oldGeneration != newGeneration ==> admit && lastReconcileTime == old(lastReconcileTime)
      ensures oldGeneration == newGeneration ==>
                admit == Admitted(old(lastReconcileTime), e)
                && lastReconcileTime == After(old(lastReconcileTime), e)
    {
      if oldGeneration != newGeneration {
        return true;
      }
      admit := ShouldReconcileBasedOnTimer(e);
    }
  }

  // ---------------------------------------------------------------- whole runs

  function LastAfter(run: seq<Event>): map<string, int> {
    if run == [] then map[] else After(LastAfter(run[..|run| - 1]), run[|run| - 1])
  }

  /** The gated events of one key that were let through, in order. */
  function Admissions(run: seq<Event>, key: string): seq<Event> {
    if run == [] then []
    else
      var init, e := run[..|run| - 1], run[|run| - 1];
      Admissions(init, key)
      + if Gated(e.config) && Key(e.namespace, e.name) == key && Due(LastAfter(init), e) then [e] else []
  }

  lemma {:induction false} StampIsLastAdmission(run: seq<Event>, key: string)
    ensures var a := Admissions(run, key);
      && (key in LastAfter(run) <==> a != [])
      && (a != [] ==> LastAfter(run)[key] == a[|a| - 1].stamp)
    decreases |run|
  {
    if run != [] {
      StampIsLastAdmission(run[..|run| - 1], key);
    }
  }

  /** Neighbouring admissions are at least the later one's interval apart. */
  lemma {:induction false} AdmissionsAreSpaced(run: seq<Event>, key: string, i: nat)
    requires i + 1 < |Admissions(run, key)|
    ensures var a := Admissions(run, key);
      Gated(a[i + 1].config) && a[i + 1].check - a[i].stamp >= TimerInterval(Trigger.ReadConfig(a[i + 1].config).value)
    decreases |run|
  {
    var init := run[..|run| - 1];
    if i + 1 < |Admissions(init, key)| {
      AdmissionsAreSpaced(init, key, i);
    } else {
      StampIsLastAdmission(init, key);
    }
  }

  lemma {:induction false} AdmissionsAreRunEvents(run: seq<Event>, key: string)
    ensures forall e | e in Admissions(run, key) :: e in run && Gated(e.config) && Key(e.namespace, e.name) == key
    decreases |run|
  {
    if run != [] {
      AdmissionsAreRunEvents(run[..|run| - 1], key);
      assert run == run[..|run| - 1] + [run[|run| - 1]];
    }
  }

  /** Any stretch of n + 1 admissions of one key spans at least n times d, when every configuration in force
      at an admission asks for at least d. The interval may be edited during the run; events of other keys
      and ungated events may come in between. Clocks: an event's stamp is not before its check. */
  lemma {:induction false} AdmissionsSpan(run: seq<Event>, key: string, d: int, i: nat, n: nat)
    requires forall e | e in run :: e.check <= e.stamp
    requires forall e | e in run && Gated(e.config) && Key(e.namespace, e.name) == key ::
               TimerInterval(Trigger.ReadConfig(e.config).value) >= d
    requires i + n < |Admissions(run, key)| && n > 0
    ensures var a := Admissions(run, key); a[i + n].check - a[i].stamp >= n * d
    decreases n
  {
    AdmissionsAreSpaced(run, key, i + n - 1);
    var a := Admissions(run, key);
    assert && a[i + n] in run && a[i + n - 1] in run
           && Key(a[i + n].namespace, a[i + n].name) == key by {
      AdmissionsAreRunEvents(run, key);
    }
    assert a[i + n].check - a[i + n - 1].stamp >= d;
    if n > 1 {
      AdmissionsSpan(run, key, d, i, n - 1);
      assert n * d == (n - 1) * d + d;
    }
  }

  /** Without any assumption on the intervals the spacing is one minute. */
  lemma AdmissionsSpanMinutes(run: seq<Event>, key: string, i: nat, n: nat)
    requires forall e | e in run :: e.check <= e.stamp
    requires i + n < |Admissions(run, key)| && n > 0
    ensures var a := Admissions(run, key); a[i + n].check - a[i].stamp >= n * MINUTE
  {
    AdmissionsSpan(run, key, MINUTE, i, n);
  }

  // ---------------------------------------------------------------- which events pass

  /** The predicate's interval in nanoseconds: a minute when it is unset, malformed or shorter. */
  function ConfiguredInterval(i: Trigger.Interval): int {
    if i.Duration? && i.ns >= 60_000_000_000 then i.ns else 60_000_000_000
  }

  lemma TimerIntervalIs(c: Trigger.TriggerConfig)
    ensures TimerInterval(c) == ConfiguredInterval(c.interval)
  {
  }

  /** A timer-gated event is admitted exactly when it is the object's first, or its interval has gone by since the
      last admission of the object. */
  lemma GatedIff(run: seq<Event>, e: Event)
    requires Gated(e.config)
    ensures var a := Admissions(run, Key(e.namespace, e.name));
      && (Admitted(LastAfter(run), e) <==>
            a == []
            || e.check - a[|a| - 1].stamp >= ConfiguredInterval(Trigger.ReadConfig(e.config).value.interval))
      && (Admissions(run + [e], Key(e.namespace, e.name)) == a + [e] <==> Admitted(LastAfter(run), e))
      && (Admissions(run + [e], Key(e.namespace, e.name)) == a <==> !Admitted(LastAfter(run), e))
  {
    var key := Key(e.namespace, e.name);
    StampIsLastAdmission(run, key);
    TimerIntervalIs(Trigger.ReadConfig(e.config).value);
    assert (run + [e])[..|run|] == run;
    assert |Admissions(run, key) + [e]| == |Admissions(run, key)| + 1;
  }

  /** An event leaves the admissions of other objects alone. */
  lemma OtherKeysStay(run: seq<Event>, e: Event, key: string)
    requires !Gated(e.config) || Key(e.namespace, e.name) != key
    ensures Admissions(run + [e], key) == Admissions(run, key)
  {
    assert (run + [e])[..|run|] == run;
  }

  /** Only the scheduled mode of a readable configuration is gated. Otherwise an unreadable list admits, no
      operator and the modes manual, immediate and webhook refuse, an empty mode counts as immediate, and any
      other mode admits. */
  lemma UngatedIff(last: map<string, int>, e: Event)
    ensures Gated(e.config) <==>
      e.config.Operators? && e.config.configs != [] && e.config.configs[0].mode == "scheduled"
    ensures !Gated(e.config) ==>
      (Admitted(last, e) <==>
         e.config.ListFailed?
         || (e.config.configs != [] && e.config.configs[0].mode !in ["manual", "immediate", "webhook", ""]))
    ensures !Gated(e.config) ==> After(last, e) == last
  {
  }
}
