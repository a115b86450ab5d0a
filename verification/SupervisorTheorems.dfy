// Whole histories of the supervisor: any interleaving of state reports and timer ticks.

module SupervisorTheorems {
  import opened Wrappers
  import opened SupervisorCore
  import opened SupervisorRuns
  import opened Supervisor

  function TicksIn(inputs: seq<Input>): nat {
    if inputs == [] then 0
    else TicksIn(inputs[..|inputs| - 1]) + if inputs[|inputs| - 1].Timer? then 1 else 0
  }

  /** The fault flag that a tick after the history sees. */
  function FaultFlag(p: Policy, templates: string, history: seq<Input>): Health {
    var s := RunAll(p, templates, history);
    Flag(Faulted(p, s, Inc(s.core.ticks)))
  }

  /** What a tick after the history does to the outside. */
  function TickActions(p: Policy, templates: string, history: seq<Input>): seq<Action> {
    React(p.limits, RunAll(p, templates, history).core, FaultFlag(p, templates, history).Faulty?).actions
  }

  // ---- every history is a run of the phase machine ------------------------

  lemma DoActionsCore(templates: string, s: State, actions: seq<Action>)
    ensures DoActions(templates, s, actions).core == s.core && DoActions(templates, s, actions).seen == s.seen
    decreases actions
  {
    if actions != [] {
      DoActionsCore(templates, DoAction(templates, s, actions[0]), actions[1..]);
    }
  }

  lemma TickCore(p: Policy, templates: string, s: State)
    ensures Tick(p, templates, s).core == React(p.limits, s.core, Faulted(p, s, Inc(s.core.ticks))).core
  {
    var t := React(p.limits, s.core, Faulted(p, s, Inc(s.core.ticks)));
    DoActionsCore(templates, s.(core := t.core), t.actions);
  }

  ghost predicate Linked(l: Limits, cores: seq<Core>, faults: seq<Health>) {
    && |cores| == |faults| + 1 && cores[0] == Init()
    && forall i :: 0 <= i < |faults| ==> LinkAt(l, cores[i], faults[i], cores[i + 1])
  }

  ghost predicate LinkAt(l: Limits, c: Core, f: Health, d: Core) {
    d == React(l, c, f.Faulty?).core
  }

  /** The state after the ticks of a history is listed. */
  ghost predicate CoveredBy(p: Policy, templates: string, history: seq<Input>, cores: seq<Core>) {
    TicksIn(history) < |cores| && cores[TicksIn(history)] == RunAll(p, templates, history).core
  }

  /** So is the fault flag of the tick after it. */
  ghost predicate FlaggedBy(p: Policy, templates: string, history: seq<Input>, faults: seq<Health>) {
    TicksIn(history) < |faults| && faults[TicksIn(history)] == FaultFlag(p, templates, history)
  }

  lemma CoveredStep(p: Policy, templates: string, before: seq<Input>, last: Input, cores: seq<Core>, faults: seq<Health>)
    returns (cores1: seq<Core>, faults1: seq<Health>)
    requires Linked(p.limits, cores, faults) && |faults| == TicksIn(before) && CoveredBy(p, templates, before, cores)
    ensures Linked(p.limits, cores1, faults1) && |faults1| == TicksIn(before + [last])
    ensures cores <= cores1 && CoveredBy(p, templates, before + [last], cores1)
    ensures faults <= faults1 && (last.Timer? ==> FlaggedBy(p, templates, before, faults1))
  {
    var all := before + [last];
    assert all[..|all| - 1] == before;
    cores1, faults1 := cores, faults;
    if last.Timer? {
      var s := RunAll(p, templates, before);
      TickCore(p, templates, s);
      var d, f := Tick(p, templates, s).core, Flag(Faulted(p, s, Inc(s.core.ticks)));
      assert LinkAt(p.limits, s.core, f, d);
      cores1, faults1 := cores + [d], faults + [f];
    }
  }

  /** The states after the ticks of a history, and the fault flags those ticks saw. */
  lemma {:induction false} HistoryCores(p: Policy, templates: string, inputs: seq<Input>)
    returns (cores: seq<Core>, faults: seq<Health>)
    ensures Linked(p.limits, cores, faults) && |faults| == TicksIn(inputs)
    ensures forall j :: 0 <= j <= |inputs| ==> CoveredBy(p, templates, inputs[..j], cores)
    ensures forall j :: 0 <= j < |inputs| && inputs[j].Timer? ==> FlaggedBy(p, templates, inputs[..j], faults)
    decreases |inputs|
  {
    assert inputs[..|inputs|] == inputs;
    if inputs == [] {
      return [Init()], [];
    }
    var before, last := inputs[..|inputs| - 1], inputs[|inputs| - 1];
    var cores0, faults0 := HistoryCores(p, templates, before);
    assert before[..|before|] == before && before + [last] == inputs;
    cores, faults := CoveredStep(p, templates, before, last, cores0, faults0);
    forall j | 0 <= j <= |inputs| ensures CoveredBy(p, templates, inputs[..j], cores) {
      if j < |inputs| {
        assert inputs[..j] == before[..j];
        assert CoveredBy(p, templates, before[..j], cores0);
      }
    }
    forall j | 0 <= j < |inputs| && inputs[j].Timer? ensures FlaggedBy(p, templates, inputs[..j], faults) {
      if j < |before| {
        assert inputs[..j] == before[..j];
        assert FlaggedBy(p, templates, before[..j], faults0);
      }
    }
  }

  /** The state after `k` healthy ticks. */
  function Beyond(l: Limits, c: Core, k: nat): Core {
    if k == 0 then c else React(l, Beyond(l, c, k - 1), false).core
  }

  /** A finite run goes on, with healthy ticks. */
  lemma Extend(l: Limits, cores: seq<Core>, faults: seq<Health>) returns (r: Run)
    requires Linked(l, cores, faults)
    ensures IsRun(r) && r.l == l && forall n :: 0 <= n < |cores| ==> r.core(n) == cores[n]
    ensures forall n :: 0 <= n < |faults| ==> r.fault(n + 1) == faults[n]
  {
    var last := |faults|;
    r := Run(l,
             (n: nat) => if 0 < n <= last then faults[n - 1] else Healthy,
             (n: nat) => if n <= last then cores[n] else Beyond(l, cores[last], n - last));
    forall n: nat ensures StepAt(r, n) {
      if n < last {
        assert LinkAt(l, cores[n], faults[n], cores[n + 1]);
        assert r.core(n) == cores[n] && r.core(n + 1) == cores[n + 1] && r.fault(n + 1) == faults[n];
      } else {
        assert r.core(n) == Beyond(l, cores[last], n - last);
        assert r.core(n + 1) == Beyond(l, cores[last], n + 1 - last) && r.fault(n + 1) == Healthy;
      }
    }
    assert forall n :: 0 <= n < |cores| ==> r.core(n) == cores[n];
  }

  /** The run has the state that the first `j` inputs lead to. */
  ghost predicate StateShared(r: Run, p: Policy, templates: string, inputs: seq<Input>, j: nat)
    requires j <= |inputs|
  {
    RunAll(p, templates, inputs[..j]).core == r.core(TicksIn(inputs[..j]))
  }

  /** The tick at input `j` sees the run's fault flag and does what the run does. */
  ghost predicate TickShared(r: Run, p: Policy, templates: string, inputs: seq<Input>, j: nat)
    requires j < |inputs|
  {
    var n := TicksIn(inputs[..j]) + 1;
    r.fault(n) == FaultFlag(p, templates, inputs[..j]) && Actions(r, n) == TickActions(p, templates, inputs[..j])
  }

  ghost predicate RunOf(r: Run, p: Policy, templates: string, inputs: seq<Input>) {
    && IsRun(r) && r.l == p.limits
    && (forall j :: 0 <= j <= |inputs| ==> StateShared(r, p, templates, inputs, j))
    && (forall j :: 0 <= j < |inputs| && inputs[j].Timer? ==> TickShared(r, p, templates, inputs, j))
  }

  /** Whatever reports and ticks arrive, in whatever order: the phases are those of a run of the
      phase machine, whose fault flags are the component's own and whose actions the component
      carries out. */
  lemma HistoryIsRun(p: Policy, templates: string, inputs: seq<Input>) returns (r: Run)
    ensures RunOf(r, p, templates, inputs)
  {
    var cores, faults := HistoryCores(p, templates, inputs);
    r := Extend(p.limits, cores, faults);
    forall j | 0 <= j <= |inputs| ensures StateShared(r, p, templates, inputs, j) {
      assert CoveredBy(p, templates, inputs[..j], cores);
    }
    forall j | 0 <= j < |inputs| && inputs[j].Timer? ensures TickShared(r, p, templates, inputs, j) {
      assert FlaggedBy(p, templates, inputs[..j], faults);
      assert StateShared(r, p, templates, inputs, j);
    }
  }

  // ---- healthy histories --------------------------------------------------

  predicate HealthyChild(p: Policy, c: Child) {
    && (c.skipped < p.faultSkipped || (c.starting && p.ignoreStarting))
    && (c.exited ==> ListedFrom(p.ignoreExited, 0, c.name))
  }

  predicate HealthyInput(p: Policy, input: Input) {
    input.Report? ==> forall c :: c in input.children ==> HealthyChild(p, c)
  }

  lemma {:induction false} HealthyReport(p: Policy, children: seq<Child>)
    requires p.faultSkipped > 0
    requires forall c :: c in children ==> HealthyChild(p, c)
    ensures Observe(p, children).any && Observe(p, children).exited == 0
    ensures Observe(p, children).maxSkipped < p.faultSkipped
    decreases |children|
  {
    if children != [] {
      HealthyReport(p, children[..|children| - 1]);
      assert HealthyChild(p, children[|children| - 1]);
    }
  }

  predicate Reported(inputs: seq<Input>) {
    exists i :: 0 <= i < |inputs| && inputs[i].Report?
  }

  /** Reports are healthy, and the first one comes within the boot grace. */
  ghost predicate HealthyHistory(p: Policy, inputs: seq<Input>) {
    && p.faultSkipped > 0
    && (forall input :: input in inputs ==> HealthyInput(p, input))
    && (forall j :: 0 <= j <= |inputs| ==> Reported(inputs[..j]) || TicksIn(inputs[..j]) <= p.limits.bootGrace)
  }

  /** What the first tick publishes. */
  function FirstTick(templates: string): State {
    DoActions(templates, Start(), [Arm(false), Publish("system")])
  }

  predicate Calm(p: Policy, templates: string, inputs: seq<Input>, s: State) {
    && s.baseline == 0 && s.seen.exited == 0 && s.seen.maxSkipped < p.faultSkipped
    && s.seen.any == Reported(inputs)
    && (!s.seen.any ==> s.core.ticks == TicksIn(inputs))
    && if TicksIn(inputs) == 0 then s.core == Init() && s.sent == [] && s.kill == 0
       else s.core.phase == NOMINAL && s.core.faultSince == 0
            && s.sent == FirstTick(templates).sent && s.kill == FirstTick(templates).kill
  }

  lemma FirstTickBaseline(templates: string, s: State)
    requires s.sent == [] && s.kill == 0
    ensures var f := DoActions(templates, s, [Arm(false), Publish("system")]);
      f.baseline == s.baseline && f.sent == FirstTick(templates).sent && f.kill == FirstTick(templates).kill
  {
    var acts := [Arm(false), Publish("system")];
    assert acts[1..] == [Publish("system")] && acts[1..][1..] == [];
  }

  lemma HealthyStep(p: Policy, templates: string, before: seq<Input>, last: Input, s: State)
    requires HealthyHistory(p, before + [last]) && Calm(p, templates, before, s)
    ensures Calm(p, templates, before + [last], Handle(p, templates, s, last))
  {
    var all := before + [last];
    assert all[..|before|] == before && all[..|all|] == all;
    assert Reported(all) == (Reported(before) || last.Report?) by {
      if Reported(before) {
        var i :| 0 <= i < |before| && before[i].Report?;
        assert all[i].Report?;
      }
      if last.Report? {
        assert all[|before|].Report?;
      }
    }
    assert TicksIn(all) == TicksIn(before) + if last.Timer? then 1 else 0;
    if last.Report? {
      assert last in all && HealthyInput(p, last);
      HealthyReport(p, last.children);
    } else {
      var t := React(p.limits, s.core, Faulted(p, s, Inc(s.core.ticks)));
      DoActionsCore(templates, s.(core := t.core), t.actions);
      assert Reported(all[..|all|]) || TicksIn(all[..|all|]) <= p.limits.bootGrace;
      assert !Faulted(p, s, Inc(s.core.ticks));
      FirstTickBaseline(templates, s.(core := t.core, sent := [], kill := 0));
    }
  }

  lemma HealthyPrefix(p: Policy, inputs: seq<Input>)
    requires inputs != [] && HealthyHistory(p, inputs)
    ensures HealthyHistory(p, inputs[..|inputs| - 1])
  {
    var before := inputs[..|inputs| - 1];
    forall j | 0 <= j <= |before| ensures Reported(before[..j]) || TicksIn(before[..j]) <= p.limits.bootGrace {
      assert before[..j] == inputs[..j];
    }
  }

  lemma {:induction false} HealthyCalm(p: Policy, templates: string, inputs: seq<Input>)
    requires HealthyHistory(p, inputs)
    ensures Calm(p, templates, inputs, RunAll(p, templates, inputs))
    decreases |inputs|
  {
    if inputs != [] {
      var before, last := inputs[..|inputs| - 1], inputs[|inputs| - 1];
      HealthyPrefix(p, inputs);
      HealthyCalm(p, templates, before);
      assert inputs == before + [last];
      HealthyStep(p, templates, before, last, RunAll(p, templates, before));
    }
  }

  /** A healthy history is left alone: the first tick disarms the console and publishes the nominal
      configuration with kill version 1, and nothing is sent after it. */
  lemma HealthyUntouched(p: Policy, templates: string, inputs: seq<Input>)
    requires HealthyHistory(p, inputs) && TicksIn(inputs) > 0
    ensures var s := RunAll(p, templates, inputs);
      && s.core.phase == NOMINAL
      && s.sent == [Console(false)] + match Usable(templates, "system")
           case None => []
           case Some(text) => if |Render(text, 1)| <= REPORT_BUFFER then [Config("system", 1, Render(text, 1))] else []
  {
    HealthyCalm(p, templates, inputs);
    var acts := [Arm(false), Publish("system")];
    assert acts[1..] == [Publish("system")] && acts[1..][1..] == [];
    assert DoActions(templates, Start(), acts) == DoPublish(templates, Start().(sent := [] + [Console(false)]), "system");
  }
}
