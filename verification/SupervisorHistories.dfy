// The results about runs, said of the component: of its own fault flags, its own ticks and what it
// has sent, in any history of reports and ticks.

module SupervisorHistories {
  import opened SupervisorCore
  import opened SupervisorRuns
  import opened Supervisor
  import opened SupervisorTheorems

  function StateAfter(p: Policy, templates: string, inputs: seq<Input>, j: nat): State
    requires j <= |inputs|
  {
    RunAll(p, templates, inputs[..j])
  }

  /** The number of the tick at input `j`. */
  function TickNumber(inputs: seq<Input>, j: nat): nat
    requires j < |inputs|
  {
    TicksIn(inputs[..j]) + 1
  }

  /** Input `j` is a tick that publishes a kill. */
  predicate KillInput(p: Policy, templates: string, inputs: seq<Input>, j: nat) {
    && j < |inputs| && inputs[j].Timer?
    && StateAfter(p, templates, inputs, j).core.phase != CONTAIN
    && StateAfter(p, templates, inputs, j + 1).core.phase == CONTAIN
  }

  lemma TicksStep(inputs: seq<Input>, j: nat)
    requires j < |inputs|
    ensures TicksIn(inputs[..j + 1]) == TicksIn(inputs[..j]) + if inputs[j].Timer? then 1 else 0
  {
    assert inputs[..j + 1][..j] == inputs[..j];
  }

  lemma {:induction false} TicksGrow(inputs: seq<Input>, i: nat, j: nat)
    requires i <= j <= |inputs|
    ensures TicksIn(inputs[..i]) <= TicksIn(inputs[..j])
    decreases j - i
  {
    if i < j {
      TicksGrow(inputs, i, j - 1);
      TicksStep(inputs, j - 1);
    }
  }

  /** The input at which the k-th tick comes. */
  lemma {:induction false} TickInput(inputs: seq<Input>, n: nat, k: nat) returns (j: nat)
    requires n <= |inputs| && 0 < k <= TicksIn(inputs[..n])
    ensures j < n && inputs[j].Timer? && TickNumber(inputs, j) == k
    decreases n
  {
    TicksStep(inputs, n - 1);
    j := n - 1;
    if TicksIn(inputs[..n - 1]) >= k {
      j := TickInput(inputs, n - 1, k);
    }
  }

  lemma KillIsKill(r: Run, p: Policy, templates: string, inputs: seq<Input>, j: nat)
    requires RunOf(r, p, templates, inputs) && KillInput(p, templates, inputs, j)
    ensures KillAt(r, TickNumber(inputs, j))
  {
    assert StateShared(r, p, templates, inputs, j) && StateShared(r, p, templates, inputs, j + 1);
    TicksStep(inputs, j);
  }

  // ---- escalation and rate ------------------------------------------------

  /** The component publishes a kill only when its own fault flag was up on that tick and on every
      tick of the window before it, the whole window being spent in NOMINAL. */
  lemma EscalationHere(p: Policy, templates: string, inputs: seq<Input>, j: nat)
    requires KillInput(p, templates, inputs, j)
    ensures var w, n := Max1(p.limits.grace), TickNumber(inputs, j);
      && w < n && TickActions(p, templates, inputs[..j]) == [Publish("system")]
      && forall i :: 0 <= i <= j && inputs[i].Timer? && n <= TickNumber(inputs, i) + w ==>
        && FaultFlag(p, templates, inputs[..i]) == Faulty
        && (n < TickNumber(inputs, i) + w ==> StateAfter(p, templates, inputs, i).core.phase == NOMINAL)
  {
    var w, n := Max1(p.limits.grace), TickNumber(inputs, j);
    var r := HistoryIsRun(p, templates, inputs);
    KillIsKill(r, p, templates, inputs, j);
    Escalation(r, n);
    assert TickShared(r, p, templates, inputs, j);
    forall i | 0 <= i <= j && inputs[i].Timer? && n <= TickNumber(inputs, i) + w
      ensures FaultFlag(p, templates, inputs[..i]) == Faulty
      ensures n < TickNumber(inputs, i) + w ==> StateAfter(p, templates, inputs, i).core.phase == NOMINAL
    {
      TicksGrow(inputs, i, j);
      assert TickShared(r, p, templates, inputs, i) && StateShared(r, p, templates, inputs, i);
    }
  }

  /** Two kills of the component are at least a settle window, two ticks and an escalation window apart. */
  lemma KillRateHere(p: Policy, templates: string, inputs: seq<Input>, i: nat, j: nat)
    requires i < j && KillInput(p, templates, inputs, i) && KillInput(p, templates, inputs, j)
    ensures TickNumber(inputs, j) >= TickNumber(inputs, i) + p.limits.settle + 2 + Max1(p.limits.grace)
  {
    var r := HistoryIsRun(p, templates, inputs);
    KillIsKill(r, p, templates, inputs, i);
    KillIsKill(r, p, templates, inputs, j);
    TicksStep(inputs, i);
    TicksGrow(inputs, i + 1, j);
    KillRate(r, TickNumber(inputs, i), TickNumber(inputs, j));
  }

  // ---- return -------------------------------------------------------------

  /** After a kill the component is back in NOMINAL within the bound, once so many ticks have come,
      whatever the reports say. */
  lemma ReturnHere(p: Policy, templates: string, inputs: seq<Input>, j: nat) returns (m: nat)
    requires Timely(p.limits) && KillInput(p, templates, inputs, j)
    requires TicksIn(inputs) >= TickNumber(inputs, j) + Bound(p.limits)
    ensures j < m <= |inputs| && StateAfter(p, templates, inputs, m).core.phase == NOMINAL
    ensures TicksIn(inputs[..m]) <= TickNumber(inputs, j) + Bound(p.limits)
  {
    var n := TickNumber(inputs, j);
    var r := HistoryIsRun(p, templates, inputs);
    KillIsKill(r, p, templates, inputs, j);
    var k := BoundedReturn(r, n);
    assert inputs[..|inputs|] == inputs;
    var i := TickInput(inputs, |inputs|, k);
    m := i + 1;
    TicksStep(inputs, i);
    assert StateShared(r, p, templates, inputs, m);
    if i <= j {
      TicksGrow(inputs, i, j);
    }
  }

  // ---- the console --------------------------------------------------------

  /** The last console report sent arms the console. */
  function ConsoleOn(sent: seq<Sent>): bool {
    if sent == [] then false
    else
      var last := sent[|sent| - 1];
      if last.Console? then last.armed else ConsoleOn(sent[..|sent| - 1])
  }

  lemma ConsolePush(sent: seq<Sent>, c: Sent)
    ensures ConsoleOn(sent + [c]) == if c.Console? then c.armed else ConsoleOn(sent)
  {
    assert (sent + [c])[..|sent|] == sent;
  }

  lemma {:induction false} ActionsArm(templates: string, s: State, actions: seq<Action>)
    ensures ConsoleOn(DoActions(templates, s, actions).sent) == Armed(ConsoleOn(s.sent), actions)
    decreases actions
  {
    if actions != [] {
      var a, t := actions[0], DoAction(templates, s, actions[0]);
      if |t.sent| > |s.sent| {
        ConsolePush(s.sent, t.sent[|s.sent|]);
        assert t.sent == s.sent + [t.sent[|s.sent|]];
      }
      ActionsArm(templates, t, actions[1..]);
    }
  }

  /** In every history the last console report sent arms the console if and only if the component is
      in CONSOLE. */
  lemma {:induction false} ConsoleSent(p: Policy, templates: string, inputs: seq<Input>)
    ensures var s := RunAll(p, templates, inputs); ConsoleOn(s.sent) <==> s.core.phase == CONSOLE
    decreases |inputs|
  {
    if inputs != [] {
      var before := inputs[..|inputs| - 1];
      ConsoleSent(p, templates, before);
      if inputs[|inputs| - 1].Timer? {
        var s := RunAll(p, templates, before);
        var fault := Faulted(p, s, Inc(s.core.ticks));
        var t := React(p.limits, s.core, fault);
        TickCore(p, templates, s);
        ActionsArm(templates, s.(core := t.core), t.actions);
        StepArmed(p.limits, s.core, fault, ConsoleOn(s.sent));
      }
    }
  }

  /** A tick that arms the console comes at least a grace window after a kill, all in CONTAIN; it
      publishes `system_console` first, and the arming is the last thing sent. */
  lemma ArmingHere(p: Policy, templates: string, inputs: seq<Input>, j: nat) returns (i: nat)
    requires j < |inputs| && inputs[j].Timer? && Arm(true) in TickActions(p, templates, inputs[..j])
    ensures i < j && KillInput(p, templates, inputs, i)
    ensures TickNumber(inputs, i) + Max1(p.limits.grace) <= TickNumber(inputs, j)
    ensures forall m :: i < m <= j ==> StateAfter(p, templates, inputs, m).core.phase == CONTAIN
    ensures TickActions(p, templates, inputs[..j]) == [Publish("system_console"), Arm(true)]
    ensures var sent := StateAfter(p, templates, inputs, j + 1).sent;
      sent == DoPublish(templates, StateAfter(p, templates, inputs, j), "system_console").sent + [Console(true)]
  {
    var r := HistoryIsRun(p, templates, inputs);
    assert TickShared(r, p, templates, inputs, j);
    var k := ArmingFollowsKill(r, TickNumber(inputs, j));
    TickSends(p, templates, inputs, j);
    i := SharedKill(r, p, templates, inputs, j, k);
  }

  /** A kill of the run that is followed by nothing but CONTAIN is a kill of the component. */
  lemma SharedKill(r: Run, p: Policy, templates: string, inputs: seq<Input>, j: nat, k: nat) returns (i: nat)
    requires RunOf(r, p, templates, inputs) && j < |inputs| && KillAt(r, k) && k < TickNumber(inputs, j)
    requires forall m :: k <= m < TickNumber(inputs, j) ==> r.core(m).phase == CONTAIN
    ensures i < j && TickNumber(inputs, i) == k && KillInput(p, templates, inputs, i)
    ensures forall m :: i < m <= j ==> StateAfter(p, templates, inputs, m).core.phase == CONTAIN
  {
    i := TickInput(inputs, j, k);
    TicksStep(inputs, i);
    assert StateShared(r, p, templates, inputs, i) && StateShared(r, p, templates, inputs, i + 1);
    forall m | i < m <= j ensures StateAfter(p, templates, inputs, m).core.phase == CONTAIN {
      TicksGrow(inputs, i + 1, m);
      TicksGrow(inputs, m, j);
      assert StateShared(r, p, templates, inputs, m);
    }
  }

  lemma TickSends(p: Policy, templates: string, inputs: seq<Input>, j: nat)
    requires j < |inputs| && inputs[j].Timer?
    requires TickActions(p, templates, inputs[..j]) == [Publish("system_console"), Arm(true)]
    ensures var sent := StateAfter(p, templates, inputs, j + 1).sent;
      sent == DoPublish(templates, StateAfter(p, templates, inputs, j), "system_console").sent + [Console(true)]
  {
    assert inputs[..j + 1][..j] == inputs[..j];
    var s := StateAfter(p, templates, inputs, j);
    var core := React(p.limits, s.core, Faulted(p, s, Inc(s.core.ticks))).core;
    TwoActions(templates, s.(core := core), Publish("system_console"), Arm(true));
  }

  lemma TwoActions(templates: string, s: State, a: Action, b: Action)
    ensures DoActions(templates, s, [a, b]) == DoAction(templates, DoAction(templates, s, a), b)
  {
    var t := DoAction(templates, s, a);
    assert [a, b][1..] == [b] && [b][1..] == [];
    assert DoActions(templates, s, [a, b]) == DoActions(templates, t, [b]);
    assert DoActions(templates, t, [b]) == DoActions(templates, DoAction(templates, t, b), []);
  }

  /** After a tick that disarms the console, the first tick aside, the component sends nothing for a
      settle window, and the tick that ends it publishes the nominal configuration. */
  lemma RestoresHere(p: Policy, templates: string, inputs: seq<Input>, j: nat, i: nat)
    requires j < i < |inputs| && inputs[j].Timer? && inputs[i].Timer?
    requires TickNumber(inputs, j) > 1 && Arm(false) in TickActions(p, templates, inputs[..j])
    ensures var end := TickNumber(inputs, j) + Max1(p.limits.settle);
      && (TickNumber(inputs, i) < end ==> TickActions(p, templates, inputs[..i]) == [])
      && (TickNumber(inputs, i) == end ==>
            TickActions(p, templates, inputs[..i]) == [Publish("system")]
            && StateAfter(p, templates, inputs, i + 1).core.phase == NOMINAL)
  {
    var r := HistoryIsRun(p, templates, inputs);
    var n, k := TickNumber(inputs, j), TickNumber(inputs, i);
    assert Arm(false) in Actions(r, n) by {
      assert TickShared(r, p, templates, inputs, j);
    }
    assert n < k by {
      TicksStep(inputs, j);
      TicksGrow(inputs, j + 1, i);
    }
    assert Actions(r, k) == TickActions(p, templates, inputs[..i]) by {
      assert TickShared(r, p, templates, inputs, i);
    }
    assert r.core(k) == StateAfter(p, templates, inputs, i + 1).core by {
      assert StateShared(r, p, templates, inputs, i + 1);
      TicksStep(inputs, i);
    }
    assert r.l == p.limits && IsRun(r);
    ReleaseRestores(r, n);
  }
}
