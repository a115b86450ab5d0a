// When the supervisor sees a fault, said of the reports it was sent, and the kill that follows one.

module SupervisorFaults {
  import opened Wrappers
  import opened KillMarkers
  import opened SupervisorCore
  import opened SupervisorRuns
  import opened Supervisor
  import opened SupervisorTheorems
  import opened SupervisorHistories

  // ---- what a report says -------------------------------------------------

  /** The child has missed too many heartbeats. */
  predicate Slow(p: Policy, c: Child) {
    c.skipped >= p.faultSkipped && !(c.starting && p.ignoreStarting)
  }

  /** The child has exited and is not one that may. */
  ghost predicate Gone(p: Policy, c: Child) {
    c.exited && !IsEntry(p.ignoreExited, c.name)
  }

  ghost function GoneIn(p: Policy, children: seq<Child>): (n: nat)
    ensures n <= |children|
  {
    if children == [] then 0
    else GoneIn(p, children[..|children| - 1]) + if Gone(p, children[|children| - 1]) then 1 else 0
  }

  lemma {:induction false} GoneSome(p: Policy, children: seq<Child>)
    ensures GoneIn(p, children) > 0 <==> exists c :: c in children && Gone(p, c)
    decreases |children|
  {
    if children != [] {
      var before, last := children[..|children| - 1], children[|children| - 1];
      GoneSome(p, before);
      assert children == before + [last];
      assert last in children;
    }
  }

  /** The counters of a report: missed heartbeats are a maximum, exits a count modulo 2^32. */
  lemma {:induction false} ObserveExact(p: Policy, children: seq<Child>)
    requires p.faultSkipped > 0
    ensures Observe(p, children).any
    ensures Observe(p, children).maxSkipped >= p.faultSkipped <==> exists c :: c in children && Slow(p, c)
    ensures Observe(p, children).exited == GoneIn(p, children) % U32
    decreases |children|
  {
    if children != [] {
      var before, last := children[..|children| - 1], children[|children| - 1];
      ObserveExact(p, before);
      ExcludedExact(p.ignoreExited, last.name);
      assert children == before + [last];
      assert last in children;
      IncCount(GoneIn(p, before));
    }
  }

  lemma IncCount(n: nat)
    ensures Inc(n % U32) == (n + 1) % U32
  {
  }

  // ---- what the component remembers ---------------------------------------

  function LastReport(inputs: seq<Input>): Option<seq<Child>> {
    if inputs == [] then None
    else
      match inputs[|inputs| - 1]
      case Report(children) => Some(children)
      case Timer => LastReport(inputs[..|inputs| - 1])
  }

  /** The tick counter counts the ticks, the counters are those of the last report, and the baseline
      for exits, which is taken only while no fault is seen, stays at zero. */
  ghost predicate Remembers(p: Policy, inputs: seq<Input>, s: State) {
    && s.core.ticks == TicksIn(inputs) % U32
    && s.baseline == 0
    && s.seen == match LastReport(inputs) case None => Seen(false, 0, 0, 0) case Some(children) => Observe(p, children)
  }

  lemma ReactTicks(l: Limits, c: Core, fault: bool)
    ensures React(l, c, fault).core.ticks == Inc(c.ticks)
    ensures Rebaseline in React(l, c, fault).actions ==> !fault
  {
  }

  lemma {:induction false} BaselineAfter(templates: string, s: State, actions: seq<Action>)
    ensures DoActions(templates, s, actions).baseline == if Rebaseline in actions then s.seen.exited else s.baseline
    decreases actions
  {
    if actions != [] {
      var t := DoAction(templates, s, actions[0]);
      BaselineAfter(templates, t, actions[1..]);
      assert actions == [actions[0]] + actions[1..];
      assert t.seen == s.seen;
    }
  }

  lemma TickRemembers(p: Policy, templates: string, before: seq<Input>, s: State)
    requires Remembers(p, before, s)
    ensures Remembers(p, before + [Timer], Tick(p, templates, s))
  {
    var fault := Faulted(p, s, Inc(s.core.ticks));
    var t := React(p.limits, s.core, fault);
    ReactTicks(p.limits, s.core, fault);
    DoActionsCore(templates, s.(core := t.core), t.actions);
    BaselineAfter(templates, s.(core := t.core), t.actions);
    assert (before + [Timer])[..|before|] == before;
    IncCount(TicksIn(before));
  }

  lemma {:induction false} HistoryRemembers(p: Policy, templates: string, inputs: seq<Input>)
    ensures Remembers(p, inputs, RunAll(p, templates, inputs))
    decreases |inputs|
  {
    if inputs != [] {
      var before, last := inputs[..|inputs| - 1], inputs[|inputs| - 1];
      HistoryRemembers(p, templates, before);
      assert inputs == before + [last];
      if last.Timer? {
        TickRemembers(p, templates, before, RunAll(p, templates, before));
      }
    }
  }

  // ---- the fault flag -----------------------------------------------------

  /** Something in the report is a fault. */
  ghost predicate Alarming(p: Policy, children: seq<Child>) {
    (exists c :: c in children && Slow(p, c)) || GoneIn(p, children) % U32 != 0
  }

  /** What the inputs say to the next tick: no missed heartbeat is allowed at all, or the last report
      holds a child that missed too many or has exited though it may not, or the boot grace has passed
      without any report. */
  ghost predicate Alarmed(p: Policy, inputs: seq<Input>) {
    || p.faultSkipped == 0
    || match LastReport(inputs)
       case None => (TicksIn(inputs) + 1) % U32 > p.limits.bootGrace
       case Some(children) => Alarming(p, children)
  }

  /** A tick sees a fault if and only if the inputs before it say so. */
  lemma FlagExact(p: Policy, templates: string, inputs: seq<Input>)
    ensures FaultFlag(p, templates, inputs) == Faulty <==> Alarmed(p, inputs)
  {
    HistoryRemembers(p, templates, inputs);
    IncCount(TicksIn(inputs));
    if p.faultSkipped > 0 && LastReport(inputs).Some? {
      ObserveExact(p, LastReport(inputs).value);
    }
  }

  /** In a report of fewer than 2^32 children every single one counts. */
  lemma AlarmingSome(p: Policy, children: seq<Child>)
    requires |children| < U32
    ensures Alarming(p, children) <==> exists c :: c in children && (Slow(p, c) || Gone(p, c))
  {
    GoneSome(p, children);
  }

  // ---- a death that stays -------------------------------------------------

  /** The report still lists a child that is gone. */
  ghost predicate ListsDeath(p: Policy, input: Input) {
    input.Report? ==> |input.children| < U32 && exists c :: c in input.children && Gone(p, c)
  }

  lemma {:induction false} DeathStays(p: Policy, inputs: seq<Input>, k: nat)
    requires k <= |inputs| && LastReport(inputs[..k]).Some? && ListsDeath(p, Report(LastReport(inputs[..k]).value))
    requires forall i :: k <= i < |inputs| ==> ListsDeath(p, inputs[i])
    ensures LastReport(inputs).Some? && ListsDeath(p, Report(LastReport(inputs).value))
    decreases |inputs|
  {
    if k == |inputs| {
      assert inputs[..k] == inputs;
    } else {
      assert inputs[..|inputs| - 1][..k] == inputs[..k];
      DeathStays(p, inputs[..|inputs| - 1], k);
    }
  }

  /** The exits are meant to count by their rise above a baseline, so that one death would not be a
      fault for ever. But the baseline is only taken while no fault is seen, and never leaves zero: as
      long as the reports list a child that is gone, every tick sees a fault, whatever was done. */
  lemma DeathLatches(p: Policy, templates: string, inputs: seq<Input>, k: nat)
    requires k <= |inputs| && LastReport(inputs[..k]).Some? && ListsDeath(p, Report(LastReport(inputs[..k]).value))
    requires forall i :: k <= i < |inputs| ==> ListsDeath(p, inputs[i])
    ensures FaultFlag(p, templates, inputs) == Faulty && RunAll(p, templates, inputs).baseline == 0
  {
    DeathStays(p, inputs, k);
    AlarmingSome(p, LastReport(inputs).value);
    FlagExact(p, templates, inputs);
    HistoryRemembers(p, templates, inputs);
  }

  // ---- the kill that follows ----------------------------------------------

  /** How many faulty ticks bring the kill, in NOMINAL. A fault that is first seen by a tick whose
      number is a multiple of 2^32 is forgotten again, because zero stands for no fault. */
  function Due(l: Limits, c: Core): nat
    requires Inv(l, c) && c.phase == NOMINAL
  {
    if c.faultSince != 0 then Max1(l.grace) - FaultyFor(c)
    else if Inc(c.ticks) == 0 then Max1(l.grace) + 2
    else Max1(l.grace) + 1
  }

  lemma StepDue(l: Limits, c: Core)
    requires Inv(l, c) && c.phase == NOMINAL
    ensures var d := React(l, c, true).core;
      && Due(l, c) > 0
      && if Due(l, c) == 1 then d.phase == CONTAIN else d.phase == NOMINAL && Inv(l, d) && Due(l, d) == Due(l, c) - 1
  {
    SinceInc(c.ticks, c.faultSince);
    SinceInc(Inc(c.ticks), Inc(c.ticks));
  }

  /** A fault that lasts brings a kill, and on exactly that tick. */
  lemma {:induction false} KillDue(r: Run, n: nat, k: nat)
    requires IsRun(r) && r.core(n).phase == NOMINAL && Inv(r.l, r.core(n)) && k == Due(r.l, r.core(n))
    requires forall m :: n < m <= n + k ==> r.fault(m) == Faulty
    ensures k > 0 && KillAt(r, n + k) && forall m :: n <= m < n + k ==> r.core(m).phase == NOMINAL
    decreases k
  {
    StepDue(r.l, r.core(n));
    assert StepAt(r, n);
    assert r.fault(n + 1) == Faulty;
    if k > 1 {
      KillDue(r, n + 1, k - 1);
    }
  }

  /** The alarm stands at every tick among these inputs. */
  ghost predicate AlarmHeld(p: Policy, inputs: seq<Input>, from: nat, to: nat) {
    forall i :: from <= i < to <= |inputs| && inputs[i].Timer? ==> Alarmed(p, inputs[..i])
  }

  /** The ticks that a kill takes after `ticks` of them, counted from NOMINAL without a fault. */
  function Patience(l: Limits, ticks: nat): nat {
    Max1(l.grace) + if (ticks + 1) % U32 == 0 then 2 else 1
  }

  lemma DuePatience(l: Limits, c: Core, ticks: nat)
    requires Inv(l, c) && c.phase == NOMINAL && c.ticks == ticks % U32
    ensures Due(l, c) <= Patience(l, ticks)
    ensures c.faultSince == 0 ==> Due(l, c) == Patience(l, ticks)
  {
    IncCount(ticks);
  }

  /** The input of a tick that comes after input `j`. */
  lemma LaterTick(inputs: seq<Input>, j: nat, m: nat, n: nat) returns (i: nat)
    requires j <= m <= |inputs| && TicksIn(inputs[..j]) < n <= TicksIn(inputs[..m])
    ensures j <= i < m && inputs[i].Timer? && TickNumber(inputs, i) == n
  {
    i := TickInput(inputs, m, n);
    if i < j {
      TicksStep(inputs, i);
      TicksGrow(inputs, i + 1, j);
    }
  }

  /** The liveness of the escalation: a component that is in NOMINAL, and whose reports go on holding
      a child that has missed too many heartbeats or is gone, or stay away after the boot grace,
      publishes a kill within a grace window and one tick (two, when the fault is first seen by a tick
      whose number wraps), and on exactly that tick if no fault was pending. */
  lemma KillComes(p: Policy, templates: string, inputs: seq<Input>, j: nat, m: nat) returns (i: nat)
    requires j <= m <= |inputs| && StateAfter(p, templates, inputs, j).core.phase == NOMINAL
    requires AlarmHeld(p, inputs, j, m)
    requires TicksIn(inputs[..m]) >= TicksIn(inputs[..j]) + Patience(p.limits, TicksIn(inputs[..j]))
    ensures j <= i < m && KillInput(p, templates, inputs, i)
    ensures TickNumber(inputs, i) <= TicksIn(inputs[..j]) + Patience(p.limits, TicksIn(inputs[..j]))
    ensures StateAfter(p, templates, inputs, j).core.faultSince == 0 ==>
      TickNumber(inputs, i) == TicksIn(inputs[..j]) + Patience(p.limits, TicksIn(inputs[..j]))
  {
    var n, c := TicksIn(inputs[..j]), StateAfter(p, templates, inputs, j).core;
    var r := HistoryIsRun(p, templates, inputs);
    assert r.core(n) == c by {
      assert StateShared(r, p, templates, inputs, j);
    }
    RunInv(r, n);
    assert c.ticks == n % U32 by {
      HistoryRemembers(p, templates, inputs[..j]);
    }
    DuePatience(p.limits, c, n);
    var k := Due(p.limits, c);
    forall q | n < q <= n + k ensures r.fault(q) == Faulty {
      FaultThere(r, p, templates, inputs, j, m, q);
    }
    KillDue(r, n, k);
    i := KillThere(r, p, templates, inputs, j, m, n + k);
  }

  /** A kill of the run is one of the component. */
  lemma KillThere(r: Run, p: Policy, templates: string, inputs: seq<Input>, j: nat, m: nat, n: nat) returns (i: nat)
    requires RunOf(r, p, templates, inputs) && KillAt(r, n)
    requires j <= m <= |inputs| && TicksIn(inputs[..j]) < n <= TicksIn(inputs[..m])
    ensures j <= i < m && KillInput(p, templates, inputs, i) && TickNumber(inputs, i) == n
  {
    i := LaterTick(inputs, j, m, n);
    TicksStep(inputs, i);
    assert StateShared(r, p, templates, inputs, i) && StateShared(r, p, templates, inputs, i + 1);
  }

  lemma FaultThere(r: Run, p: Policy, templates: string, inputs: seq<Input>, j: nat, m: nat, n: nat)
    requires RunOf(r, p, templates, inputs) && j <= m <= |inputs| && AlarmHeld(p, inputs, j, m)
    requires TicksIn(inputs[..j]) < n <= TicksIn(inputs[..m])
    ensures r.fault(n) == Faulty
  {
    var i := LaterTick(inputs, j, m, n);
    assert TickShared(r, p, templates, inputs, i);
    assert Alarmed(p, inputs[..i]);
    FlagExact(p, templates, inputs[..i]);
  }
}
