// Whole runs of the supervisor's phase machine under an arbitrary fault signal.

module SupervisorRuns {
  import opened KillMarkers
  import opened SupervisorCore

  /** A policy, the fault flag of every tick (tick 1 is the first), and the state after every tick. */
  datatype Health = Healthy | Faulty
  datatype Run = Run(l: Limits, fault: nat -> Health, core: nat -> Core)

  ghost predicate StepAt(r: Run, n: nat) {
    r.core(n + 1) == React(r.l, r.core(n), r.fault(n + 1).Faulty?).core
  }

  ghost predicate IsRun(r: Run) {
    r.core(0) == Init() && forall n: nat :: StepAt(r, n)
  }

  /** What tick `n` does to the outside. */
  function Actions(r: Run, n: nat): seq<Action>
    requires n > 0
  {
    React(r.l, r.core(n - 1), r.fault(n).Faulty?).actions
  }

  /** The ticks at which a kill is published. */
  predicate KillAt(r: Run, n: nat) {
    n > 0 && r.core(n - 1).phase != CONTAIN && r.core(n).phase == CONTAIN
  }

  lemma {:induction false} RunInv(r: Run, n: nat)
    requires IsRun(r)
    ensures Inv(r.l, r.core(n))
    decreases n
  {
    if n > 0 {
      RunInv(r, n - 1);
      assert StepAt(r, n - 1);
      StepInv(r.l, r.core(n - 1), r.fault(n).Faulty?);
    }
  }

  // ---- escalation ---------------------------------------------------------

  lemma {:induction false} FaultWindow(r: Run, n: nat)
    requires IsRun(r) && r.core(n).phase == NOMINAL && r.core(n).faultSince != 0
    ensures var w := FaultyFor(r.core(n));
      w < n && forall j :: n - w <= j <= n ==> r.fault(j).Faulty? && r.core(j).phase == NOMINAL
    decreases n
  {
    assert n > 0;
    RunInv(r, n - 1);
    assert StepAt(r, n - 1);
    StepFaultRun(r.l, r.core(n - 1), r.fault(n).Faulty?);
    if FaultyFor(r.core(n)) > 0 {
      FaultWindow(r, n - 1);
    }
  }

  /** A kill comes only after a fault flag that was up on every tick of the escalation window,
      the whole window being spent in NOMINAL, and it is exactly one publication. */
  lemma Escalation(r: Run, n: nat)
    requires IsRun(r) && KillAt(r, n)
    ensures Max1(r.l.grace) < n
    ensures forall j :: n - Max1(r.l.grace) <= j <= n ==> r.fault(j).Faulty?
    ensures forall j :: n - Max1(r.l.grace) <= j < n ==> r.core(j).phase == NOMINAL
    ensures Actions(r, n) == [Publish("system")]
  {
    RunInv(r, n - 1);
    assert StepAt(r, n - 1);
    StepFaultRun(r.l, r.core(n - 1), r.fault(n).Faulty?);
    FaultWindow(r, n - 1);
  }

  // ---- rate ---------------------------------------------------------------

  lemma {:induction false} NextKillAfter(r: Run, kill: nat, n: nat)
    requires IsRun(r) && KillAt(r, kill) && kill <= n
    ensures NextKill(r.l, r.core(n)) + (n - kill) >= r.l.settle + 2 + Max1(r.l.grace)
    decreases n
  {
    RunInv(r, n - 1);
    assert StepAt(r, n - 1);
    StepNextKill(r.l, r.core(n - 1), r.fault(n).Faulty?);
    if kill < n {
      NextKillAfter(r, kill, n - 1);
    }
  }

  /** Two kills are at least a settle window, two ticks and an escalation window apart. */
  lemma KillRate(r: Run, first: nat, second: nat)
    requires IsRun(r) && first < second && KillAt(r, first) && KillAt(r, second)
    ensures second - first >= r.l.settle + 2 + Max1(r.l.grace)
  {
    NextKillAfter(r, first, second - 1);
    RunInv(r, second - 1);
    assert StepAt(r, second - 1);
    StepNextKill(r.l, r.core(second - 1), r.fault(second).Faulty?);
  }

  // ---- bounded return -----------------------------------------------------

  lemma {:induction false} RunTimelyInv(r: Run, n: nat)
    requires IsRun(r) && Timely(r.l)
    ensures TimelyInv(r.l, r.core(n))
    decreases n
  {
    if n > 0 {
      RunTimelyInv(r, n - 1);
      assert StepAt(r, n - 1);
      StepReturning(r.l, r.core(n - 1), r.fault(n).Faulty?);
    }
  }

  /** From any state outside NOMINAL: the tick of the return. */
  lemma {:induction false} ReturnFrom(r: Run, n: nat) returns (m: nat)
    requires IsRun(r) && Timely(r.l) && Away(r.core(n))
    ensures n < m <= n + Remaining(r.l, r.core(n)) && r.core(m).phase == NOMINAL
    ensures forall k :: n <= k < m ==> Away(r.core(k))
    decreases Remaining(r.l, r.core(n))
  {
    RunTimelyInv(r, n);
    assert StepAt(r, n);
    StepReturning(r.l, r.core(n), r.fault(n + 1).Faulty?);
    if r.core(n + 1).phase == NOMINAL {
      m := n + 1;
    } else {
      m := ReturnFrom(r, n + 1);
    }
  }

  /** After a kill the machine is back in NOMINAL within the bound, whatever the signal does. */
  lemma BoundedReturn(r: Run, n: nat) returns (m: nat)
    requires IsRun(r) && Timely(r.l) && KillAt(r, n)
    ensures n < m <= n + Bound(r.l) && r.core(m).phase == NOMINAL
    ensures forall k :: n <= k < m ==> Away(r.core(k))
  {
    RunTimelyInv(r, n - 1);
    assert StepAt(r, n - 1);
    StepReturning(r.l, r.core(n - 1), r.fault(n).Faulty?);
    m := ReturnFrom(r, n);
  }

  /** How long a phase outside NOMINAL may last. */
  function PhaseBound(l: Limits, phase: Phase): nat {
    match phase
    case CONTAIN => Max1(l.grace) + l.settle
    case CONSOLE => Max1(l.console) + l.settle
    case _ => Max1(l.settle)
  }

  lemma StepElapsed(l: Limits, c: Core, fault: bool)
    requires Timely(l) && TimelyInv(l, c) && Away(c) && React(l, c, fault).core.phase == c.phase
    ensures Elapsed(React(l, c, fault).core) == Elapsed(c) + 1
  {
    SinceInc(c.ticks, c.phaseSince);
  }

  lemma ElapsedBounded(l: Limits, c: Core)
    requires TimelyInv(l, c) && Away(c)
    ensures Elapsed(c) < PhaseBound(l, c.phase)
  {
  }

  /** No phase outside NOMINAL lasts longer than its own windows allow, whatever the signal does. */
  lemma {:induction false} PhaseLasts(r: Run, n: nat, k: nat)
    requires IsRun(r) && Timely(r.l) && Away(r.core(n))
    requires forall j :: n <= j <= n + k ==> r.core(j).phase == r.core(n).phase
    ensures Elapsed(r.core(n)) + k == Elapsed(r.core(n + k)) < PhaseBound(r.l, r.core(n).phase)
    decreases k
  {
    assert Elapsed(r.core(n + k)) < PhaseBound(r.l, r.core(n).phase) by {
      RunTimelyInv(r, n + k);
      ElapsedBounded(r.l, r.core(n + k));
    }
    if k > 0 {
      PhaseLasts(r, n, k - 1);
      RunTimelyInv(r, n + k - 1);
      assert StepAt(r, n + k - 1);
      StepElapsed(r.l, r.core(n + k - 1), r.fault(n + k).Faulty?);
    }
  }

  // ---- the fault console --------------------------------------------------

  /** Whether the console is armed after some actions: the last arm report counts. */
  function Armed(before: bool, actions: seq<Action>): bool
    decreases actions
  {
    if actions == [] then before
    else Armed(if actions[0].Arm? then actions[0].on else before, actions[1..])
  }

  function ArmedAt(r: Run, n: nat): bool {
    n > 0 && Armed(ArmedAt(r, n - 1), Actions(r, n))
  }

  lemma StepArmed(l: Limits, c: Core, fault: bool, armed: bool)
    requires armed == (c.phase == CONSOLE)
    ensures var t := React(l, c, fault);
      Armed(armed, t.actions) == (t.core.phase == CONSOLE)
  {
    var acts := React(l, c, fault).actions;
    if |acts| == 1 {
      assert acts[1..] == [];
    } else if |acts| == 2 {
      assert acts[1..] == [acts[1]] && acts[1..][1..] == [];
    }
  }

  /** The console is armed exactly while the phase is CONSOLE. */
  lemma {:induction false} ConsoleArmed(r: Run, n: nat)
    requires IsRun(r)
    ensures ArmedAt(r, n) <==> r.core(n).phase == CONSOLE
    decreases n
  {
    if n > 0 {
      ConsoleArmed(r, n - 1);
      assert StepAt(r, n - 1);
      StepArmed(r.l, r.core(n - 1), r.fault(n).Faulty?, ArmedAt(r, n - 1));
    }
  }

  lemma StepContained(l: Limits, c: Core, fault: bool)
    ensures var d := React(l, c, fault).core;
      d.phase == CONTAIN && c.phase == CONTAIN ==> Elapsed(d) <= Elapsed(c) + 1
    ensures var d := React(l, c, fault).core;
      d.phase == CONTAIN && c.phase != CONTAIN ==> Elapsed(d) == 0
  {
    SinceInc(c.ticks, c.phaseSince);
  }

  /** The kill that a CONTAIN phase goes back to. */
  lemma {:induction false} KillBefore(r: Run, n: nat) returns (k: nat)
    requires IsRun(r) && r.core(n).phase == CONTAIN
    ensures k <= n && KillAt(r, k) && Elapsed(r.core(n)) <= n - k
    ensures forall j :: k <= j <= n ==> r.core(j).phase == CONTAIN
    decreases n
  {
    assert StepAt(r, n - 1);
    StepContained(r.l, r.core(n - 1), r.fault(n).Faulty?);
    k := n;
    if r.core(n - 1).phase == CONTAIN {
      k := KillBefore(r, n - 1);
    }
  }

  lemma StepArms(l: Limits, c: Core, fault: bool)
    requires Arm(true) in React(l, c, fault).actions
    ensures c.phase == CONTAIN && fault && l.grace <= Elapsed(c) + 1
    ensures React(l, c, fault).actions == [Publish("system_console"), Arm(true)]
  {
    SinceInc(c.ticks, c.phaseSince);
  }

  /** The console is armed only behind a kill, at least a grace window after it, with the
      desktop-less configuration published on the same tick, before the arming. */
  lemma ArmingFollowsKill(r: Run, n: nat) returns (k: nat)
    requires IsRun(r) && n > 0 && Arm(true) in Actions(r, n)
    ensures KillAt(r, k) && k + Max1(r.l.grace) <= n
    ensures forall j :: k <= j < n ==> r.core(j).phase == CONTAIN
    ensures Actions(r, n) == [Publish("system_console"), Arm(true)]
  {
    StepArms(r.l, r.core(n - 1), r.fault(n).Faulty?);
    k := KillBefore(r, n - 1);
  }

  lemma StepRelease(l: Limits, c: Core, fault: bool)
    requires c.phase == RELEASE && Elapsed(c) < Max1(l.settle)
    ensures var t := React(l, c, fault);
      if Elapsed(c) + 1 < Max1(l.settle) then t.actions == [] && t.core.phase == RELEASE && Elapsed(t.core) == Elapsed(c) + 1
      else t.actions == [Publish("system")] && t.core.phase == NOMINAL
  {
    SinceInc(c.ticks, c.phaseSince);
  }

  lemma {:induction false} Releasing(r: Run, n: nat, k: nat)
    requires IsRun(r) && r.core(n).phase == RELEASE && Elapsed(r.core(n)) == 0
    requires k < Max1(r.l.settle)
    ensures r.core(n + k).phase == RELEASE && Elapsed(r.core(n + k)) == k
    ensures k > 0 ==> Actions(r, n + k) == []
    decreases k
  {
    if k > 0 {
      Releasing(r, n, k - 1);
      assert StepAt(r, n + k - 1);
      StepRelease(r.l, r.core(n + k - 1), r.fault(n + k).Faulty?);
    }
  }

  /** After the console is disarmed nothing is published for a settle window, at the end of which
      the nominal configuration is published. */
  lemma ReleaseRestores(r: Run, n: nat)
    requires IsRun(r) && n > 1 && Arm(false) in Actions(r, n)
    ensures var m := n + Max1(r.l.settle);
      && Actions(r, m) == [Publish("system")] && r.core(m).phase == NOMINAL
      && forall k :: n < k < m ==> Actions(r, k) == []
  {
    var m := n + Max1(r.l.settle);
    RunInv(r, n - 1);
    NotBootAgain(r, n - 1);
    assert StepAt(r, n - 1);
    forall k | n < k < m ensures Actions(r, k) == [] {
      Releasing(r, n, k - n);
    }
    Releasing(r, n, m - 1 - n);
    assert StepAt(r, m - 1);
    StepRelease(r.l, r.core(m - 1), r.fault(m).Faulty?);
  }

  lemma {:induction false} NotBootAgain(r: Run, n: nat)
    requires IsRun(r) && n > 0
    ensures r.core(n).phase != BOOT
    decreases n
  {
    assert StepAt(r, n - 1);
    if n > 1 {
      NotBootAgain(r, n - 1);
    }
  }

  // ---- adversaries --------------------------------------------------------

  function Flag(fault: bool): Health { if fault then Faulty else Healthy }

  /** A strategy chooses the next fault flag from the current state. */
  type Strategy = Core -> Health

  function Next(l: Limits, s: Strategy, c: Core): Core {
    React(l, c, s(c).Faulty?).core
  }

  function Follow(l: Limits, s: Strategy, n: nat): Core {
    if n == 0 then Init() else Next(l, s, Follow(l, s, n - 1))
  }

  ghost predicate FollowsAt(r: Run, s: Strategy, n: nat) {
    r.core(n + 1) == Next(r.l, s, r.core(n))
  }

  /** The run in which the signal is the one that the strategy chooses. */
  ghost predicate Follows(r: Run, s: Strategy) {
    IsRun(r) && forall n: nat :: FollowsAt(r, s, n)
  }

  lemma Play(l: Limits, s: Strategy) returns (r: Run)
    ensures r.l == l && Follows(r, s)
  {
    r := Run(l, (n: nat) => if n > 0 then s(Follow(l, s, n - 1)) else Healthy, (n: nat) => Follow(l, s, n));
    forall n: nat ensures StepAt(r, n) && FollowsAt(r, s, n) {
      assert r.core(n + 1) == Follow(l, s, n + 1);
    }
  }

  /** A strategy that never lets a fault go away in NOMINAL. */
  ghost predicate Relentless(s: Strategy) {
    forall c: Core :: c.phase == NOMINAL ==> s(c).Faulty?
  }

  lemma StepRelentless(l: Limits, s: Strategy, c: Core)
    requires Relentless(s) && c.phase == NOMINAL && c.faultSince != 0 && FaultyFor(c) + 1 < U32
    ensures var d := Next(l, s, c);
      if FaultyFor(c) + 1 < l.grace then d.phase == NOMINAL && d.faultSince == c.faultSince && FaultyFor(d) == FaultyFor(c) + 1
      else d.phase == CONTAIN && d.phaseSince == d.ticks && !d.everHealthy
  {
    SinceInc(c.ticks, c.faultSince);
  }

  lemma {:induction false} RelentlessWindow(r: Run, s: Strategy, i: nat)
    requires Follows(r, s) && Relentless(s) && i < Max1(r.l.grace)
    ensures var c := r.core(2 + i);
      c.phase == NOMINAL && c.faultSince == 2 && FaultyFor(c) == i
    decreases i
  {
    if i == 0 {
      assert FollowsAt(r, s, 0) && FollowsAt(r, s, 1);
    } else {
      RelentlessWindow(r, s, i - 1);
      assert FollowsAt(r, s, 1 + i);
      StepRelentless(r.l, s, r.core(1 + i));
    }
  }

  /** A relentless fault is answered by a kill as soon as the escalation window allows. */
  lemma FirstKill(r: Run, s: Strategy) returns (n: nat)
    requires Follows(r, s) && Relentless(s)
    ensures n == 2 + Max1(r.l.grace) && KillAt(r, n)
    ensures r.core(n).phaseSince == r.core(n).ticks && !r.core(n).everHealthy
  {
    n := 2 + Max1(r.l.grace);
    RelentlessWindow(r, s, Max1(r.l.grace) - 1);
    assert FollowsAt(r, s, n - 1);
    StepRelentless(r.l, s, r.core(n - 1));
  }

  // ---- the rate is attained -----------------------------------------------

  /** Healthy in CONTAIN, and for one tick after tick `pause`; faulty otherwise. */
  function Brisk(pause: u32): Strategy {
    (c: Core) => if c.phase == CONTAIN || (c.phase == NOMINAL && c.faultSince == 0 && c.ticks == pause) then Healthy else Faulty
  }

  lemma {:induction false} TicksCount(r: Run, n: nat)
    requires IsRun(r)
    ensures r.core(n).ticks == n % U32
    decreases n
  {
    if n > 0 {
      TicksCount(r, n - 1);
      assert StepAt(r, n - 1);
    }
  }

  lemma StepBrisk(l: Limits, pause: u32, c: Core)
    requires c.phase == NOMINAL && (c.faultSince != 0 ==> FaultyFor(c) + 1 < U32)
    ensures var d := Next(l, Brisk(pause), c);
      if c.faultSince == 0 then
        d.phase == NOMINAL && d.faultSince == (if c.ticks == pause then 0 else d.ticks)
        && d.ticks == Inc(c.ticks) && FaultyFor(d.(faultSince := d.ticks)) == 0
      else if FaultyFor(c) + 1 < l.grace then d.phase == NOMINAL && d.faultSince == c.faultSince && FaultyFor(d) == FaultyFor(c) + 1
      else d.phase == CONTAIN && !d.everHealthy
  {
    SinceInc(c.ticks, c.faultSince);
    SinceInc(Inc(c.ticks), Inc(c.ticks));
  }

  /** A fault that starts on the tick after `n` and stays is answered as soon as the window allows. */
  lemma {:induction false} BriskWindow(r: Run, pause: u32, n: nat, i: nat)
    requires Follows(r, Brisk(pause)) && r.core(n).phase == NOMINAL && r.core(n).faultSince == 0
    requires r.core(n).ticks != pause && Inc(r.core(n).ticks) != 0 && i < Max1(r.l.grace)
    ensures var c := r.core(n + 1 + i);
      c.phase == NOMINAL && c.faultSince != 0 && FaultyFor(c) == i
    decreases i
  {
    assert FollowsAt(r, Brisk(pause), n + i);
    if i == 0 {
      StepBrisk(r.l, pause, r.core(n));
    } else {
      BriskWindow(r, pause, n, i - 1);
      StepBrisk(r.l, pause, r.core(n + i));
    }
  }

  lemma BriskKill(r: Run, pause: u32, n: nat)
    requires Follows(r, Brisk(pause)) && r.core(n).phase == NOMINAL && r.core(n).faultSince == 0
    requires r.core(n).ticks != pause && Inc(r.core(n).ticks) != 0
    ensures KillAt(r, n + 1 + Max1(r.l.grace)) && !r.core(n + 1 + Max1(r.l.grace)).everHealthy
  {
    var k := n + Max1(r.l.grace);
    BriskWindow(r, pause, n, Max1(r.l.grace) - 1);
    assert FollowsAt(r, Brisk(pause), k);
    StepBrisk(r.l, pause, r.core(k));
  }

  lemma StepHeal(l: Limits, pause: u32, c: Core)
    requires c.phase == CONTAIN && (c.everHealthy ==> HealthyFor(c) < l.settle)
    ensures var d, k := Next(l, Brisk(pause), c), if c.everHealthy then HealthyFor(c) + 1 else 0;
      if k < l.settle then d.phase == CONTAIN && d.everHealthy && HealthyFor(d) == k
      else d.phase == NOMINAL && d.faultSince == 0
  {
    SinceInc(c.ticks, c.healthySince);
    SinceInc(Inc(c.ticks), Inc(c.ticks));
  }

  /** A subtree that is healthy after the kill is left alone after a settle window. */
  lemma {:induction false} BriskHealing(r: Run, pause: u32, n: nat, i: nat)
    requires Follows(r, Brisk(pause)) && r.core(n).phase == CONTAIN && !r.core(n).everHealthy && i <= r.l.settle
    ensures var c := r.core(n + 1 + i);
      if i < r.l.settle then c.phase == CONTAIN && c.everHealthy && HealthyFor(c) == i
      else c.phase == NOMINAL && c.faultSince == 0
    decreases i
  {
    assert FollowsAt(r, Brisk(pause), n + i);
    if i == 0 {
      StepHeal(r.l, pause, r.core(n));
    } else {
      BriskHealing(r, pause, n, i - 1);
      StepHeal(r.l, pause, r.core(n + i));
    }
  }

  /** From a quiet NOMINAL state: two kills at the distance that `KillRate` demands. */
  lemma BriskPair(r: Run, pause: u32, n: nat)
    requires Follows(r, Brisk(pause)) && r.core(n).phase == NOMINAL && r.core(n).faultSince == 0
    requires var m := n + 1 + Max1(r.l.grace) + 1 + r.l.settle;
      n % U32 != pause && (n + 1) % U32 != 0 && m % U32 != pause && (m + 1) % U32 != 0
    ensures var first := n + 1 + Max1(r.l.grace);
      KillAt(r, first) && KillAt(r, first + r.l.settle + 2 + Max1(r.l.grace))
  {
    var first := n + 1 + Max1(r.l.grace);
    var m := first + 1 + r.l.settle;
    TicksCount(r, n);
    TicksCount(r, n + 1);
    assert StepAt(r, n);
    BriskKill(r, pause, n);
    BriskHealing(r, pause, first, r.l.settle);
    TicksCount(r, m);
    TicksCount(r, m + 1);
    assert StepAt(r, m);
    BriskKill(r, pause, m);
  }

  /** The distance of `KillRate` is exact: under every policy some signal has two kills that far apart
      and no further. */
  lemma RateAttained(l: Limits) returns (r: Run, first: nat, second: nat)
    ensures r.l == l && IsRun(r) && KillAt(r, first) && KillAt(r, second)
    ensures second == first + l.settle + 2 + Max1(l.grace)
  {
    // a fault that would start on tick number zero is not remembered: then everything starts a tick later
    var late := (4 + Max1(l.grace) + l.settle) % U32 == 0;
    var n, pause := if late then 2 else 1, if late then 1 else U32 - 1;
    r := Play(l, Brisk(pause));
    assert FollowsAt(r, Brisk(pause), 0);
    TicksCount(r, 1);
    if late {
      assert FollowsAt(r, Brisk(pause), 1);
      StepBrisk(l, pause, r.core(1));
    }
    BriskPair(r, pause, n);
    first := n + 1 + Max1(l.grace);
    second := first + l.settle + 2 + Max1(l.grace);
  }

  // ---- policies that are not timely ---------------------------------------

  /** Faulty until the elapsed time reaches the hold window, then healthy until it wraps. */
  function Stall(l: Limits): Strategy {
    (c: Core) =>
      var e := Since(Inc(c.ticks), c.phaseSince);
      match c.phase
      case CONTAIN => Flag(l.grace + l.settle < U32 || e < l.grace)
      case CONSOLE => Flag(e < l.console)
      case _ => Faulty
  }

  /** Holding a watched phase until the elapsed time wraps, over and over. */
  predicate HoldInv(c: Core, hold: u32) {
    if Elapsed(c) < hold then !c.everHealthy
    else c.everHealthy && HealthyFor(c) == Elapsed(c) - hold
  }

  lemma StepHoldContain(l: Limits, c: Core)
    requires l.grace + l.settle >= U32 && c.phase == CONTAIN && HoldInv(c, l.grace)
    ensures var d := Next(l, Stall(l), c); d.phase == CONTAIN && HoldInv(d, l.grace)
  {
    SinceInc(c.ticks, c.phaseSince);
    SinceInc(c.ticks, c.healthySince);
  }

  lemma StepHoldConsole(l: Limits, c: Core)
    requires l.console + l.settle >= U32 && c.phase == CONSOLE && HoldInv(c, l.console)
    ensures var d := Next(l, Stall(l), c); d.phase == CONSOLE && HoldInv(d, l.console)
  {
    SinceInc(c.ticks, c.phaseSince);
    SinceInc(c.ticks, c.healthySince);
  }

  lemma {:induction false} HeldContain(r: Run, n: nat, m: nat)
    requires Follows(r, Stall(r.l)) && r.l.grace + r.l.settle >= U32 && n <= m
    requires r.core(n).phase == CONTAIN && HoldInv(r.core(n), r.l.grace)
    ensures r.core(m).phase == CONTAIN && HoldInv(r.core(m), r.l.grace)
    decreases m
  {
    if n < m {
      HeldContain(r, n, m - 1);
      assert FollowsAt(r, Stall(r.l), m - 1);
      StepHoldContain(r.l, r.core(m - 1));
    }
  }

  lemma {:induction false} HeldConsole(r: Run, n: nat, m: nat)
    requires Follows(r, Stall(r.l)) && r.l.console + r.l.settle >= U32 && n <= m
    requires r.core(n).phase == CONSOLE && HoldInv(r.core(n), r.l.console)
    ensures r.core(m).phase == CONSOLE && HoldInv(r.core(m), r.l.console)
    decreases m
  {
    if n < m {
      HeldConsole(r, n, m - 1);
      assert FollowsAt(r, Stall(r.l), m - 1);
      StepHoldConsole(r.l, r.core(m - 1));
    }
  }

  lemma StepToConsole(l: Limits, c: Core)
    requires l.grace + l.settle < U32 && c.phase == CONTAIN && Elapsed(c) < Max1(l.grace)
    ensures var d := Next(l, Stall(l), c);
      if Elapsed(c) + 1 < l.grace then d.phase == CONTAIN && Elapsed(d) == Elapsed(c) + 1
      else d.phase == CONSOLE && Elapsed(d) == 0 && !d.everHealthy
  {
    SinceInc(c.ticks, c.phaseSince);
  }

  lemma {:induction false} ToConsole(r: Run, n: nat) returns (m: nat)
    requires Follows(r, Stall(r.l)) && r.l.grace + r.l.settle < U32
    requires r.core(n).phase == CONTAIN && Elapsed(r.core(n)) < Max1(r.l.grace)
    ensures n < m && r.core(m).phase == CONSOLE && Elapsed(r.core(m)) == 0 && !r.core(m).everHealthy
    ensures forall k :: n <= k <= m ==> Away(r.core(k))
    decreases Max1(r.l.grace) - Elapsed(r.core(n))
  {
    assert FollowsAt(r, Stall(r.l), n);
    StepToConsole(r.l, r.core(n));
    m := n + 1;
    if r.core(n + 1).phase == CONTAIN {
      m := ToConsole(r, n + 1);
    }
  }

  /** When a window sum overflows, some fault signal keeps the machine away from NOMINAL for ever. */
  lemma Stalls(l: Limits) returns (r: Run, n: nat)
    requires !Timely(l)
    ensures r.l == l && IsRun(r) && KillAt(r, n)
    ensures forall k :: n <= k ==> Away(r.core(k))
  {
    r := Play(l, Stall(l));
    n := FirstKill(r, Stall(l));
    if l.grace + l.settle >= U32 {
      forall k | n <= k ensures Away(r.core(k)) {
        HeldContain(r, n, k);
      }
    } else {
      var m := ToConsole(r, n);
      forall k | m <= k ensures Away(r.core(k)) {
        HeldConsole(r, m, k);
      }
    }
  }

  ghost predicate AlwaysReturns(l: Limits) {
    forall r: Run, n: nat :: r.l == l && IsRun(r) && KillAt(r, n) ==> Returns(r, n)
  }

  ghost predicate Returns(r: Run, n: nat) {
    exists m: nat :: n < m && r.core(m).phase == NOMINAL
  }

  /** Every kill is followed by a return to NOMINAL, whatever the signal, if and only if no window
      sum overflows the tick counter. */
  lemma ReturnsIffTimely(l: Limits)
    ensures AlwaysReturns(l) <==> Timely(l)
  {
    if Timely(l) {
      forall r: Run, n: nat | r.l == l && IsRun(r) && KillAt(r, n) ensures Returns(r, n) {
        var m := BoundedReturn(r, n);
      }
    } else {
      var r, n := Stalls(l);
      assert !Returns(r, n);
    }
  }

  // ---- the bound is attained ----------------------------------------------

  /** Faulty up to the hold window, healthy for just less than a settle window, then faulty. */
  function Worst(l: Limits): Strategy {
    (c: Core) =>
      var e := Since(Inc(c.ticks), c.phaseSince);
      match c.phase
      case CONTAIN => Flag(!(Max1(l.grace) <= e < Max1(l.grace) + l.settle))
      case CONSOLE => Flag(!(Max1(l.console) <= e < Max1(l.console) + l.settle))
      case _ => Faulty
  }

  predicate WorstWatch(c: Core, hold: nat, settle: nat) {
    if Elapsed(c) < hold then !c.everHealthy
    else c.everHealthy && HealthyFor(c) == Elapsed(c) - hold < settle
  }

  predicate WorstInv(l: Limits, c: Core) {
    match c.phase
    case CONTAIN => WorstWatch(c, Max1(l.grace), l.settle)
    case CONSOLE => WorstWatch(c, Max1(l.console), l.settle)
    case RELEASE => Elapsed(c) < Max1(l.settle)
    case _ => false
  }

  lemma StepWorstContain(l: Limits, c: Core)
    requires Timely(l) && WorstInv(l, c) && c.phase == CONTAIN
    ensures var d := Next(l, Worst(l), c);
      Remaining(l, d) == Remaining(l, c) - 1 && WorstInv(l, d)
  {
    SinceInc(c.ticks, c.phaseSince);
    SinceInc(c.ticks, c.healthySince);
  }

  lemma StepWorst(l: Limits, c: Core)
    requires Timely(l) && WorstInv(l, c)
    ensures var d := Next(l, Worst(l), c);
      && Remaining(l, d) == Remaining(l, c) - 1
      && if Remaining(l, c) > 1 then WorstInv(l, d) else d.phase == NOMINAL
  {
    if c.phase == CONTAIN {
      StepWorstContain(l, c);
    } else {
      SinceInc(c.ticks, c.phaseSince);
      SinceInc(c.ticks, c.healthySince);
    }
  }

  lemma {:induction false} WorstFrom(r: Run, n: nat, k: nat)
    requires Follows(r, Worst(r.l)) && Timely(r.l) && WorstInv(r.l, r.core(n))
    requires k <= Remaining(r.l, r.core(n))
    ensures Remaining(r.l, r.core(n + k)) == Remaining(r.l, r.core(n)) - k
    ensures if k < Remaining(r.l, r.core(n)) then WorstInv(r.l, r.core(n + k)) else r.core(n + k).phase == NOMINAL
    decreases k
  {
    if k > 0 {
      WorstFrom(r, n, k - 1);
      assert FollowsAt(r, Worst(r.l), n + k - 1);
      StepWorst(r.l, r.core(n + k - 1));
    }
  }

  /** The bound of `BoundedReturn` is exact: some signal keeps the machine away from NOMINAL for
      every tick the bound allows. */
  lemma BoundAttained(l: Limits) returns (r: Run, n: nat)
    requires Timely(l)
    ensures r.l == l && IsRun(r) && KillAt(r, n)
    ensures forall k :: n <= k < n + Bound(l) ==> Away(r.core(k))
    ensures r.core(n + Bound(l)).phase == NOMINAL
  {
    r := Play(l, Worst(l));
    n := FirstKill(r, Worst(l));
    forall k | n <= k < n + Bound(l) ensures Away(r.core(k)) {
      WorstFrom(r, n, k - n);
    }
    WorstFrom(r, n, Bound(l));
  }
}
