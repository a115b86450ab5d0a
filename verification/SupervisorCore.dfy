// The supervisor's phase machine, driven by one fault flag per tick.
//
// Tick counters are 32-bit and wrap; differences are taken modulo 2^32, as in
// the source. What a tick does to the outside is a list of actions.

module SupervisorCore {
  import opened KillMarkers

  type u32 = x: nat | x < U32

  datatype Phase = BOOT | NOMINAL | CONTAIN | CONSOLE | RELEASE

  /** The policy windows, in ticks. */
  datatype Limits = Limits(bootGrace: u32, grace: u32, console: u32, settle: u32)

  datatype Core = Core(phase: Phase, ticks: u32, phaseSince: u32, healthySince: u32, everHealthy: bool, faultSince: u32)

  datatype Action = Publish(name: string) | Arm(on: bool) | Rebaseline

  datatype Reaction = Reaction(core: Core, actions: seq<Action>)

  function Init(): Core {
    Core(BOOT, 0, 0, 0, false, 0)
  }

  function Inc(x: u32): u32 {
    (x + 1) % U32
  }

  /** Unsigned `now - since`. */
  function Since(now: u32, since: u32): (d: u32)
    ensures (since + d) % U32 == now
  {
    if now >= since then now - since else now - since + U32
  }

  function Enter(c: Core, phase: Phase): Core {
    c.(phase := phase, phaseSince := c.ticks, faultSince := if phase == NOMINAL then 0 else c.faultSince)
  }

  /** A healthy tick while the subtree is being watched: the healthy run starts or goes on. */
  function Heal(c: Core): Core {
    if c.everHealthy then c else c.(everHealthy := true, healthySince := c.ticks)
  }

  function Quiet(c: Core): Reaction {
    Reaction(c, [])
  }

  function OnNominal(l: Limits, c: Core, fault: bool): Reaction {
    if !fault then Quiet(c.(faultSince := 0))
    else if c.faultSince == 0 then Quiet(c.(faultSince := c.ticks))
    else if Since(c.ticks, c.faultSince) < l.grace then Quiet(c)
    else Reaction(Enter(c.(faultSince := 0, everHealthy := false), CONTAIN), [Publish("system")])
  }

  function OnContain(l: Limits, c: Core, fault: bool): Reaction {
    if !fault then
      var h := Heal(c);
      if Since(h.ticks, h.healthySince) < l.settle then Quiet(h)
      else Reaction(Enter(h, NOMINAL), [Rebaseline])
    else
      var h := c.(everHealthy := false);
      if Since(h.ticks, h.phaseSince) < l.grace then Quiet(h)
      else Reaction(Enter(h, CONSOLE), [Publish("system_console"), Arm(true)])
  }

  function OnConsole(l: Limits, c: Core, fault: bool): Reaction {
    if fault then
      var h := c.(everHealthy := false);
      if Since(h.ticks, h.phaseSince) < l.console then Quiet(h)
      else Reaction(Enter(h, RELEASE), [Arm(false)])
    else
      var h := Heal(c);
      if Since(h.ticks, h.healthySince) < l.settle then Quiet(h)
      else Reaction(Enter(h, RELEASE), [Arm(false)])
  }

  function OnRelease(l: Limits, c: Core): Reaction {
    if Since(c.ticks, c.phaseSince) < l.settle then Quiet(c)
    else Reaction(Enter(c, NOMINAL), [Publish("system")])
  }

  /** One tick. */
  function React(l: Limits, before: Core, fault: bool): Reaction {
    var c := before.(ticks := Inc(before.ticks));
    match c.phase
    case BOOT => Reaction(Enter(c, NOMINAL), [Arm(false), Publish("system")])
    case NOMINAL => OnNominal(l, c, fault)
    case CONTAIN => OnContain(l, c, fault)
    case CONSOLE => OnConsole(l, c, fault)
    case RELEASE => OnRelease(l, c)
  }

  function Max1(x: nat): nat { if x == 0 then 1 else x }

  function Elapsed(c: Core): u32 { Since(c.ticks, c.phaseSince) }
  function HealthyFor(c: Core): u32 { Since(c.ticks, c.healthySince) }
  function FaultyFor(c: Core): u32 { Since(c.ticks, c.faultSince) }

  lemma SinceInc(now: u32, since: u32)
    ensures Since(now, since) + 1 < U32 ==> Since(Inc(now), since) == Since(now, since) + 1
    ensures Since(now, since) + 1 == U32 ==> Since(Inc(now), since) == 0
    ensures Since(now, now) == 0
  {
  }

  predicate Away(c: Core) { c.phase == CONTAIN || c.phase == CONSOLE || c.phase == RELEASE }

  // ---- what one tick keeps, for every policy ------------------------------

  predicate Inv(l: Limits, c: Core) {
    match c.phase
    case BOOT => c == Init()
    case NOMINAL => c.faultSince != 0 ==> FaultyFor(c) < Max1(l.grace)
    case CONTAIN => c.everHealthy ==> HealthyFor(c) < l.settle
    case CONSOLE => c.everHealthy ==> HealthyFor(c) < l.settle
    case RELEASE => Elapsed(c) < Max1(l.settle)
  }

  lemma StepInv(l: Limits, c: Core, fault: bool)
    requires Inv(l, c)
    ensures Inv(l, React(l, c, fault).core)
  {
    SinceInc(c.ticks, c.phaseSince);
    SinceInc(c.ticks, c.healthySince);
    SinceInc(c.ticks, c.faultSince);
  }

  /** How the memory of a fault run in NOMINAL arises. */
  lemma StepFaultRun(l: Limits, c: Core, fault: bool)
    requires Inv(l, c)
    ensures var d := React(l, c, fault).core;
      d.phase == NOMINAL && d.faultSince != 0 ==>
        && c.phase == NOMINAL && fault
        && (FaultyFor(d) == 0 || (c.faultSince != 0 && FaultyFor(d) == FaultyFor(c) + 1))
    ensures var d := React(l, c, fault).core;
      c.phase != CONTAIN && d.phase == CONTAIN ==>
        && c.phase == NOMINAL && fault && c.faultSince != 0 && FaultyFor(c) + 1 >= Max1(l.grace)
        && React(l, c, fault).actions == [Publish("system")]
  {
    SinceInc(c.ticks, c.faultSince);
  }

  /** A lower bound on the ticks until the next kill. */
  function NextKill(l: Limits, c: Core): int {
    var afterNominal := Max1(l.grace) + 1;
    match c.phase
    case BOOT => 1 + afterNominal
    case NOMINAL => if c.faultSince == 0 then afterNominal else Max1(l.grace) - FaultyFor(c)
    case CONTAIN => (if c.everHealthy then l.settle - HealthyFor(c) else l.settle + 1) + afterNominal
    case CONSOLE => 1 + Max1(l.settle) + afterNominal
    case RELEASE => Max1(l.settle) - Elapsed(c) + afterNominal
  }

  lemma StepNextKill(l: Limits, c: Core, fault: bool)
    requires Inv(l, c)
    ensures var d := React(l, c, fault).core;
      if d.phase == CONTAIN && c.phase != CONTAIN then NextKill(l, c) <= 1 && NextKill(l, d) == l.settle + 2 + Max1(l.grace)
      else NextKill(l, d) >= NextKill(l, c) - 1
  {
    SinceInc(c.ticks, c.phaseSince);
    SinceInc(c.ticks, c.healthySince);
    SinceInc(c.ticks, c.faultSince);
  }

  // ---- what one tick keeps when no window sum overflows -------------------

  /** No window sum overflows the tick counter. */
  predicate Timely(l: Limits) {
    l.grace + l.settle < U32 && l.console + l.settle < U32
  }

  /** A watched phase with hold window `hold`: how long it has lasted, and the healthy run in it. */
  predicate WatchInv(c: Core, hold: nat, settle: nat) {
    if c.everHealthy then
      HealthyFor(c) < settle && HealthyFor(c) < Elapsed(c) <= HealthyFor(c) + Max1(hold)
    else
      Elapsed(c) < Max1(hold)
  }

  predicate TimelyInv(l: Limits, c: Core) {
    && Inv(l, c)
    && (c.phase == CONTAIN ==> WatchInv(c, l.grace, l.settle))
    && (c.phase == CONSOLE ==> WatchInv(c, l.console, l.settle))
  }

  /** An upper bound on the ticks until the machine is back in NOMINAL. */
  function Remaining(l: Limits, c: Core): int {
    var release := Max1(l.settle);
    var console := Max1(l.console) + l.settle;
    match c.phase
    case BOOT => 0
    case NOMINAL => 0
    case CONTAIN => Max1(l.grace) + l.settle - Elapsed(c) + console + release
    case CONSOLE => console - Elapsed(c) + release
    case RELEASE => release - Elapsed(c)
  }

  /** The longest time from a kill back to NOMINAL. */
  function Bound(l: Limits): nat {
    Max1(l.grace) + l.settle + Max1(l.console) + l.settle + Max1(l.settle)
  }

  /** What a tick does to the invariant and to the time that remains. */
  predicate Returning(l: Limits, c: Core, d: Core) {
    && TimelyInv(l, d)
    && (Away(c) ==> 0 < Remaining(l, c) && (d.phase == NOMINAL || (Away(d) && Remaining(l, d) < Remaining(l, c))))
    && (Away(d) && !Away(c) ==> c.phase == NOMINAL && d.phase == CONTAIN && Remaining(l, d) == Bound(l))
  }

  lemma StepContainFaulty(l: Limits, c: Core)
    requires Timely(l) && TimelyInv(l, c) && c.phase == CONTAIN
    ensures Returning(l, c, React(l, c, true).core)
  {
    SinceInc(c.ticks, c.phaseSince);
  }

  lemma StepContainHealthy(l: Limits, c: Core)
    requires Timely(l) && TimelyInv(l, c) && c.phase == CONTAIN
    ensures Returning(l, c, React(l, c, false).core)
  {
    SinceInc(c.ticks, c.phaseSince);
    SinceInc(c.ticks, c.healthySince);
  }

  lemma StepConsole(l: Limits, c: Core, fault: bool)
    requires Timely(l) && TimelyInv(l, c) && c.phase == CONSOLE
    ensures Returning(l, c, React(l, c, fault).core)
  {
    SinceInc(c.ticks, c.phaseSince);
    SinceInc(c.ticks, c.healthySince);
  }

  /** One tick keeps the invariant, and outside NOMINAL brings the return nearer. */
  lemma StepReturning(l: Limits, c: Core, fault: bool)
    requires Timely(l) && TimelyInv(l, c)
    ensures Returning(l, c, React(l, c, fault).core)
  {
    if c.phase == CONTAIN {
      if fault {
        StepContainFaulty(l, c);
      } else {
        StepContainHealthy(l, c);
      }
    } else if c.phase == CONSOLE {
      StepConsole(l, c, fault);
    } else {
      StepInv(l, c, fault);
      SinceInc(c.ticks, c.phaseSince);
    }
  }
}
