// The supervisor as the object the source makes of it: fields updated in place.

module SupervisorMain {
  import opened Wrappers
  import opened TextScan
  import opened KillMarkers
  import opened SupervisorCore
  import opened Supervisor
  import opened SupervisorPolicy
  import XmlText

  class Main {
    const policy: Policy
    const templates: string
    const buf: array<char>

    var phase: Phase
    var ticks: u32
    var phaseSince: u32
    var healthySince: u32
    var everHealthy: bool
    var faultSince: u32

    var stateSeen: bool
    var maxSkipped: u32
    var exited: u32
    var starting: u32
    var exitedBaseline: u32

    var killVersion: u32
    var sent: seq<Sent>

    ghost function CoreNow(): Core
      reads this
    {
      Core(phase, ticks, phaseSince, healthySince, everHealthy, faultSince)
    }

    ghost function Now(): State
      reads this
    {
      State(CoreNow(), Seen(stateSeen, maxSkipped, exited, starting), exitedBaseline, killVersion, sent)
    }

    constructor (config: Option<string>, templates: string)
      ensures this.policy == match config case None => NO_POLICY case Some(cfg) => PolicyOf(cfg)
      ensures this.templates == templates
      ensures Now() == Start() && fresh(buf) && buf.Length == RENDER_BUFFER
    {
      var read := ReadPolicy(config);
      this.policy, this.templates := read, templates;
      buf := new char[RENDER_BUFFER];
      phase, ticks, phaseSince, healthySince, everHealthy, faultSince := BOOT, 0, 0, 0, false, 0;
      stateSeen, maxSkipped, exited, starting, exitedBaseline := false, 0, 0, 0, 0;
      killVersion, sent := 0, [];
    }

    /** A state report: the counters are derived afresh. */
    method HandleState(children: seq<Child>)
      modifies this`stateSeen, this`maxSkipped, this`exited, this`starting
      ensures Now() == Handle(policy, templates, old(Now()), Report(children))
    {
      stateSeen, maxSkipped, exited, starting := true, 0, 0, 0;
      for i := 0 to |children|
        invariant Seen(stateSeen, maxSkipped, exited, starting) == Observe(policy, children[..i])
      {
        var c := children[i];
        assert children[..i + 1][..i] == children[..i];
        var excluded := Excluded(policy.ignoreExited, c.name);
        if c.starting {
          starting := Inc(starting);
        }
        if c.skipped > maxSkipped && !(c.starting && policy.ignoreStarting) {
          maxSkipped := c.skipped;
        }
        if c.exited && !excluded {
          exited := Inc(exited);
        }
      }
      assert children[..|children|] == children;
    }

    method FindTemplate(name: string) returns (text: Option<string>)
      ensures text == XmlText.Template(templates, name)
    {
      var wrapped := ElementText(templates, name);
      if wrapped.NotFound? {
        return None;
      }
      var inner := templates[wrapped.start..wrapped.end];
      var config := ElementText(inner, "config");
      if config.NotFound? {
        return None;
      }
      return Some(inner[config.start..config.end]);
    }

    /** The report session takes what fits its buffer and refuses the rest. */
    method Generate(name: string, text: string) returns (exceeded: bool)
      modifies this`sent
      ensures exceeded == (|text| > REPORT_BUFFER)
      ensures sent == if exceeded then old(sent) else old(sent) + [Config(name, killVersion, text)]
    {
      exceeded := |text| > REPORT_BUFFER;
      if !exceeded {
        sent := sent + [Config(name, killVersion, text)];
      }
    }

    method PublishTemplate(name: string) returns (ok: bool)
      requires buf.Length == RENDER_BUFFER
      modifies this`killVersion, this`sent, buf
      ensures Now() == DoPublish(templates, old(Now()), name)
      ensures ok == (sent != old(sent))
    {
      var t := FindTemplate(name);
      if t.None? {
        return false;
      }
      var text := t.value;
      if |text| < 9 {
        return false;
      }
      var ends := TagAt(text, |text| - 9, CONFIG_END);
      if !ends {
        return false;
      }
      killVersion := Inc(killVersion);
      Decimal32(killVersion);
      var out := SubstituteDecimal(text, MARKER, killVersion, buf);
      if out + 1 >= buf.Length {
        // the substitution always leaves room for two characters, so this test never fires
        assert false;
      }
      // a rendering that was cut short is still longer than the report buffer
      assert out < |Render(text, killVersion)| ==> out > REPORT_BUFFER;
      assert out == |Render(text, killVersion)| ==> buf[..out] == Render(text, killVersion);
      var exceeded := Generate(name, buf[..out]);
      ok := !exceeded;
    }

    method ArmConsole(on: bool)
      modifies this`sent
      ensures sent == old(sent) + [Console(on)]
    {
      sent := sent + [Console(on)];
    }

    method IsFaulted() returns (fault: bool)
      ensures fault == Faulted(policy, Now(), ticks)
    {
      if maxSkipped >= policy.faultSkipped {
        return true;
      }
      if exited > exitedBaseline {
        return true;
      }
      return !stateSeen && ticks > policy.limits.bootGrace;
    }

    method EnterPhase(next: Phase)
      modifies this`phase, this`phaseSince, this`faultSince
      ensures CoreNow() == Enter(old(CoreNow()), next)
    {
      phase := next;
      phaseSince := ticks;
      if next == NOMINAL {
        faultSince := 0;
      }
    }

    /** The reaction of a phase to a tick, once the counter has moved. */
    ghost predicate Reacted(before: State, t: Reaction)
      reads this
    {
      Now() == DoActions(templates, before.(core := t.core), t.actions)
    }

    method TickBoot()
      requires phase == BOOT && buf.Length == RENDER_BUFFER
      modifies this, buf
      ensures Reacted(old(Now()), Reaction(Enter(old(CoreNow()), NOMINAL), [Arm(false), Publish("system")]))
    {
      ArmConsole(false);
      var _ := PublishTemplate("system");
      EnterPhase(NOMINAL);
    }

    method TickNominal(fault: bool)
      requires phase == NOMINAL && buf.Length == RENDER_BUFFER
      modifies this, buf
      ensures Reacted(old(Now()), OnNominal(policy.limits, old(CoreNow()), fault))
    {
      if !fault {
        faultSince := 0;
        return;
      }
      if faultSince == 0 {
        faultSince := ticks;
        return;
      }
      if Since(ticks, faultSince) < policy.limits.grace {
        return;
      }
      var _ := PublishTemplate("system");
      faultSince := 0;
      everHealthy := false;
      EnterPhase(CONTAIN);
    }

    method TickContain(fault: bool)
      requires phase == CONTAIN && buf.Length == RENDER_BUFFER
      modifies this, buf
      ensures Reacted(old(Now()), OnContain(policy.limits, old(CoreNow()), fault))
    {
      if !fault {
        if !everHealthy {
          everHealthy := true;
          healthySince := ticks;
        }
        if Since(ticks, healthySince) < policy.limits.settle {
          return;
        }
        exitedBaseline := exited;
        EnterPhase(NOMINAL);
        return;
      }
      everHealthy := false;
      if Since(ticks, phaseSince) < policy.limits.grace {
        return;
      }
      var _ := PublishTemplate("system_console");
      ArmConsole(true);
      EnterPhase(CONSOLE);
    }

    method TickConsole(fault: bool)
      requires phase == CONSOLE
      modifies this
      ensures Reacted(old(Now()), OnConsole(policy.limits, old(CoreNow()), fault))
    {
      if fault {
        everHealthy := false;
        if Since(ticks, phaseSince) < policy.limits.console {
          return;
        }
        ArmConsole(false);
        EnterPhase(RELEASE);
        return;
      }
      if !everHealthy {
        everHealthy := true;
        healthySince := ticks;
      }
      if Since(ticks, healthySince) < policy.limits.settle {
        return;
      }
      ArmConsole(false);
      EnterPhase(RELEASE);
    }

    method TickRelease()
      requires phase == RELEASE && buf.Length == RENDER_BUFFER
      modifies this, buf
      ensures Reacted(old(Now()), OnRelease(policy.limits, old(CoreNow())))
    {
      if Since(ticks, phaseSince) < policy.limits.settle {
        return;
      }
      var _ := PublishTemplate("system");
      EnterPhase(NOMINAL);
    }

    method HandleTick()
      requires buf.Length == RENDER_BUFFER
      modifies this, buf
      ensures Now() == Handle(policy, templates, old(Now()), Timer)
    {
      ticks := Inc(ticks);
      var fault := IsFaulted();
      match phase
      case BOOT => TickBoot();
      case NOMINAL => TickNominal(fault);
      case CONTAIN => TickContain(fault);
      case CONSOLE => TickConsole(fault);
      case RELEASE => TickRelease();
    }
  }
}
