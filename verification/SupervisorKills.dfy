// What the supervisor has sent: complete renderings, and versions that tell them apart.

module SupervisorKills {
  import opened Wrappers
  import opened TextScan
  import opened KillMarkers
  import opened SupervisorCore
  import opened SupervisorRuns
  import opened Supervisor
  import opened SupervisorTheorems
  import opened XmlText

  // ---- counting renderings ------------------------------------------------

  /** How many of the actions render a template. */
  function Renders(templates: string, actions: seq<Action>): nat {
    if actions == [] then 0
    else (if actions[0].Publish? && Usable(templates, actions[0].name).Some? then 1 else 0) + Renders(templates, actions[1..])
  }

  /** How many templates a history has rendered, refused ones included. */
  function Rendered(p: Policy, templates: string, inputs: seq<Input>): nat {
    if inputs == [] then 0
    else
      var before := inputs[..|inputs| - 1];
      Rendered(p, templates, before)
      + if inputs[|inputs| - 1].Timer? then Renders(templates, TickActions(p, templates, before)) else 0
  }

  /** A tick renders at most one template. */
  lemma {:induction false} RenderedBound(p: Policy, templates: string, inputs: seq<Input>)
    ensures Rendered(p, templates, inputs) <= TicksIn(inputs)
    decreases |inputs|
  {
    if inputs != [] {
      var before := inputs[..|inputs| - 1];
      RenderedBound(p, templates, before);
      OneRendering(p.limits, RunAll(p, templates, before).core, FaultFlag(p, templates, before).Faulty?, templates);
    }
  }

  lemma OneRendering(l: Limits, c: Core, fault: bool, templates: string)
    ensures Renders(templates, React(l, c, fault).actions) <= 1
  {
    var acts := React(l, c, fault).actions;
    if |acts| == 1 {
      assert acts == [acts[0]] && [acts[0]][1..] == [];
    } else if |acts| == 2 {
      assert acts == [acts[0], acts[1]] && (acts[0].Arm? || acts[1].Arm?);
      RendersPair(templates, acts[0], acts[1]);
    }
  }

  lemma RendersPair(templates: string, a: Action, b: Action)
    requires a.Arm? || b.Arm?
    ensures Renders(templates, [a, b]) <= 1
  {
    assert [a, b][1..] == [b] && [b][1..] == [];
    assert Renders(templates, [b]) <= 1;
  }

  /** The stamp of everything sent: how many templates had been rendered by then. */
  function Stamp(s: State, t: State, count: nat, stamps: seq<nat>): seq<nat> {
    if |t.sent| > |s.sent| then stamps + [count] else stamps
  }

  function DoStamps(templates: string, s: State, actions: seq<Action>, count: nat, stamps: seq<nat>): seq<nat>
    decreases actions
  {
    if actions == [] then stamps
    else
      var t, c := DoAction(templates, s, actions[0]), count + Renders(templates, [actions[0]]);
      DoStamps(templates, t, actions[1..], c, Stamp(s, t, c, stamps))
  }

  function Stamps(p: Policy, templates: string, inputs: seq<Input>): seq<nat> {
    if inputs == [] then []
    else
      var before := inputs[..|inputs| - 1];
      var s := RunAll(p, templates, before);
      if !inputs[|inputs| - 1].Timer? then Stamps(p, templates, before)
      else
        var t := React(p.limits, s.core, FaultFlag(p, templates, before).Faulty?);
        DoStamps(templates, s.(core := t.core), t.actions, Rendered(p, templates, before), Stamps(p, templates, before))
  }

  // ---- what was sent ------------------------------------------------------

  /** What the report sessions hold is the complete rendering of a template, small enough to be taken. */
  predicate Complete(templates: string, c: Sent) {
    c.Config? ==>
      && Usable(templates, c.name).Some?
      && c.text == Render(Usable(templates, c.name).value, c.kill)
      && |c.text| <= REPORT_BUFFER
  }

  predicate AllComplete(templates: string, sent: seq<Sent>) {
    forall c :: c in sent ==> Complete(templates, c)
  }

  /** Every configuration sent has a stamp of its own, and its version is the stamp modulo 2^32. */
  predicate Stamped(sent: seq<Sent>, count: nat, stamps: seq<nat>) {
    && |stamps| == |sent|
    && (forall i :: 0 <= i < |sent| && sent[i].Config? ==> 0 < stamps[i] <= count && sent[i].kill == stamps[i] % U32)
    && (forall i, j :: 0 <= i < j < |sent| && sent[i].Config? && sent[j].Config? ==> stamps[i] < stamps[j])
  }

  predicate KillOk(templates: string, s: State, count: nat, stamps: seq<nat>) {
    s.kill == count % U32 && AllComplete(templates, s.sent) && Stamped(s.sent, count, stamps)
  }

  lemma ActionKill(templates: string, s: State, a: Action, count: nat, stamps: seq<nat>)
    requires KillOk(templates, s, count, stamps)
    ensures var t, c := DoAction(templates, s, a), count + Renders(templates, [a]);
      KillOk(templates, t, c, Stamp(s, t, c, stamps))
  {
    assert (count + 1) % U32 == ((count % U32) + 1) % U32;
  }

  lemma {:induction false} ActionsKill(templates: string, s: State, actions: seq<Action>, count: nat, stamps: seq<nat>)
    requires KillOk(templates, s, count, stamps)
    ensures KillOk(templates, DoActions(templates, s, actions), count + Renders(templates, actions),
                   DoStamps(templates, s, actions, count, stamps))
    decreases actions
  {
    if actions != [] {
      ActionKill(templates, s, actions[0], count, stamps);
      var t, c := DoAction(templates, s, actions[0]), count + Renders(templates, [actions[0]]);
      assert Renders(templates, actions) == Renders(templates, [actions[0]]) + Renders(templates, actions[1..]);
      ActionsKill(templates, t, actions[1..], c, Stamp(s, t, c, stamps));
    }
  }

  lemma {:induction false} HistoryKill(p: Policy, templates: string, inputs: seq<Input>)
    ensures KillOk(templates, RunAll(p, templates, inputs), Rendered(p, templates, inputs), Stamps(p, templates, inputs))
    decreases |inputs|
  {
    if inputs != [] {
      var before, last := inputs[..|inputs| - 1], inputs[|inputs| - 1];
      HistoryKill(p, templates, before);
      if last.Timer? {
        var s := RunAll(p, templates, before);
        var t := React(p.limits, s.core, FaultFlag(p, templates, before).Faulty?);
        ActionsKill(templates, s.(core := t.core), t.actions, Rendered(p, templates, before), Stamps(p, templates, before));
      }
    }
  }

  /** Only complete renderings are ever sent, and no marker is left in them. */
  lemma NothingPartial(p: Policy, templates: string, inputs: seq<Input>, i: nat)
    requires i < |RunAll(p, templates, inputs).sent| && RunAll(p, templates, inputs).sent[i].Config?
    ensures var c := RunAll(p, templates, inputs).sent[i];
      Complete(templates, c) && MarkerFree(c.text, MARKER)
  {
    HistoryKill(p, templates, inputs);
    var c := RunAll(p, templates, inputs).sent[i];
    assert c in RunAll(p, templates, inputs).sent;
    EveryMarkerReplaced(Usable(templates, c.name).value, MARKER, c.kill);
  }

  /** For a printed templates document, everything sent under a name is the inner `<config>` element
      of that name's wrapper, byte for byte but for the versions at its markers. */
  lemma SentFromPrinted(p: Policy, f: Forest, inputs: seq<Input>, i: nat)
    requires WellFormed(f) && i < |RunAll(p, Print(f), inputs).sent| && RunAll(p, Print(f), inputs).sent[i].Config?
    requires var name := RunAll(p, Print(f), inputs).sent[i].name;
      && IsName(name) && name != "config"
      && First(f, name).Some? && First(f, name).value.Element? && !HasStray(First(f, name).value.inner, name)
      && (First(First(f, name).value.inner, "config").Some? ==>
            First(First(f, name).value.inner, "config").value.Element?
            && !HasStray(First(First(f, name).value.inner, "config").value.inner, "config"))
    ensures var c := RunAll(p, Print(f), inputs).sent[i];
      var inner := First(First(f, c.name).value.inner, "config");
      inner.Some? && c.text == Replace(PrintHead(inner.value), MARKER, Decimal(c.kill))
  {
    var c := RunAll(p, Print(f), inputs).sent[i];
    NothingPartial(p, Print(f), inputs, i);
    TemplateExact(f, c.name);
  }

  // ---- versions -----------------------------------------------------------

  lemma SameResidue(a: nat, b: nat)
    requires a <= b
    ensures a % U32 == b % U32 <==> (b - a) % U32 == 0
  {
    WrapDrop(b - a, a / U32);
    assert b == a % U32 + (b - a) + a / U32 * U32;
    var d := b - a;
    if a % U32 == b % U32 {
      assert d == (b / U32 - a / U32) * U32;
      WrapDrop(0, b / U32 - a / U32);
    }
    if d % U32 == 0 {
      assert b == a + d / U32 * U32;
      WrapDrop(a, d / U32);
    }
  }

  /** Two publications have the same version if and only if the number of renderings between them is
      a multiple of 2^32. */
  lemma VersionsExact(p: Policy, templates: string, inputs: seq<Input>, i: nat, j: nat)
    requires var sent := RunAll(p, templates, inputs).sent; i < j < |sent| && sent[i].Config? && sent[j].Config?
    ensures var sent, stamps := RunAll(p, templates, inputs).sent, Stamps(p, templates, inputs);
      && |stamps| == |sent| && 0 < stamps[i] < stamps[j] <= Rendered(p, templates, inputs)
      && (sent[i].kill == sent[j].kill <==> (stamps[j] - stamps[i]) % U32 == 0)
      && (TicksIn(inputs) < U32 ==> sent[i].kill < sent[j].kill)
  {
    HistoryKill(p, templates, inputs);
    RenderedBound(p, templates, inputs);
    StampedPair(RunAll(p, templates, inputs).sent, Rendered(p, templates, inputs), Stamps(p, templates, inputs), i, j);
  }

  lemma StampedPair(sent: seq<Sent>, count: nat, stamps: seq<nat>, i: nat, j: nat)
    requires Stamped(sent, count, stamps) && i < j < |sent| && sent[i].Config? && sent[j].Config?
    ensures 0 < stamps[i] < stamps[j] <= count
    ensures sent[i].kill == sent[j].kill <==> (stamps[j] - stamps[i]) % U32 == 0
    ensures count < U32 ==> sent[i].kill < sent[j].kill
  {
    SameResidue(stamps[i], stamps[j]);
  }

  /** Two publications of a template differ at a marker site if and only if the number of renderings
      between them is no multiple of 2^32, and nowhere else: in any history of fewer than 2^32 ticks
      every start node of the later one has a version never seen before. */
  lemma TotalKill(p: Policy, templates: string, inputs: seq<Input>, i: nat, j: nat, k: nat)
    requires i < j < |RunAll(p, templates, inputs).sent|
    requires var s := RunAll(p, templates, inputs).sent;
      s[i].Config? && s[j].Config? && s[i].name == s[j].name && Usable(templates, s[i].name).Some?
      && k + 1 < |Segments(Usable(templates, s[i].name).value, MARKER)|
    ensures var s, stamps := RunAll(p, templates, inputs).sent, Stamps(p, templates, inputs);
      var segs := Segments(Usable(templates, s[i].name).value, MARKER);
      && s[i].text == Join(segs, Decimal(s[i].kill))
      && s[j].text == Join(segs, Decimal(s[j].kill))
      && At(s[i].text, SiteOffset(segs, Decimal(s[i].kill), k), Decimal(s[i].kill))
      && At(s[j].text, SiteOffset(segs, Decimal(s[j].kill), k), Decimal(s[j].kill))
      && |stamps| == |s| && stamps[i] < stamps[j]
      && (Decimal(s[i].kill) != Decimal(s[j].kill) <==> (stamps[j] - stamps[i]) % U32 != 0)
      && (TicksIn(inputs) < U32 ==> Decimal(s[i].kill) != Decimal(s[j].kill))
  {
    var s := RunAll(p, templates, inputs).sent;
    HistoryKill(p, templates, inputs);
    assert s[i] in s && s[j] in s;
    VersionsExact(p, templates, inputs, i, j);
    var text := Usable(templates, s[i].name).value;
    ReplaceIsJoin(text, 0, MARKER, Decimal(s[i].kill));
    ReplaceIsJoin(text, 0, MARKER, Decimal(s[j].kill));
    SiteHolds(Segments(text, MARKER), Decimal(s[i].kill), k);
    SiteHolds(Segments(text, MARKER), Decimal(s[j].kill), k);
    if Decimal(s[i].kill) == Decimal(s[j].kill) {
      DecimalInjective(s[i].kill, s[j].kill);
    }
  }
}
