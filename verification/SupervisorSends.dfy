// What a tick sends: exactly the renderings its actions ask for, and the console reports.

module SupervisorSends {
  import opened Wrappers
  import opened TextScan
  import opened KillMarkers
  import opened SupervisorCore
  import opened Supervisor
  import opened SupervisorTheorems
  import opened SupervisorHistories
  import opened SupervisorKills
  import opened SupervisorFaults
  import opened XmlText

  // ---- the template of a name in a printed document -----------------------

  /** The first wrapper of the name, if there is one, and the first `<config>` in it, if there is one,
      are elements that are extracted whole. */
  predicate Readable(f: Forest, name: string) {
    && IsName(name) && name != "config"
    && (First(f, name).Some? ==>
          var wrapper := First(f, name).value;
          && wrapper.Element? && !HasStray(wrapper.inner, name)
          && (First(wrapper.inner, "config").Some? ==>
                var inner := First(wrapper.inner, "config").value;
                inner.Element? && !HasStray(inner.inner, "config")))
  }

  /** The `<config>` element in the wrapper of the name. */
  function Held(f: Forest, name: string): (r: Option<Forest>)
    requires Readable(f, name)
    ensures r.Some? ==> r.value.Element? && r.value.tag.name == "config"
  {
    match First(f, name)
    case None => None
    case Some(wrapper) => First(wrapper.inner, "config")
  }

  lemma TemplateHeld(f: Forest, name: string)
    requires WellFormed(f) && Readable(f, name)
    ensures Template(Print(f), name) == match Held(f, name) case None => None case Some(c) => Some(PrintHead(c))
  {
    if First(f, name).None? {
      ExtractNone(f, name);
    } else {
      TemplateExact(f, name);
    }
  }

  // ---- the end of a template ----------------------------------------------

  predicate EndsWith(text: string, tail: string) {
    |tail| <= |text| && text[|text| - |tail|..] == tail
  }

  lemma EndSlices(a: string, b: string, tail: string)
    requires |tail| <= |b|
    ensures EndsWith(a + b, tail) <==> EndsWith(b, tail)
  {
    assert (a + b)[|a + b| - |tail|..] == b[|b| - |tail|..];
  }

  /** An end tag without blanks is the last thing in the element; one with blanks does not end it the
      way the component asks for. */
  lemma EndTagEnds(name: string, pad: string, tail: string)
    requires name != "" && AllSpace(pad) && tail == "</" + (name + ">") && !IsSpace(name[|name| - 1])
    ensures EndsWith(PrintEndTag(name, pad), tail) <==> pad == ""
  {
    var t := PrintEndTag(name, pad);
    if pad == "" {
      assert t == tail;
    } else {
      assert t[|t| - 2] == pad[|pad| - 1];
      assert tail[|tail| - 2] == name[|name| - 1];
    }
  }

  lemma ConfigEnds(c: Forest)
    requires c.Element? && c.tag.name == "config" && WellFormed(c)
    ensures EndsWith(PrintHead(c), "</config>") <==> c.endPad == ""
  {
    var name, tail := "config", "</config>";
    var end := PrintEndTag(c.tag.name, c.endPad);
    assert tail == "</" + (name + ">");
    EndTagEnds(name, c.endPad, tail);
    var front := PrintTag(c.tag);
    EndSlices(Print(c.inner), end, tail);
    EndSlices(">", Print(c.inner) + end, tail);
    EndSlices(front, ">" + (Print(c.inner) + end), tail);
    EndSlices("<", front + (">" + (Print(c.inner) + end)), tail);
  }

  lemma {:induction false} HeldWellFormed(f: Forest, name: string)
    requires WellFormed(f) && Readable(f, name)
    ensures Held(f, name).Some? ==> WellFormed(Held(f, name).value)
  {
    FirstWellFormed(f, name);
    if First(f, name).Some? {
      FirstWellFormed(First(f, name).value.inner, "config");
    }
  }

  // ---- what a tick sends --------------------------------------------------

  /** What one action sends under the version `v`, whatever the templates text. */
  function Entry(templates: string, a: Action, v: u32): seq<Sent> {
    match a
    case Arm(on) => [Console(on)]
    case Rebaseline => []
    case Publish(name) =>
      var t := Template(templates, name);
      if t.Some? && EndsWith(t.value, "</config>") then Taken(name, v, Replace(t.value, "@KILL@", Decimal(v))) else []
  }

  /** The report session takes 128 KiB and no more. */
  function Taken(name: string, v: u32, text: string): seq<Sent> {
    if |text| <= 131072 then [Config(name, v, text)] else []
  }

  function Entries(templates: string, actions: seq<Action>, v: u32): seq<Sent> {
    if actions == [] then [] else Entry(templates, actions[0], v) + Entries(templates, actions[1..], v)
  }

  lemma UsableExact(templates: string, name: string)
    ensures Usable(templates, name) ==
      if Template(templates, name).Some? && EndsWith(Template(templates, name).value, "</config>")
      then Template(templates, name) else None
  {
    var t := Template(templates, name);
    if t.Some? && |t.value| >= 9 {
      AtSlice(t.value, |t.value| - 9, CONFIG_END);
    }
  }

  lemma ActionSends(templates: string, s: State, a: Action)
    ensures DoAction(templates, s, a).sent == s.sent + Entry(templates, a, Inc(s.kill))
    ensures !a.Publish? ==> DoAction(templates, s, a).kill == s.kill
  {
    if a.Publish? {
      UsableExact(templates, a.name);
    }
  }

  lemma PairSends(templates: string, s: State, a: Action, b: Action)
    requires a.Arm? || b.Arm?
    ensures DoActions(templates, s, [a, b]).sent == s.sent + Entries(templates, [a, b], Inc(s.kill))
  {
    TwoActions(templates, s, a, b);
    ActionSends(templates, s, a);
    ActionSends(templates, DoAction(templates, s, a), b);
    var v := Inc(s.kill);
    assert [a, b][1..] == [b] && [b][1..] == [];
    assert Entries(templates, [b], v) == Entry(templates, b, v) + Entries(templates, [], v);
  }

  lemma OneSends(templates: string, s: State, a: Action)
    ensures DoActions(templates, s, [a]).sent == s.sent + Entries(templates, [a], Inc(s.kill))
  {
    ActionSends(templates, s, a);
    assert [a][1..] == [];
    var v := Inc(s.kill);
    assert Entries(templates, [a], v) == Entry(templates, a, v) + Entries(templates, [], v);
    assert DoActions(templates, s, [a]) == DoActions(templates, DoAction(templates, s, a), []);
  }

  /** At most two actions, of which one at most publishes. */
  predicate Few(actions: seq<Action>) {
    |actions| <= 2 && (|actions| == 2 ==> actions[0].Arm? || actions[1].Arm?)
  }

  lemma ReactFew(l: Limits, c: Core, fault: bool)
    ensures Few(React(l, c, fault).actions)
  {
  }

  lemma FewSend(templates: string, s: State, actions: seq<Action>)
    requires Few(actions)
    ensures DoActions(templates, s, actions).sent == s.sent + Entries(templates, actions, Inc(s.kill))
  {
    if |actions| == 1 {
      assert actions == [actions[0]];
      OneSends(templates, s, actions[0]);
    } else if |actions| == 2 {
      assert actions == [actions[0], actions[1]];
      PairSends(templates, s, actions[0], actions[1]);
    }
  }

  /** The tick at input `j` carries out its actions. */
  lemma TickDone(p: Policy, templates: string, inputs: seq<Input>, j: nat) returns (core: Core)
    requires j < |inputs| && inputs[j].Timer?
    ensures StateAfter(p, templates, inputs, j + 1)
         == DoActions(templates, StateAfter(p, templates, inputs, j).(core := core), TickActions(p, templates, inputs[..j]))
    ensures Few(TickActions(p, templates, inputs[..j]))
  {
    assert inputs[..j + 1][..j] == inputs[..j];
    var s := StateAfter(p, templates, inputs, j);
    var fault := Faulted(p, s, Inc(s.core.ticks));
    core := React(p.limits, s.core, fault).core;
    ReactFew(p.limits, s.core, fault);
  }

  /** Input `j` adds `more` to what the report sessions hold. */
  predicate Appends(p: Policy, templates: string, inputs: seq<Input>, j: nat, more: seq<Sent>)
    requires j < |inputs|
  {
    StateAfter(p, templates, inputs, j + 1).sent == StateAfter(p, templates, inputs, j).sent + more
  }

  /** The version of the next rendering. */
  function NextVersion(p: Policy, templates: string, before: seq<Input>): u32 {
    (Rendered(p, templates, before) + 1) % U32
  }

  lemma NextVersionIs(p: Policy, templates: string, before: seq<Input>)
    ensures Inc(RunAll(p, templates, before).kill) == NextVersion(p, templates, before)
  {
    var n := Rendered(p, templates, before);
    assert RunAll(p, templates, before).kill == n % U32 by {
      HistoryKill(p, templates, before);
    }
    IncCount(n);
  }

  lemma DoneSends(templates: string, s: State, core: Core, actions: seq<Action>)
    requires Few(actions)
    ensures DoActions(templates, s.(core := core), actions).sent == s.sent + Entries(templates, actions, Inc(s.kill))
  {
    FewSend(templates, s.(core := core), actions);
  }

  /** A tick sends what its actions ask for and nothing else, in order, under the next version. */
  lemma TickSendsExact(p: Policy, templates: string, inputs: seq<Input>, j: nat)
    requires j < |inputs| && inputs[j].Timer?
    ensures Appends(p, templates, inputs, j,
                    Entries(templates, TickActions(p, templates, inputs[..j]), NextVersion(p, templates, inputs[..j])))
  {
    NextVersionIs(p, templates, inputs[..j]);
    var core := TickDone(p, templates, inputs, j);
    DoneSends(templates, StateAfter(p, templates, inputs, j), core, TickActions(p, templates, inputs[..j]));
  }

  /** Reports send nothing. */
  lemma ReportSends(p: Policy, templates: string, inputs: seq<Input>, j: nat)
    requires j < |inputs| && inputs[j].Report?
    ensures Appends(p, templates, inputs, j, [])
    ensures Rendered(p, templates, inputs[..j + 1]) == Rendered(p, templates, inputs[..j])
  {
    assert inputs[..j + 1][..j] == inputs[..j];
  }

  // ---- of a printed document ----------------------------------------------

  /** What one action sends, said of the document: the `<config>` element in the wrapper of the name,
      markers replaced, if it ends in its plain end tag and the rendering is taken. */
  function Asked(f: Forest, a: Action, v: u32): seq<Sent>
    requires a.Publish? ==> Readable(f, a.name)
  {
    match a
    case Arm(on) => [Console(on)]
    case Rebaseline => []
    case Publish(name) =>
      var c := Held(f, name);
      if c.Some? && c.value.endPad == "" then Taken(name, v, Replace(PrintHead(c.value), "@KILL@", Decimal(v))) else []
  }

  function AllAsked(f: Forest, actions: seq<Action>, v: u32): seq<Sent>
    requires forall a :: a in actions && a.Publish? ==> Readable(f, a.name)
  {
    if actions == [] then [] else Asked(f, actions[0], v) + AllAsked(f, actions[1..], v)
  }

  lemma EntryAsked(f: Forest, a: Action, v: u32)
    requires WellFormed(f) && (a.Publish? ==> Readable(f, a.name))
    ensures Entry(Print(f), a, v) == Asked(f, a, v)
  {
    if a.Publish? {
      TemplateHeld(f, a.name);
      HeldWellFormed(f, a.name);
      if Held(f, a.name).Some? {
        ConfigEnds(Held(f, a.name).value);
      }
    }
  }

  lemma {:induction false} EntriesAsked(f: Forest, actions: seq<Action>, v: u32)
    requires WellFormed(f) && forall a :: a in actions && a.Publish? ==> Readable(f, a.name)
    ensures Entries(Print(f), actions, v) == AllAsked(f, actions, v)
  {
    if actions != [] {
      EntryAsked(f, actions[0], v);
      EntriesAsked(f, actions[1..], v);
    }
  }

  /** With a printed templates document a tick sends, for each publication among its actions, the
      `<config>` element of that name with the next version at every marker, and for each arming its
      console report: neither less nor more, whether or not the component ever sent anything before. */
  lemma PrintedSends(p: Policy, f: Forest, inputs: seq<Input>, j: nat)
    requires WellFormed(f) && j < |inputs| && inputs[j].Timer?
    requires forall a :: a in TickActions(p, Print(f), inputs[..j]) && a.Publish? ==> Readable(f, a.name)
    ensures Appends(p, Print(f), inputs, j,
                    AllAsked(f, TickActions(p, Print(f), inputs[..j]), NextVersion(p, Print(f), inputs[..j])))
  {
    TickSendsExact(p, Print(f), inputs, j);
    EntriesAsked(f, TickActions(p, Print(f), inputs[..j]), NextVersion(p, Print(f), inputs[..j]));
  }

  lemma OneAsked(f: Forest, a: Action, v: u32)
    requires a.Publish? ==> Readable(f, a.name)
    ensures AllAsked(f, [a], v) == Asked(f, a, v)
  {
    assert [a][1..] == [];
    assert AllAsked(f, [a], v) == Asked(f, a, v) + AllAsked(f, [], v);
  }

  /** Every kill is sent: the tick appends the nominal configuration with the next version at every
      marker, if and only if that rendering is short enough for the report session. */
  lemma KillSent(p: Policy, f: Forest, inputs: seq<Input>, j: nat)
    requires WellFormed(f) && Readable(f, "system") && KillInput(p, Print(f), inputs, j)
    requires Held(f, "system").Some? && Held(f, "system").value.endPad == ""
    ensures var v := NextVersion(p, Print(f), inputs[..j]);
      var text := Replace(PrintHead(Held(f, "system").value), "@KILL@", Decimal(v));
      Appends(p, Print(f), inputs, j, if |text| <= 131072 then [Config("system", v, text)] else [])
  {
    EscalationHere(p, Print(f), inputs, j);
    PrintedSends(p, f, inputs, j);
    OneAsked(f, Publish("system"), NextVersion(p, Print(f), inputs[..j]));
  }

  /** How many of the actions publish a `<config>` element that ends in its plain end tag. */
  function AskedIn(f: Forest, actions: seq<Action>): nat
    requires forall a :: a in actions && a.Publish? ==> Readable(f, a.name)
  {
    if actions == [] then 0
    else (if Published(f, actions[0]) then 1 else 0) + AskedIn(f, actions[1..])
  }

  predicate Published(f: Forest, a: Action)
    requires a.Publish? ==> Readable(f, a.name)
  {
    a.Publish? && Held(f, a.name).Some? && Held(f, a.name).value.endPad == ""
  }

  lemma UsableAsked(f: Forest, a: Action)
    requires WellFormed(f) && (a.Publish? ==> Readable(f, a.name))
    ensures Published(f, a) <==> a.Publish? && Usable(Print(f), a.name).Some?
  {
    if a.Publish? {
      UsableExact(Print(f), a.name);
      TemplateHeld(f, a.name);
      HeldWellFormed(f, a.name);
      if Held(f, a.name).Some? {
        ConfigEnds(Held(f, a.name).value);
      }
    }
  }

  /** The renderings that make up the version are those the document asks for. */
  lemma {:induction false} RendersAsked(f: Forest, actions: seq<Action>)
    requires WellFormed(f) && forall a :: a in actions && a.Publish? ==> Readable(f, a.name)
    ensures Renders(Print(f), actions) == AskedIn(f, actions)
  {
    if actions != [] {
      UsableAsked(f, actions[0]);
      RendersAsked(f, actions[1..]);
    }
  }

  /** The purpose of the component, from reports to the report session: in NOMINAL, with a child that
      goes on missing heartbeats, exited for good or never heard of, the nominal configuration is sent
      again within a grace window and one tick (two when a tick number wraps), under a new version. */
  lemma WedgedRestarts(p: Policy, f: Forest, inputs: seq<Input>, j: nat, m: nat) returns (i: nat)
    requires WellFormed(f) && Readable(f, "system")
    requires Held(f, "system").Some? && Held(f, "system").value.endPad == ""
    requires j <= m <= |inputs| && StateAfter(p, Print(f), inputs, j).core.phase == NOMINAL
    requires AlarmHeld(p, inputs, j, m)
    requires TicksIn(inputs[..m]) >= TicksIn(inputs[..j]) + Patience(p.limits, TicksIn(inputs[..j]))
    ensures j <= i < m && TickNumber(inputs, i) <= TicksIn(inputs[..j]) + Patience(p.limits, TicksIn(inputs[..j]))
    ensures var v := NextVersion(p, Print(f), inputs[..i]);
      var text := Replace(PrintHead(Held(f, "system").value), "@KILL@", Decimal(v));
      Appends(p, Print(f), inputs, i, if |text| <= 131072 then [Config("system", v, text)] else [])
  {
    i := KillComes(p, Print(f), inputs, j, m);
    KillSent(p, f, inputs, i);
  }
}
