// The supervisor component: observation of the supervised sandbox, publication
// of its configuration, and the tick that ties both to the phase machine.
//
// Reports that arrive and reports that are sent are values: `HandleState` takes
// the children of a state report, and `sent` lists what the report session took.

module Supervisor {
  import opened Wrappers
  import opened TextScan
  import opened KillMarkers
  import opened SupervisorCore
  import XmlText

  const MARKER := "@KILL@"
  const CONFIG_END := "</config>"
  const RENDER_BUFFER: nat := 160 * 1024
  const REPORT_BUFFER: nat := 128 * 1024

  // ---- policy -------------------------------------------------------------

  datatype Policy = Policy(faultSkipped: u32, ignoreStarting: bool, ignoreExited: string, limits: Limits)

  function Poll(pollMs: u32): (p: nat)
    ensures 0 < p < U32
  {
    if pollMs == 0 then 250 else pollMs
  }

  /** Milliseconds to ticks, in 32-bit arithmetic. */
  function ToTicks(ms: u32, pollMs: u32): u32 {
    ((ms + Poll(pollMs) - 1) % U32) / Poll(pollMs)
  }

  function LimitsOf(pollMs: u32, bootGraceMs: u32, graceMs: u32, consoleMs: u32, settleMs: u32): Limits {
    Limits(ToTicks(bootGraceMs, pollMs), ToTicks(graceMs, pollMs), ToTicks(consoleMs, pollMs), ToTicks(settleMs, pollMs))
  }

  lemma HalfTicks(ms: u32, pollMs: u32)
    requires pollMs != 1
    ensures ToTicks(ms, pollMs) < U32 / 2
  {
    DivHalf((ms + Poll(pollMs) - 1) % U32, Poll(pollMs));
  }

  lemma DivHalf(x: nat, p: nat)
    requires p >= 2
    ensures 2 * (x / p) <= x
  {
    var q := x / p;
    assert x == q * p + x % p;
    assert 2 * q <= q * p;
  }

  /** Every poll period but one millisecond makes the policy timely, whatever the windows. */
  lemma PolicyTimely(pollMs: u32, bootGraceMs: u32, graceMs: u32, consoleMs: u32, settleMs: u32)
    requires pollMs != 1
    ensures Timely(LimitsOf(pollMs, bootGraceMs, graceMs, consoleMs, settleMs))
  {
    HalfTicks(graceMs, pollMs);
    HalfTicks(consoleMs, pollMs);
    HalfTicks(settleMs, pollMs);
  }

  // ---- the list of children that may exit ---------------------------------

  function CommaFrom(list: string, i: nat): (e: nat)
    requires i <= |list|
    ensures i <= e <= |list| && (e < |list| ==> list[e] == ',')
    ensures forall j :: i <= j < e ==> list[j] != ','
    decreases |list| - i
  {
    if i == |list| || list[i] == ',' then i else CommaFrom(list, i + 1)
  }

  predicate ListedFrom(list: string, i: nat, name: string)
    requires i <= |list|
    decreases |list| - i
  {
    i < |list| &&
    var e := CommaFrom(list, i);
    (list[i..e] == name || (e < |list| && ListedFrom(list, e + 1, name)))
  }

  method Excluded(list: string, name: string) returns (r: bool)
    ensures r == ListedFrom(list, 0, name)
  {
    var p := 0;
    while p < |list|
      invariant p <= |list|
      invariant ListedFrom(list, 0, name) == ListedFrom(list, p, name)
    {
      var e := p;
      while e < |list| && list[e] != ','
        invariant p <= e <= |list|
        invariant CommaFrom(list, p) == CommaFrom(list, e)
      {
        e := e + 1;
      }
      var n := |name|;
      if e - p == n {
        var same := TagAt(list, p, name);
        AtSlice(list, p, name);
        if same {
          return true;
        }
      }
      p := if e < |list| then e + 1 else e;
    }
    return false;
  }

  /** `name` is a maximal comma-free stretch of the list, other than an empty one at its end. */
  ghost predicate IsEntry(list: string, name: string) {
    ',' !in name && exists i: nat :: i < |list| && EntryAt(list, i, name)
  }

  predicate EntryAt(list: string, i: nat, name: string) {
    && At(list, i, name)
    && (i == 0 || list[i - 1] == ',')
    && (i + |name| == |list| || list[i + |name|] == ',')
  }

  lemma {:induction false} ListedMeaning(list: string, i: nat, name: string)
    requires i <= |list| && (i == 0 || list[i - 1] == ',')
    requires ',' !in name
    ensures ListedFrom(list, i, name) <==> exists k: nat :: i <= k < |list| && EntryAt(list, k, name)
    decreases |list| - i
  {
    if i < |list| {
      var e := CommaFrom(list, i);
      if list[i..e] == name {
        assert e == i + |name|;
        AtSlice(list, i, name);
        assert EntryAt(list, i, name);
      } else {
        if e < |list| {
          ListedMeaning(list, e + 1, name);
        }
        forall k: nat | i <= k < |list| && EntryAt(list, k, name) ensures e < |list| && e + 1 <= k {
          EntryBeyond(list, i, e, k, name);
        }
      }
    }
  }

  /** An entry at or after the start of a different entry lies behind that entry's comma. */
  lemma EntryBeyond(list: string, i: nat, e: nat, k: nat, name: string)
    requires i < |list| && e == CommaFrom(list, i) && (i == 0 || list[i - 1] == ',')
    requires ',' !in name && list[i..e] != name
    requires i <= k < |list| && EntryAt(list, k, name)
    ensures e < |list| && e + 1 <= k
  {
    if k == i {
      EntryIsFirst(list, i, e, name);
    }
  }

  lemma EntryIsFirst(list: string, i: nat, e: nat, name: string)
    requires i < |list| && e == CommaFrom(list, i)
    requires ',' !in name && EntryAt(list, i, name)
    ensures list[i..e] == name
  {
    forall j | i <= j < i + |name| ensures list[j] != ',' {
      assert list[i + (j - i)] == name[j - i] && name[j - i] in name;
    }
    AtSlice(list, i, name);
  }

  /** What is compared never holds a comma. */
  lemma {:induction false} ListedClean(list: string, i: nat, name: string)
    requires i <= |list| && ListedFrom(list, i, name)
    ensures ',' !in name
    decreases |list| - i
  {
    var e := CommaFrom(list, i);
    if list[i..e] != name {
      ListedClean(list, e + 1, name);
    }
  }

  /** The list is exact comma-separated membership. */
  lemma ExcludedExact(list: string, name: string)
    ensures ListedFrom(list, 0, name) <==> IsEntry(list, name)
  {
    if ',' !in name {
      ListedMeaning(list, 0, name);
    } else if ListedFrom(list, 0, name) {
      ListedClean(list, 0, name);
    }
  }

  // ---- observation --------------------------------------------------------

  /** One child of a state report. */
  datatype Child = Child(name: string, skipped: u32, exited: bool, starting: bool)

  /** What the last state report said; counters are 32-bit. */
  datatype Seen = Seen(any: bool, maxSkipped: u32, exited: u32, starting: u32)

  function Look(p: Policy, seen: Seen, c: Child): Seen {
    Seen(seen.any,
         if c.skipped > seen.maxSkipped && !(c.starting && p.ignoreStarting) then c.skipped else seen.maxSkipped,
         if c.exited && !ListedFrom(p.ignoreExited, 0, c.name) then Inc(seen.exited) else seen.exited,
         if c.starting then Inc(seen.starting) else seen.starting)
  }

  function Observe(p: Policy, children: seq<Child>): Seen {
    if children == [] then Seen(true, 0, 0, 0)
    else Look(p, Observe(p, children[..|children| - 1]), children[|children| - 1])
  }

  // ---- state --------------------------------------------------------------

  /** What the report sessions have taken, in order. */
  datatype Sent = Config(name: string, kill: u32, text: string) | Console(armed: bool)

  datatype State = State(core: Core, seen: Seen, baseline: u32, kill: u32, sent: seq<Sent>)

  function Start(): State {
    State(Init(), Seen(false, 0, 0, 0), 0, 0, [])
  }

  /** The template that may be forwarded: present, and ending in its own end tag. */
  function Usable(templates: string, name: string): Option<string> {
    var t := XmlText.Template(templates, name);
    if t.Some? && |t.value| >= 9 && At(t.value, |t.value| - 9, CONFIG_END) then t else None
  }

  function Render(text: string, kill: u32): string {
    Replace(text, MARKER, Decimal(kill))
  }

  function DoPublish(templates: string, s: State, name: string): State {
    var t := Usable(templates, name);
    if t.None? then s else
    var kill := Inc(s.kill);
    var out := Render(t.value, kill);
    if |out| <= REPORT_BUFFER then s.(kill := kill, sent := s.sent + [Config(name, kill, out)])
    else s.(kill := kill)
  }

  function DoAction(templates: string, s: State, a: Action): State {
    match a
    case Publish(name) => DoPublish(templates, s, name)
    case Arm(on) => s.(sent := s.sent + [Console(on)])
    case Rebaseline => s.(baseline := s.seen.exited)
  }

  function DoActions(templates: string, s: State, actions: seq<Action>): State
    decreases actions
  {
    if actions == [] then s else DoActions(templates, DoAction(templates, s, actions[0]), actions[1..])
  }

  predicate Faulted(p: Policy, s: State, now: u32) {
    || s.seen.maxSkipped >= p.faultSkipped
    || s.seen.exited > s.baseline
    || (!s.seen.any && now > p.limits.bootGrace)
  }

  function Tick(p: Policy, templates: string, s: State): State {
    var t := React(p.limits, s.core, Faulted(p, s, Inc(s.core.ticks)));
    DoActions(templates, s.(core := t.core), t.actions)
  }

  datatype Input = Report(children: seq<Child>) | Timer

  function Handle(p: Policy, templates: string, s: State, input: Input): State {
    match input
    case Report(children) => s.(seen := Observe(p, children))
    case Timer => Tick(p, templates, s)
  }

  function RunAll(p: Policy, templates: string, inputs: seq<Input>): State {
    if inputs == [] then Start()
    else Handle(p, templates, RunAll(p, templates, inputs[..|inputs| - 1]), inputs[|inputs| - 1])
  }
}
