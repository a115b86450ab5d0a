// The notification queue: bounded, first in first out, with entries that expire.

module Notifier {
  import opened Wrappers

  const MAX_LIVE: nat := 32
  const DEFAULT_MAX_LIVE: nat := 8
  const DEFAULT_TTL: nat := 5000
  const TTL_MAX: nat := 30000

  datatype Kind = Info | Warn | Error

  /** `ttl` is 0 when the client asks for none. */
  datatype Note = Note(title: string, body: string, source: string, kind: string, ttl: nat)

  datatype Entry = Entry(id: nat, ts: nat, source: string, kind: Kind, ttl: nat, title: string, body: string)

  datatype Queue = Queue(entries: seq<Entry>, nextId: nat, boot: nat, maxLive: nat, defaultTtl: nat)

  datatype Setting = MaxLive(v: nat) | DefaultTtl(v: nat) | UnknownElement

  // ---- the specification --------------------------------------------------

  /** An unknown kind counts as information. */
  function KindFrom(kind: string): Kind {
    if kind == "warn" then Warn else if kind == "error" then Error else Info
  }

  function CoerceTtl(requested: nat, default: nat): nat {
    if requested == 0 then default else if requested > TTL_MAX then TTL_MAX else requested
  }

  /** The clock of the first time stamp is the origin; a clock that runs back sets a new one. */
  function Origin(boot: nat, clock: nat): (b: nat)
    ensures b <= clock
  {
    if boot == 0 || clock < boot then clock else boot
  }

  function SourceFrom(source: string): string {
    if source == "" then "unknown" else source
  }

  /** The entry of a notification; `defaultTtl` is the lifetime of one that asks for none. */
  function EntryOf(n: Note, id: nat, ts: nat, defaultTtl: nat): Entry {
    Entry(id, ts, SourceFrom(n.source), KindFrom(n.kind), CoerceTtl(n.ttl, defaultTtl), n.title, n.body)
  }

  function Made(q: Queue, n: Note, clock: nat): Entry {
    EntryOf(n, q.nextId, clock - Origin(q.boot, clock), q.defaultTtl)
  }

  function DropOldest(es: seq<Entry>): seq<Entry> {
    if es == [] then es else es[1..]
  }

  /** A full queue gives up its oldest entry. */
  function Room(es: seq<Entry>, maxLive: nat): seq<Entry> {
    if |es| >= maxLive then DropOldest(es) else es
  }

  function Accept(q: Queue, n: Note, clock: nat): Queue {
    if n.title == "" then q
    else
      q.(entries := Room(q.entries, q.maxLive) + [Made(q, n, clock)], nextId := q.nextId + 1, boot := Origin(q.boot, clock))
  }

  function Due(e: Entry): nat {
    e.ts + e.ttl
  }

  function Live(es: seq<Entry>, now: nat): seq<Entry> {
    if es == [] then [] else
      var init, last := Live(es[..|es| - 1], now), es[|es| - 1];
      if now >= Due(last) then init else init + [last]
  }

  function Clamp(v: nat, default: nat, max: nat): nat {
    if v == 0 then default else if v > max then max else v
  }

  function Configure(q: Queue, settings: seq<Setting>): Queue {
    if settings == [] then q
    else
      var r := Configure(q, settings[..|settings| - 1]);
      match settings[|settings| - 1]
      case MaxLive(v) => r.(maxLive := Clamp(v, DEFAULT_MAX_LIVE, MAX_LIVE))
      case DefaultTtl(v) => r.(defaultTtl := Clamp(v, DEFAULT_TTL, TTL_MAX))
      case UnknownElement => r
  }

  const START: Queue := Queue([], 1, 0, DEFAULT_MAX_LIVE, DEFAULT_TTL)

  datatype Event = Post(note: Note, clock: nat) | Sweep(now: nat) | Config(settings: seq<Setting>)

  function Step(q: Queue, e: Event): Queue {
    match e
    case Post(n, clock) => Accept(q, n, clock)
    case Sweep(now) => q.(entries := Live(q.entries, now))
    case Config(settings) => Configure(q, settings)
  }

  function After(events: seq<Event>): Queue {
    if events == [] then START else Step(After(events[..|events| - 1]), events[|events| - 1])
  }

  // ---- the daemon ---------------------------------------------------------

  class Main {
    const table: array<Entry>
    var numEntries: nat
    var nextId: nat
    var boot: nat
    var maxLive: nat
    var defaultTtl: nat

    ghost predicate Sized()
      reads this`numEntries
    {
      table.Length == MAX_LIVE && numEntries <= MAX_LIVE
    }

    ghost predicate Valid()
      reads this, table
    {
      Sized() && Inv(View())
    }

    ghost function Entries(): seq<Entry>
      requires Sized()
      reads this`numEntries, table
    {
      table[..numEntries]
    }

    ghost function View(): Queue
      requires Sized()
      reads this, table
    {
      Queue(Entries(), nextId, boot, maxLive, defaultTtl)
    }

    constructor ()
      ensures Valid() && fresh(table) && View() == START
    {
      table := new Entry[MAX_LIVE](_ => Entry(0, 0, "", Info, 0, "", ""));
      numEntries, nextId, boot, maxLive, defaultTtl := 0, 1, 0, DEFAULT_MAX_LIVE, DEFAULT_TTL;
    }

    method NowMs(clock: nat) returns (now: nat)
      modifies this`boot
      ensures boot == Origin(old(boot), clock) && now == clock - boot
    {
      if boot == 0 || clock < boot {
        boot := clock;
      }
      now := clock - boot;
    }

    /** Every entry moves one place to the front. */
    method DropFirst()
      requires Sized()
      modifies this`numEntries, table
      ensures Sized() && Entries() == DropOldest(old(Entries()))
    {
      if numEntries == 0 {
        return;
      }
      for i := 1 to numEntries
        invariant numEntries == old(numEntries)
        invariant forall k :: 0 <= k < i - 1 ==> table[k] == old(table[k + 1])
        invariant forall k :: i <= k < numEntries ==> table[k] == old(table[k])
      {
        table[i - 1] := table[i];
      }
      numEntries := numEntries - 1;
    }

    /** The new entry goes to the end; a full queue gives up its oldest for it. */
    method Enqueue(e: Entry)
      requires Sized() && 1 <= maxLive <= MAX_LIVE
      modifies this`numEntries, this`nextId, table
      ensures Sized() && Entries() == Room(old(Entries()), maxLive) + [e] && nextId == old(nextId) + 1
    {
      if numEntries >= maxLive {
        DropFirst();
      }
      table[numEntries] := e;
      numEntries := numEntries + 1;
      nextId := nextId + 1;
    }

    method AcceptOne(n: Note, clock: nat) returns (ok: bool)
      requires Valid()
      modifies this, table
      ensures Valid() && View() == Accept(old(View()), n, clock) && ok == (n.title != "")
    {
      AcceptInv(View(), n, clock);
      ok := Take(n, clock);
    }

    method Take(n: Note, clock: nat) returns (ok: bool)
      requires Sized() && 1 <= maxLive <= MAX_LIVE
      modifies this, table
      ensures Sized() && View() == Accept(old(View()), n, clock) && ok == (n.title != "")
    {
      ghost var was := View();
      if |n.title| == 0 {
        return false;
      }
      var now := NowMs(clock);
      var e := EntryOf(n, nextId, now, defaultTtl);
      Enqueue(e);
      AcceptIs(was, n, clock, e, View());
      return true;
    }

    /** In-place compaction: live entries move to the front and keep their order. */
    method Compact(now: nat) returns (changed: bool)
      requires Sized()
      modifies this`numEntries, table
      ensures Sized() && Entries() == Live(old(Entries()), now) && (changed <==> Entries() != old(Entries()))
    {
      ghost var was := Entries();
      var w := 0;
      changed := false;
      for r := 0 to numEntries
        invariant w <= r && numEntries == old(numEntries)
        invariant forall k :: r <= k < numEntries ==> table[k] == was[k]
        invariant table[..w] == Live(was[..r], now) && (changed <==> w < r)
      {
        LiveStep(was, r, now);
        if now >= Due(table[r]) {
          changed := true;
          continue;
        }
        table[w] := table[r];
        w := w + 1;
      }
      assert was[..numEntries] == was;
      LiveSame(was, now);
      numEntries := w;
    }

    method HandleExpiry(now: nat) returns (changed: bool)
      requires Valid()
      modifies this`numEntries, table
      ensures Valid() && View() == Step(old(View()), Sweep(now))
      ensures changed <==> View() != old(View())
    {
      LiveInv(View(), now);
      changed := Compact(now);
    }

    method HandleConfig(settings: seq<Setting>)
      requires Valid()
      modifies this`maxLive, this`defaultTtl
      ensures Valid() && View() == Configure(old(View()), settings)
    {
      ghost var was := View();
      for i := 0 to |settings|
        invariant View() == Configure(was, settings[..i])
      {
        assert settings[..i + 1][..i] == settings[..i];
        match settings[i] {
          case MaxLive(v) =>
            var m := if v == 0 then DEFAULT_MAX_LIVE else v;
            maxLive := if m > MAX_LIVE then MAX_LIVE else m;
          case DefaultTtl(v) =>
            var t := if v == 0 then DEFAULT_TTL else v;
            defaultTtl := if t > TTL_MAX then TTL_MAX else t;
          case UnknownElement =>
        }
      }
      assert settings[..|settings|] == settings;
      ConfigureInv(was, settings);
    }
  }

  // ---- every run ----------------------------------------------------------

  predicate Increasing(es: seq<Entry>) {
    forall i, j :: 0 <= i < j < |es| ==> es[i].id < es[j].id
  }

  predicate EntryOk(e: Entry, nextId: nat) {
    e.id < nextId && |e.title| > 0 && |e.source| > 0 && 1 <= e.ttl <= TTL_MAX
  }

  predicate Inv(q: Queue) {
    && |q.entries| <= MAX_LIVE && 1 <= q.maxLive <= MAX_LIVE && 1 <= q.defaultTtl <= TTL_MAX
    && Increasing(q.entries)
    && forall i :: 0 <= i < |q.entries| ==> EntryOk(q.entries[i], q.nextId)
  }

  lemma AcceptIs(q: Queue, n: Note, clock: nat, e: Entry, r: Queue)
    requires |n.title| > 0 && e == EntryOf(n, q.nextId, clock - Origin(q.boot, clock), q.defaultTtl)
    requires r == Queue(Room(q.entries, q.maxLive) + [e], q.nextId + 1, Origin(q.boot, clock), q.maxLive, q.defaultTtl)
    ensures r == Accept(q, n, clock)
  {
  }

  lemma AcceptInv(q: Queue, n: Note, clock: nat)
    requires Inv(q)
    ensures Inv(Accept(q, n, clock))
  {
  }

  /** A sweep keeps exactly the entries that are not due yet, in their order. */
  lemma {:induction false} LiveExact(es: seq<Entry>, now: nat)
    requires Increasing(es)
    ensures Increasing(Live(es, now)) && |Live(es, now)| <= |es|
    ensures forall e :: e in Live(es, now) <==> e in es && now < Due(e)
    decreases |es|
  {
    if es != [] {
      var init, last := es[..|es| - 1], es[|es| - 1];
      LiveExact(init, now);
      assert es == init + [last];
      var kept := Live(init, now);
      forall i | 0 <= i < |kept| ensures kept[i].id < last.id {
        assert kept[i] in init;
      }
    }
  }

  /** Members and increasing ids leave one order only. */
  lemma {:induction false} OrderUnique(a: seq<Entry>, b: seq<Entry>)
    requires Increasing(a) && Increasing(b) && forall e :: e in a <==> e in b
    ensures a == b
    decreases |a|
  {
    if a == [] || b == [] {
      SomeMember(a);
      SomeMember(b);
    } else {
      var x, y := a[|a| - 1], b[|b| - 1];
      assert x in b && y in a;
      var a0, b0 := a[..|a| - 1], b[..|b| - 1];
      assert a == a0 + [x] && b == b0 + [y];
      forall e ensures e in a0 <==> e in b0 {
        assert e in a <==> e in a0 || e == x;
        assert e in b <==> e in b0 || e == y;
      }
      OrderUnique(a0, b0);
    }
  }

  lemma LiveInv(q: Queue, now: nat)
    requires Inv(q)
    ensures Inv(q.(entries := Live(q.entries, now)))
  {
    LiveExact(q.entries, now);
    forall i | 0 <= i < |Live(q.entries, now)| ensures EntryOk(Live(q.entries, now)[i], q.nextId) {
      assert Live(q.entries, now)[i] in q.entries;
    }
  }

  lemma LiveStep(es: seq<Entry>, r: nat, now: nat)
    requires r < |es|
    ensures Live(es[..r + 1], now) == if now >= Due(es[r]) then Live(es[..r], now) else Live(es[..r], now) + [es[r]]
  {
    assert es[..r + 1][..r] == es[..r];
  }

  lemma {:induction false} LiveSame(es: seq<Entry>, now: nat)
    ensures |Live(es, now)| <= |es| && (|Live(es, now)| == |es| <==> Live(es, now) == es)
    decreases |es|
  {
    if es != [] {
      LiveSame(es[..|es| - 1], now);
    }
  }

  lemma {:induction false} ConfigureInv(q: Queue, settings: seq<Setting>)
    requires Inv(q)
    ensures Inv(Configure(q, settings))
    ensures var r := Configure(q, settings); r.entries == q.entries && r.nextId == q.nextId && r.boot == q.boot
    decreases |settings|
  {
    if settings != [] {
      ConfigureInv(q, settings[..|settings| - 1]);
    }
  }

  /** After every run of posts, sweeps and configurations the queue has at most 32 entries, in the
      order of their ids, all with a title, a source and a lifetime within bounds. */
  lemma {:induction false} AfterInv(events: seq<Event>)
    ensures Inv(After(events))
    decreases |events|
  {
    if events != [] {
      var before, last := events[..|events| - 1], events[|events| - 1];
      AfterInv(before);
      match last
      case Post(n, clock) => AcceptInv(After(before), n, clock);
      case Sweep(now) => LiveInv(After(before), now);
      case Config(settings) => ConfigureInv(After(before), settings);
    }
  }

  predicate Survives(q: Queue, e: Entry, now: nat) {
    e in Step(q, Sweep(now)).entries
  }

  lemma SurvivesExact(q: Queue, n: Note, clock: nat, now: nat)
    requires Inv(q) && n.title != ""
    ensures Survives(Accept(q, n, clock), Made(q, n, clock), now) <==> now + Origin(q.boot, clock) < clock + Made(q, n, clock).ttl
  {
    var r, e := Accept(q, n, clock), Made(q, n, clock);
    AcceptInv(q, n, clock);
    LiveExact(r.entries, now);
    assert r.entries[|r.entries| - 1] == e;
  }

  /** Sweeps read the clock itself, time stamps count from the origin. Every sweep at or after the
      post plus the lifetime removes the new entry; but every earlier sweep from the post on keeps
      it if and only if it was posted at clock zero. */
  lemma LifetimeExact(q: Queue, n: Note, clock: nat)
    requires Inv(q) && n.title != ""
    ensures var r, e := Accept(q, n, clock), Made(q, n, clock);
      && (forall now: nat :: now >= clock + e.ttl ==> !Survives(r, e, now))
      && ((forall now: nat :: clock <= now < clock + e.ttl ==> Survives(r, e, now)) <==> clock == 0)
  {
    var r, e := Accept(q, n, clock), Made(q, n, clock);
    AcceptInv(q, n, clock);
    assert e == r.entries[|r.entries| - 1] && EntryOk(e, r.nextId);
    forall now: nat ensures Survives(r, e, now) <==> now + Origin(q.boot, clock) < clock + e.ttl {
      SurvivesExact(q, n, clock, now);
    }
    if clock > 0 {
      var early := if Due(e) > clock then Due(e) else clock;
      assert clock <= early < clock + e.ttl && !Survives(r, e, early);
    }
  }

  /** The first notification of a daemon that has been up for longer than the lifetime is gone with
      the first sweep, whenever that comes. */
  lemma FirstLost(n: Note, clock: nat, now: nat)
    requires n.title != "" && Made(START, n, clock).ttl <= clock <= now
    ensures !Survives(Accept(START, n, clock), Made(START, n, clock), now)
  {
    SurvivesExact(START, n, clock, now);
  }

  // ---- bursts -------------------------------------------------------------

  function AcceptAll(q: Queue, notes: seq<Note>, clock: nat): Queue {
    if notes == [] then q
    else Accept(AcceptAll(q, notes[..|notes| - 1], clock), notes[|notes| - 1], clock)
  }

  /** The entries that a burst makes. */
  function AllMade(q: Queue, notes: seq<Note>, clock: nat): seq<Entry> {
    if notes == [] then []
    else
      var last := notes[|notes| - 1];
      var before := notes[..|notes| - 1];
      if last.title == "" then AllMade(q, before, clock)
      else AllMade(q, before, clock) + [Made(AcceptAll(q, before, clock), last, clock)]
  }

  function Newest(es: seq<Entry>, n: nat): seq<Entry> {
    if |es| <= n then es else es[|es| - n..]
  }

  /** However many notifications a burst brings, what remains are the newest: as many as may be
      live, or as there were, if a configuration had left more than may be live. */
  lemma {:induction false} Burst(q: Queue, notes: seq<Note>, clock: nat)
    requires Inv(q)
    ensures var r, limit := AcceptAll(q, notes, clock), if |q.entries| > q.maxLive then |q.entries| else q.maxLive;
      && r.entries == Newest(q.entries + AllMade(q, notes, clock), limit) && r.maxLive == q.maxLive
      && (|r.entries| <= r.maxLive <==> |q.entries| <= q.maxLive)
    decreases |notes|
  {
    var limit := if |q.entries| > q.maxLive then |q.entries| else q.maxLive;
    if notes == [] {
      assert q.entries + [] == q.entries;
    } else {
      var before, last := notes[..|notes| - 1], notes[|notes| - 1];
      Burst(q, before, clock);
      if last.title != "" {
        var all := q.entries + AllMade(q, before, clock);
        var e := Made(AcceptAll(q, before, clock), last, clock);
        assert q.entries + AllMade(q, notes, clock) == all + [e];
        NewestPush(all, e, limit, q.maxLive);
      }
    }
  }

  lemma NewestPush(es: seq<Entry>, e: Entry, limit: nat, maxLive: nat)
    requires 0 < maxLive <= limit && (maxLive == limit || limit <= |es|)
    ensures Newest(es + [e], limit) == Room(Newest(es, limit), maxLive) + [e]
  {
  }

  /** A queue within its limit stays within it, except exactly when a configuration sets the limit
      below the number of entries. */
  lemma LimitKept(q: Queue, e: Event)
    requires Inv(q) && |q.entries| <= q.maxLive
    ensures |Step(q, e).entries| <= Step(q, e).maxLive <==>
      !(e.Config? && Configure(q, e.settings).maxLive < |q.entries|)
  {
    match e
    case Post(n, clock) =>
    case Sweep(now) => LiveExact(q.entries, now);
    case Config(settings) => ConfigureInv(q, settings);
  }

  /** Two notifications, then a limit of one: a third notification does not bring the queue back. */
  lemma OverLimit(n: Note, clock: nat)
    requires n.title != ""
    ensures var events := [Post(n, clock), Post(n, clock), Config([MaxLive(1)]), Post(n, clock)];
      |After(events).entries| == 2 && After(events).maxLive == 1
  {
    var e, c := Post(n, clock), Config([MaxLive(1)]);
    AfterPush([], e);
    AfterPush([e], e);
    AfterPush([e, e], c);
    AfterPush([e, e, c], e);
    assert [] + [e] == [e] && [e] + [e] == [e, e] && [e, e] + [c] == [e, e, c] && [e, e, c] + [e] == [e, e, c, e];
    assert After([e]) == Step(START, e) && |After([e]).entries| == 1;
    assert |After([e, e]).entries| == 2;
    OneSetting(After([e, e]), MaxLive(1));
    assert |After([e, e, c]).entries| == 2 && After([e, e, c]).maxLive == 1;
  }

  lemma OneSetting(q: Queue, s: Setting)
    requires s.MaxLive? && 0 < s.v <= MAX_LIVE
    ensures Configure(q, [s]) == q.(maxLive := s.v)
  {
    assert [s][..0] == [];
  }

  lemma AfterPush(events: seq<Event>, e: Event)
    ensures After(events + [e]) == Step(After(events), e)
  {
    assert (events + [e])[..|events|] == events;
  }
}
