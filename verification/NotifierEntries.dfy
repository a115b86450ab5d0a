// What a notification becomes, and what a configuration sets, field by field.

module NotifierEntries {
  import opened Wrappers
  import opened Notifier

  /** The lifetime of a notification that asks for `asked`, where `default` stands for none. */
  predicate LastsFor(asked: nat, default: nat, ttl: nat) {
    && (asked == 0 ==> ttl == default)
    && (1 <= asked <= 30000 ==> ttl == asked)
    && (asked > 30000 ==> ttl == 30000)
  }

  /** The entry says what the notification says; its time counts from the origin of the clock. */
  predicate Says(q: Queue, n: Note, clock: nat, e: Entry) {
    && e.id == q.nextId && e.title == n.title && e.body == n.body
    && (n.source != "" ==> e.source == n.source) && (n.source == "" ==> e.source == "unknown")
    && (e.kind == Warn <==> n.kind == "warn") && (e.kind == Error <==> n.kind == "error")
    && LastsFor(n.ttl, q.defaultTtl, e.ttl)
    && (q.boot == 0 || clock < q.boot ==> e.ts == 0)
    && (0 < q.boot <= clock ==> e.ts == clock - q.boot)
  }

  /** A notification without a title is dropped. Any other is the newest entry, says what was asked,
      and takes the place of the oldest one only when the queue is at its limit. */
  lemma PostExact(q: Queue, n: Note, clock: nat)
    requires Inv(q)
    ensures var r := Accept(q, n, clock);
      if n.title == "" then r == q
      else
        && r.entries != [] && Says(q, n, clock, r.entries[|r.entries| - 1])
        && r.entries[..|r.entries| - 1] == (if |q.entries| < q.maxLive then q.entries else q.entries[1..])
        && r.nextId == q.nextId + 1 && r.maxLive == q.maxLive && r.defaultTtl == q.defaultTtl
  {
  }

  /** A number of a configuration: zero stands for the default, and the maximum is never passed. */
  predicate Sets(v: nat, default: nat, max: nat, result: nat) {
    && (v == 0 ==> result == default)
    && (1 <= v <= max ==> result == v)
    && (v > max ==> result == max)
  }

  predicate LastTtl(settings: seq<Setting>, i: int) {
    0 <= i < |settings| && settings[i].DefaultTtl? && forall j :: i < j < |settings| ==> !settings[j].DefaultTtl?
  }

  predicate LastLimit(settings: seq<Setting>, i: int) {
    0 <= i < |settings| && settings[i].MaxLive? && forall j :: i < j < |settings| ==> !settings[j].MaxLive?
  }

  ghost predicate TtlSet(q: Queue, settings: seq<Setting>, r: Queue) {
    && (forall i :: LastTtl(settings, i) ==> Sets(settings[i].v, 5000, 30000, r.defaultTtl))
    && ((forall i :: 0 <= i < |settings| ==> !settings[i].DefaultTtl?) ==> r.defaultTtl == q.defaultTtl)
  }

  ghost predicate LimitSet(q: Queue, settings: seq<Setting>, r: Queue) {
    && (forall i :: LastLimit(settings, i) ==> Sets(settings[i].v, 8, 32, r.maxLive))
    && ((forall i :: 0 <= i < |settings| ==> !settings[i].MaxLive?) ==> r.maxLive == q.maxLive)
  }

  lemma TtlStep(q: Queue, init: seq<Setting>, last: Setting, mid: Queue, r: Queue)
    requires TtlSet(q, init, mid)
    requires r.defaultTtl == if last.DefaultTtl? then Clamp(last.v, DEFAULT_TTL, TTL_MAX) else mid.defaultTtl
    ensures TtlSet(q, init + [last], r)
  {
    var settings := init + [last];
    assert settings[..|init|] == init && settings[|init|] == last;
    forall i | LastTtl(settings, i) ensures Sets(settings[i].v, 5000, 30000, r.defaultTtl) {
      if !last.DefaultTtl? {
        assert i < |init| && LastTtl(init, i);
      }
    }
  }

  lemma LimitStep(q: Queue, init: seq<Setting>, last: Setting, mid: Queue, r: Queue)
    requires LimitSet(q, init, mid)
    requires r.maxLive == if last.MaxLive? then Clamp(last.v, DEFAULT_MAX_LIVE, MAX_LIVE) else mid.maxLive
    ensures LimitSet(q, init + [last], r)
  {
    var settings := init + [last];
    assert settings[..|init|] == init && settings[|init|] == last;
    forall i | LastLimit(settings, i) ensures Sets(settings[i].v, 8, 32, r.maxLive) {
      if !last.MaxLive? {
        assert i < |init| && LastLimit(init, i);
      }
    }
  }

  ghost predicate Configured(q: Queue, settings: seq<Setting>, r: Queue) {
    r.entries == q.entries && r.nextId == q.nextId && r.boot == q.boot && TtlSet(q, settings, r) && LimitSet(q, settings, r)
  }

  /** What one more setting does. */
  predicate OneMore(mid: Queue, last: Setting, r: Queue) {
    && r.entries == mid.entries && r.nextId == mid.nextId && r.boot == mid.boot
    && r.defaultTtl == (if last.DefaultTtl? then Clamp(last.v, DEFAULT_TTL, TTL_MAX) else mid.defaultTtl)
    && r.maxLive == (if last.MaxLive? then Clamp(last.v, DEFAULT_MAX_LIVE, MAX_LIVE) else mid.maxLive)
  }

  lemma ConfigureLast(q: Queue, settings: seq<Setting>)
    requires settings != []
    ensures OneMore(Configure(q, settings[..|settings| - 1]), settings[|settings| - 1], Configure(q, settings))
  {
  }

  lemma ConfiguredMore(q: Queue, settings: seq<Setting>, mid: Queue, r: Queue)
    requires settings != [] && Configured(q, settings[..|settings| - 1], mid) && OneMore(mid, settings[|settings| - 1], r)
    ensures Configured(q, settings, r)
  {
    var init, last := settings[..|settings| - 1], settings[|settings| - 1];
    assert settings == init + [last];
    TtlStep(q, init, last, mid, r);
    LimitStep(q, init, last, mid, r);
  }

  /** A configuration leaves the entries alone. The last lifetime and the last limit in it are the ones
      that count, whatever else it holds. */
  lemma {:induction false} ConfigureExact(q: Queue, settings: seq<Setting>)
    ensures Configured(q, settings, Configure(q, settings))
    decreases |settings|
  {
    if settings != [] {
      ConfigureExact(q, settings[..|settings| - 1]);
      ConfigureLast(q, settings);
      ConfiguredMore(q, settings, Configure(q, settings[..|settings| - 1]), Configure(q, settings));
    }
  }

  /** From the request to the sweep: a notification asks for its lifetime or gets the default of the
      last configuration, thirty seconds at most, and every sweep keeps it exactly while the clock that
      the sweep reads is below its time stamp plus that lifetime. */
  lemma AskedLifetime(q: Queue, settings: seq<Setting>, n: Note, i: int, clock: nat)
    requires Inv(q) && n.title != "" && LastTtl(settings, i)
    ensures var d := Configure(q, settings);
      var asked := if n.ttl > 0 then n.ttl else if settings[i].v > 0 then settings[i].v else 5000;
      var ttl := if asked > 30000 then 30000 else asked;
      var stamp := if q.boot == 0 || clock < q.boot then 0 else clock - q.boot;
      forall now: nat :: Survives(Accept(d, n, clock), Made(d, n, clock), now) <==> now < stamp + ttl
  {
    ConfigureExact(q, settings);
    ConfigureInv(q, settings);
    var d := Configure(q, settings);
    PostExact(d, n, clock);
    forall now: nat ensures Survives(Accept(d, n, clock), Made(d, n, clock), now) <==> now < Made(d, n, clock).ts + Made(d, n, clock).ttl {
      SurvivesExact(d, n, clock, now);
    }
  }
}
