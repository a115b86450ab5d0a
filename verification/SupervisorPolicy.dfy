// Reading the policy from the configuration text, and what a printed policy promises.

module SupervisorPolicy {
  import opened Wrappers
  import opened TextScan
  import opened KillMarkers
  import opened AttrText
  import opened SupervisorCore
  import opened SupervisorRuns
  import opened Supervisor

  const IGNORE_BUF: nat := 128

  function BoolOf(cfg: string, key: string, dflt: bool): bool {
    match AttrFrom(cfg, 0, key)
    case None => dflt
    case Some(v) => if v == "yes" then true else if v == "no" then false else dflt
  }

  /** A list that does not fit its buffer is not taken at all. */
  function IgnoreOf(cfg: string): string {
    match AttrFrom(cfg, 0, "ignore_exited")
    case None => ""
    case Some(v) => if |v| < IGNORE_BUF then v else ""
  }

  /** The times of the policy, in milliseconds. */
  datatype Times = Times(poll: u32, bootGrace: u32, grace: u32, console: u32, settle: u32)

  const DEFAULT_TIMES: Times := Times(250, 30000, 4000, 4000, 3000)
  const DEFAULT_SKIPPED: u32 := 3

  function LimitsFor(t: Times): Limits {
    LimitsOf(t.poll, t.bootGrace, t.grace, t.console, t.settle)
  }

  function Number(cfg: string, key: string, dflt: u32): u32 {
    NumOf(cfg, key, dflt)
  }

  function TimesOf(cfg: string): Times {
    Times(Number(cfg, "poll_ms", DEFAULT_TIMES.poll), Number(cfg, "boot_grace_ms", DEFAULT_TIMES.bootGrace),
          Number(cfg, "grace_ms", DEFAULT_TIMES.grace), Number(cfg, "console_hold_ms", DEFAULT_TIMES.console),
          Number(cfg, "settle_ms", DEFAULT_TIMES.settle))
  }

  function PolicyOf(cfg: string): Policy {
    Policy(Number(cfg, "fault_skipped", DEFAULT_SKIPPED), BoolOf(cfg, "ignore_starting", true), IgnoreOf(cfg), LimitsFor(TimesOf(cfg)))
  }

  /** Without a valid configuration the deadlines, which are set with it, stay at zero. */
  const NO_POLICY: Policy := Policy(DEFAULT_SKIPPED, true, "", Limits(0, 0, 0, 0))

  method ReadBool(cfg: string, key: string, dflt: bool) returns (b: bool)
    ensures b == BoolOf(cfg, key, dflt)
  {
    var value := ScanAttr(cfg, key);
    if value.None? || value.value == "" {
      return dflt;
    }
    if value.value == "yes" {
      return true;
    }
    if value.value == "no" {
      return false;
    }
    return dflt;
  }

  method ReadTimes(cfg: string) returns (t: Times)
    ensures t == TimesOf(cfg)
  {
    var poll := ReadNum(cfg, "poll_ms", DEFAULT_TIMES.poll);
    var bootGrace := ReadNum(cfg, "boot_grace_ms", DEFAULT_TIMES.bootGrace);
    var grace := ReadNum(cfg, "grace_ms", DEFAULT_TIMES.grace);
    var console := ReadNum(cfg, "console_hold_ms", DEFAULT_TIMES.console);
    var settle := ReadNum(cfg, "settle_ms", DEFAULT_TIMES.settle);
    t := Times(poll, bootGrace, grace, console, settle);
  }

  method ReadPolicy(config: Option<string>) returns (p: Policy)
    ensures p == match config case None => Policy(3, true, "", Limits(0, 0, 0, 0)) case Some(cfg) => PolicyOf(cfg)
  {
    if config.None? {
      return NO_POLICY;
    }
    var cfg := config.value;
    var times := ReadTimes(cfg);
    var skipped := ReadNum(cfg, "fault_skipped", DEFAULT_SKIPPED);
    var starting := ReadBool(cfg, "ignore_starting", true);
    var list := ScanAttr(cfg, "ignore_exited");
    var ignore := "";
    if list.Some? && |list.value| < IGNORE_BUF {
      ignore := list.value;
    }
    p := Policy(skipped, starting, ignore, LimitsFor(times));
  }

  // ---- a printed policy ---------------------------------------------------

  /** The attribute list gives the number, as the leading digits of its value, or leaves it to its default. */
  ghost predicate Gives(t: Text, key: string, n: u32, dflt: u32) {
    && ClearText(t, key)
    && match Lookup(t.items, key) case None => n == dflt case Some(v) => Denotes(v, dflt, n)
  }

  ghost predicate GivesTimes(t: Text, times: Times) {
    && Gives(t, "poll_ms", times.poll, DEFAULT_TIMES.poll) && Gives(t, "boot_grace_ms", times.bootGrace, DEFAULT_TIMES.bootGrace)
    && Gives(t, "grace_ms", times.grace, DEFAULT_TIMES.grace) && Gives(t, "console_hold_ms", times.console, DEFAULT_TIMES.console)
    && Gives(t, "settle_ms", times.settle, DEFAULT_TIMES.settle)
  }

  predicate GivesSwitch(t: Text, key: string, on: bool, dflt: bool) {
    && ClearText(t, key)
    && match Lookup(t.items, key) case None => on == dflt case Some(v) => on == (v == "yes" || (v != "no" && dflt))
  }

  predicate GivesList(t: Text, key: string, list: string) {
    && ClearText(t, key)
    && match Lookup(t.items, key) case None => list == "" case Some(v) => list == if |v| <= 127 then v else ""
  }

  lemma NumberRead(t: Text, key: string, n: u32, dflt: u32)
    requires GoodText(t) && IsKey(key) && Gives(t, key, n, dflt)
    ensures Number(PrintText(t), key, dflt) == n
  {
    NumRead(t, key, n, dflt);
  }

  lemma PolicyKeys()
    ensures IsKey("poll_ms") && IsKey("boot_grace_ms") && IsKey("grace_ms") && IsKey("console_hold_ms") && IsKey("settle_ms")
    ensures IsKey("fault_skipped") && IsKey("ignore_starting") && IsKey("ignore_exited")
  {
  }

  lemma TimesRead(t: Text, times: Times)
    requires GoodText(t) && GivesTimes(t, times)
    ensures TimesOf(PrintText(t)) == times
  {
    PolicyKeys();
    NumberRead(t, "poll_ms", times.poll, DEFAULT_TIMES.poll);
    NumberRead(t, "boot_grace_ms", times.bootGrace, DEFAULT_TIMES.bootGrace);
    NumberRead(t, "grace_ms", times.grace, DEFAULT_TIMES.grace);
    NumberRead(t, "console_hold_ms", times.console, DEFAULT_TIMES.console);
    NumberRead(t, "settle_ms", times.settle, DEFAULT_TIMES.settle);
  }

  lemma SwitchRead(t: Text, key: string, on: bool, dflt: bool)
    requires GoodText(t) && IsKey(key) && GivesSwitch(t, key, on, dflt)
    ensures BoolOf(PrintText(t), key, dflt) == on
  {
    AttrExact(t, key);
  }

  lemma ListRead(t: Text, list: string)
    requires GoodText(t) && GivesList(t, "ignore_exited", list)
    ensures IgnoreOf(PrintText(t)) == list
  {
    PolicyKeys();
    AttrExact(t, "ignore_exited");
  }

  /** A policy written as attributes, in any order and either spelling, with or without each of them:
      numbers are the leading digits modulo 2^32, switches anything but `yes` and `no` leaves alone,
      and a list of more than 127 characters is not taken. */
  lemma PolicyRead(t: Text, times: Times, skipped: u32, starting: bool, ignore: string)
    requires GoodText(t) && GivesTimes(t, times) && Gives(t, "fault_skipped", skipped, DEFAULT_SKIPPED)
    requires GivesSwitch(t, "ignore_starting", starting, true) && GivesList(t, "ignore_exited", ignore)
    ensures PolicyOf(PrintText(t)) == Policy(skipped, starting, ignore, LimitsFor(times))
  {
    PolicyKeys();
    TimesRead(t, times);
    NumberRead(t, "fault_skipped", skipped, DEFAULT_SKIPPED);
    SwitchRead(t, "ignore_starting", starting, true);
    ListRead(t, ignore);
  }

  /** With a poll period of one millisecond the windows are the times themselves; with any other none
      of their sums overflows. */
  lemma TimelyExact(t: Times)
    ensures Timely(LimitsFor(t)) <==> t.poll != 1 || (t.grace + t.settle < U32 && t.console + t.settle < U32)
  {
    if t.poll != 1 {
      PolicyTimely(t.poll, t.bootGrace, t.grace, t.console, t.settle);
    } else {
      assert LimitsFor(t) == Limits(t.bootGrace, t.grace, t.console, t.settle);
    }
  }

  /** So a supervisor started with a printed policy returns to NOMINAL after every kill, whatever the
      fault signal does, if and only if its poll period is not one millisecond or the times it was
      given do not add up to 2^32. */
  lemma PrintedReturns(t: Text, times: Times)
    requires GoodText(t) && GivesTimes(t, times)
    ensures var l := PolicyOf(PrintText(t)).limits;
      && l == LimitsFor(times)
      && (AlwaysReturns(l) <==> times.poll != 1 || (times.grace + times.settle < U32 && times.console + times.settle < U32))
  {
    TimesRead(t, times);
    ReturnsIffTimely(LimitsFor(times));
    TimelyExact(times);
  }

  /** A policy that does not see to a return: polling every millisecond, with two windows of 2^31 of them. */
  lemma StallingPolicy()
    ensures !AlwaysReturns(LimitsFor(Times(1, 30000, 0x8000_0000, 4000, 0x8000_0000)))
  {
    var times := Times(1, 30000, 0x8000_0000, 4000, 0x8000_0000);
    TimelyExact(times);
    ReturnsIffTimely(LimitsFor(times));
  }

  // ---- what the windows mean ----------------------------------------------

  /** The least number of poll periods that lasts the given time. */
  predicate Covers(ticks: nat, ms: nat, period: nat) {
    ms <= ticks * period && (ticks == 0 || (ticks - 1) * period < ms)
  }

  lemma TicksCover(ms: u32, pollMs: u32)
    ensures var period := if pollMs == 0 then 250 else pollMs;
      if ms + period <= U32 then Covers(ToTicks(ms, pollMs), ms, period) else ToTicks(ms, pollMs) == 0
  {
    var period := if pollMs == 0 then 250 else pollMs;
    var x := (ms + period - 1) % U32;
    DivStep(x, period);
    if ms + period > U32 {
      assert x == ms + period - 1 - U32 < period;
      DivSmall(x, period);
    }
  }

  lemma DivStep(x: nat, period: nat)
    requires period > 0
    ensures x / period * period <= x < x / period * period + period
    ensures x / period > 0 ==> (x / period - 1) * period == x / period * period - period
  {
    assert x == x / period * period + x % period;
  }

  lemma DivSmall(x: nat, period: nat)
    requires x < period
    ensures x / period == 0
  {
    DivStep(x, period);
    TimesMonotone(1, x / period, period);
  }

  lemma TimesMonotone(a: int, b: int, period: nat)
    ensures a <= b ==> a * period <= b * period
  {
  }

  /** One window against the time it was read from. */
  predicate WindowFits(ticks: nat, ms: nat, period: nat) {
    if ms + period <= 0x1_0000_0000 then Covers(ticks, ms, period) else ticks == 0
  }

  /** Every printed time becomes the window of its own name: the least number of poll periods that
      lasts it, where a period of zero means a quarter of a second. Only a time so long that rounding
      it up overflows becomes no window at all. */
  lemma WindowsExact(t: Text, times: Times)
    requires GoodText(t) && GivesTimes(t, times)
    ensures var l, period := PolicyOf(PrintText(t)).limits, if times.poll == 0 then 250 else times.poll;
      && WindowFits(l.bootGrace, times.bootGrace, period) && WindowFits(l.grace, times.grace, period)
      && WindowFits(l.console, times.console, period) && WindowFits(l.settle, times.settle, period)
  {
    TimesRead(t, times);
    TicksCover(times.bootGrace, times.poll);
    TicksCover(times.grace, times.poll);
    TicksCover(times.console, times.poll);
    TicksCover(times.settle, times.poll);
  }

  lemma CoversUnique(a: nat, b: nat, ms: nat, period: nat)
    requires period > 0 && Covers(a, ms, period) && Covers(b, ms, period)
    ensures a == b
  {
    TimesMonotone(a, b - 1, period);
    TimesMonotone(b, a - 1, period);
  }

  /** Without any attribute: the defaults, in poll periods of a quarter of a second. */
  lemma DefaultPolicy()
    ensures PolicyOf("<config/>") == Policy(3, true, "", Limits(120, 16, 16, 12))
  {
    var cfg := "<config/>";
    NoAttrs(cfg);
    assert NumOf(cfg, "poll_ms", 250) == 250;
    assert ToTicks(30000, 250) == 120 && ToTicks(4000, 250) == 16 && ToTicks(3000, 250) == 12;
  }

  /** A text without a separator has no attribute. */
  lemma {:induction false} NoAttr(cfg: string, i: nat, key: string)
    requires '=' !in cfg && ':' !in cfg
    ensures AttrFrom(cfg, i, key).None?
    decreases |cfg| - i
  {
    if i + |key| < |cfg| {
      assert cfg[i + |key|] in cfg;
      NoAttr(cfg, i + 1, key);
    }
  }

  lemma NoAttrs(cfg: string)
    requires '=' !in cfg && ':' !in cfg
    ensures forall key :: AttrFrom(cfg, 0, key).None?
  {
    forall key ensures AttrFrom(cfg, 0, key).None? {
      NoAttr(cfg, 0, key);
    }
  }
}
