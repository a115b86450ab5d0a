// The reset to the baked defaults, the answers to requests, and what the panel's values are.

module ConfigDefaults {
  import opened Wrappers
  import opened KillMarkers
  import opened ConfigValues
  import opened PanelKeys
  import opened ConfigStore
  import opened ConfigDaemon
  import opened ConfigTheorems

  // ---- the last valid line of a key ---------------------------------------

  predicate GoodLine(kind: Kind, line: Line, key: string) {
    line.key == key && ValueOk(kind, line.value)
  }

  /** The last line that gives the key a valid value. */
  function LastGood(kind: Kind, lines: seq<Line>, key: string): (r: Option<nat>)
    ensures match r
      case None => forall i :: 0 <= i < |lines| ==> !GoodLine(kind, lines[i], key)
      case Some(i) => i < |lines| && GoodLine(kind, lines[i], key) && forall j :: i < j < |lines| ==> !GoodLine(kind, lines[j], key)
  {
    if lines == [] then None
    else if GoodLine(kind, lines[|lines| - 1], key) then Some(|lines| - 1)
    else LastGood(kind, lines[..|lines| - 1], key)
  }

  predicate Mentioned(lines: seq<Line>, key: string) {
    exists i :: 0 <= i < |lines| && lines[i].key == key
  }

  /** What a key holds once the lines have been read; `before` and `after` are what `Get` returns. */
  predicate Holds(kind: Kind, lines: seq<Line>, key: string, before: Option<string>, after: Option<string>) {
    match LastGood(kind, lines, key)
    case Some(i) => after.Some? ==> after.value == lines[i].value
    case None => if before.Some? then after == before else after.Some? ==> after.value == ""
  }

  /** Which keys there are once the lines have been read: a panel key that is mentioned comes into
      being unless the table is full. */
  ghost predicate Exists(reg: seq<KeyDef>, s: Store, s1: Store, lines: seq<Line>, key: string)
    requires |s.values| == |reg| == |s1.values|
  {
    && (Get(reg, s, key).Some? ==> Get(reg, s1, key).Some?)
    && (Get(reg, s, key).None? && Get(reg, s1, key).Some? ==> HasPanel(key) && Mentioned(lines, key))
    && (HasPanel(key) && Mentioned(lines, key) && Get(reg, s1, key).None? ==> |s1.panels| == 32)
  }

  ghost predicate ReadIn(reg: seq<KeyDef>, s: Store, s1: Store, lines: seq<Line>, key: string) {
    && Inv(reg, s) && Inv(reg, s1)
    && |s.panels| <= |s1.panels|
    && Exists(reg, s, s1, lines, key)
    && Holds(KindFor(reg, key), lines, key, Get(reg, s, key), Get(reg, s1, key))
  }

  lemma MentionedMore(lines: seq<Line>, last: Line, key: string)
    ensures Mentioned(lines + [last], key) <==> Mentioned(lines, key) || last.key == key
  {
    var all := lines + [last];
    if last.key == key {
      assert all[|lines|].key == key;
    }
    if Mentioned(lines, key) {
      var i :| 0 <= i < |lines| && lines[i].key == key;
      assert all[i].key == key;
    }
  }

  lemma PanelNotFlat(reg: seq<KeyDef>, key: string)
    requires ValidRegistry(reg) && HasPanel(key)
    ensures !IsFlat(reg, key) && Shaped(key)
  {
    var id :| IsPanelKey(key, id);
    PanelShaped(key, id);
  }

  /** One line, for the key it names. */
  lemma LineHere(reg: seq<KeyDef>, s: Store, key: string, v: string)
    requires ValidRegistry(reg) && Inv(reg, s)
    ensures var s1 := Apply(reg, s, key, v).0;
      && Inv(reg, s1) && |s.panels| <= |s1.panels|
      && (Placeable(reg, s, key) && ValueOk(KindFor(reg, key), v) ==> Get(reg, s1, key) == Some(v))
      && (Placeable(reg, s, key) && !ValueOk(KindFor(reg, key), v) ==>
            Get(reg, s1, key) == if Get(reg, s, key).Some? then Get(reg, s, key) else Some(""))
      && (!Placeable(reg, s, key) ==> s1 == s)
  {
    ApplyInv(reg, s, key, v);
    ApplyExact(reg, s, key, v, key);
    ApplyRefused(reg, s, key, v);
    PlaceKnown(reg, s, key);
  }

  /** A key is there, or it has no value; it can get a place if it is there, or is a panel key and the
      table has room. */
  lemma PlaceKnown(reg: seq<KeyDef>, s: Store, key: string)
    requires ValidRegistry(reg) && Inv(reg, s)
    ensures Get(reg, s, key).Some? ==> Placeable(reg, s, key) && !NewPanel(reg, s, key)
    ensures Get(reg, s, key).None? ==> (Placeable(reg, s, key) <==> HasPanel(key) && |s.panels| < 32)
    ensures Get(reg, s, key).None? ==> (Placeable(reg, s, key) <==> NewPanel(reg, s, key))
  {
    if !IsFlat(reg, key) && PanelIndex(s.panels, key) < |s.panels| {
      InstantiatedPlace(reg, s, key);
    }
    if HasPanel(key) {
      PanelNotFlat(reg, key);
    }
  }

  lemma HoldsHere(kind: Kind, lines: seq<Line>, last: Line, before: Option<string>, mid: Option<string>, after: Option<string>)
    requires Holds(kind, lines, last.key, before, mid) && (before.Some? ==> mid.Some?)
    requires after.Some? ==> after.value == (if ValueOk(kind, last.value) then last.value else if mid.Some? then mid.value else "")
    requires mid.Some? ==> after.Some?
    requires mid.None? && after.Some? ==> LastGood(kind, lines, last.key).None?
    ensures Holds(kind, lines + [last], last.key, before, after)
  {
    var all := lines + [last];
    assert all[..|all| - 1] == lines && all[|all| - 1] == last;
  }

  lemma HoldsElsewhere(kind: Kind, lines: seq<Line>, last: Line, key: string, before: Option<string>, mid: Option<string>)
    requires Holds(kind, lines, key, before, mid) && last.key != key
    ensures Holds(kind, lines + [last], key, before, mid)
  {
    var all := lines + [last];
    assert all[..|all| - 1] == lines && all[|all| - 1] == last;
  }

  lemma StepHere(reg: seq<KeyDef>, s: Store, mid: Store, lines: seq<Line>, last: Line)
    requires ValidRegistry(reg) && ReadIn(reg, s, mid, lines, last.key)
    ensures ReadIn(reg, s, Apply(reg, mid, last.key, last.value).0, lines + [last], last.key)
  {
    var key := last.key;
    var s1 := Apply(reg, mid, key, last.value).0;
    LineHere(reg, mid, key, last.value);
    PlaceKnown(reg, mid, key);
    MentionedMore(lines, last, key);
    NotYetThere(reg, s, mid, lines, key);
    HoldsHere(KindFor(reg, key), lines, last, Get(reg, s, key), Get(reg, mid, key), Get(reg, s1, key));
  }

  /** A key that is not there and could be has not been mentioned. */
  lemma NotYetThere(reg: seq<KeyDef>, s: Store, mid: Store, lines: seq<Line>, key: string)
    requires ValidRegistry(reg) && Inv(reg, mid) && |s.values| == |reg| && Exists(reg, s, mid, lines, key)
    ensures Get(reg, mid, key).None? && Placeable(reg, mid, key) ==> LastGood(KindFor(reg, key), lines, key).None?
  {
    PlaceKnown(reg, mid, key);
    assert |mid.values| == |reg|;
    if !Mentioned(lines, key) {
      NotMentioned(KindFor(reg, key), lines, key);
    }
  }

  lemma NotMentioned(kind: Kind, lines: seq<Line>, key: string)
    requires !Mentioned(lines, key)
    ensures LastGood(kind, lines, key).None?
  {
  }

  lemma StepElsewhere(reg: seq<KeyDef>, s: Store, mid: Store, lines: seq<Line>, last: Line, key: string)
    requires ValidRegistry(reg) && ReadIn(reg, s, mid, lines, key) && key != last.key
    ensures ReadIn(reg, s, Apply(reg, mid, last.key, last.value).0, lines + [last], key)
  {
    LineHere(reg, mid, last.key, last.value);
    ApplyExact(reg, mid, last.key, last.value, key);
    MentionedMore(lines, last, key);
    HoldsElsewhere(KindFor(reg, key), lines, last, key, Get(reg, s, key), Get(reg, mid, key));
  }

  lemma {:induction false} DefaultsRead(reg: seq<KeyDef>, s: Store, lines: seq<Line>, key: string)
    requires ValidRegistry(reg) && Inv(reg, s)
    ensures ReadIn(reg, s, ApplyAll(reg, s, lines), lines, key)
    decreases |lines|
  {
    if lines != [] {
      var init, last := lines[..|lines| - 1], lines[|lines| - 1];
      DefaultsRead(reg, s, init, key);
      assert lines == init + [last];
      if key == last.key {
        StepHere(reg, s, ApplyAll(reg, s, init), init, last);
      } else {
        StepElsewhere(reg, s, ApplyAll(reg, s, init), init, last, key);
      }
    }
  }

  // ---- the reset ----------------------------------------------------------

  /** Writing `no` to `bake.applied` reads the baked defaults in: every key holds the value of the last
      line that gives it a valid one, and otherwise what it held before, or nothing if the lines have
      only just brought it into being. A panel key that is mentioned is there afterwards, unless the
      table is full. */
  lemma ResetExact(reg: seq<KeyDef>, s: Store, lines: seq<Line>, key: string)
    requires ValidRegistry(reg) && Inv(reg, s)
    ensures var (s1, answer) := Set(reg, s, "bake.applied", "no", Some(lines));
      answer == Done && ReadIn(reg, s, s1, lines, key)
  {
    DefaultsRead(reg, s, lines, key);
  }

  /** A flat key, in particular, takes the last valid line whatever the panel keys are. */
  lemma FlatReset(reg: seq<KeyDef>, s: Store, lines: seq<Line>, i: nat)
    requires ValidRegistry(reg) && Inv(reg, s) && i < |reg|
    ensures var s1 := Set(reg, s, "bake.applied", "no", Some(lines)).0;
      && |s1.values| == |reg|
      && s1.values[i] == match LastGood(reg[i].kind, lines, reg[i].name)
           case Some(k) => lines[k].value
           case None => s.values[i]
  {
    assert FlatIndex(reg, reg[i].name) == i;
    ResetExact(reg, s, lines, reg[i].name);
  }

  /** The three keys of the bake are written by nothing else: a request for one is answered read-only
      and changes nothing, a reset without defaults says so, and no other key is read-only. */
  lemma MetaExact(reg: seq<KeyDef>, s: Store, key: string, v: string, baked: Option<seq<Line>>)
    requires ValidRegistry(reg) && Inv(reg, s)
    ensures var (s1, answer) := Set(reg, s, key, v, baked);
      var meta, reset := key in {"bake.applied", "bake.profile", "bake.version"}, key == "bake.applied" && v == "no";
      && (answer == ReadOnly <==> meta && !reset)
      && (answer == NoDefaults <==> reset && baked.None?)
      && (answer == ReadOnly || answer == NoDefaults ==> s1 == s)
  {
    MetaKeys(key);
    if key !in META && !IsFlat(reg, key) {
      PanelAnswer(reg, s, key, v, baked);
    }
  }

  lemma MetaKeys(key: string)
    ensures key in META <==> key in {"bake.applied", "bake.profile", "bake.version"}
    ensures META[0] == "bake.applied"
  {
  }

  // ---- the answers --------------------------------------------------------

  /** The key starts and ends as a panel key does, whatever is in between. */
  predicate LooksPanel(key: string) {
    "panel." <= key && exists suffix :: suffix in {".height", ".position", ".visible_widgets"} && |key| > |suffix| && EndsIn(key, suffix)
  }

  lemma LooksShaped(key: string)
    ensures Shaped(key) <==> LooksPanel(key)
  {
    assert Suffix(0) == ".height" && Suffix(1) == ".position" && Suffix(2) == ".visible_widgets";
    if Shaped(key) {
      var t :| 0 <= t < TEMPLATES && Fits(key, PREFIX, Suffix(t));
      assert Suffix(t) in {".height", ".position", ".visible_widgets"} && EndsIn(key, Suffix(t));
    }
    if LooksPanel(key) {
      var suffix :| suffix in {".height", ".position", ".visible_widgets"} && |key| > |suffix| && EndsIn(key, suffix);
      var t := if suffix == Suffix(0) then 0 else if suffix == Suffix(1) then 1 else 2;
      assert Fits(key, PREFIX, Suffix(t));
    }
  }

  /** The answer to a request for a key that is not of the bake: done exactly when the value is valid
      for the entry addressed, and otherwise the first reason of the source's order. */
  lemma AnswerExact(reg: seq<KeyDef>, s: Store, key: string, v: string, baked: Option<seq<Line>>)
    requires ValidRegistry(reg) && Inv(reg, s) && key !in {"bake.applied", "bake.profile", "bake.version"}
    ensures Set(reg, s, key, v, baked).1 ==
      if IsFlat(reg, key) then
        var kind := if Misrouted(reg, s, key) then s.panels[FlatIndex(reg, key)].kind else KindFor(reg, key);
        if ValueOk(kind, v) then Done else BadValue
      else if !LooksPanel(key) then Refused(UnknownKey)
      else if !HasPanel(key) then Refused(BadId)
      else if Get(reg, s, key).None? && |s.panels| == 32 then Refused(TableFull)
      else if ValueOk(KindOf(key), v) then Done
      else BadValue
  {
    MetaKeys(key);
    LooksShaped(key);
    if HasPanel(key) {
      PanelNotFlat(reg, key);
    }
    if !IsFlat(reg, key) {
      PanelAnswer(reg, s, key, v, baked);
    }
  }

  lemma PanelAnswer(reg: seq<KeyDef>, s: Store, key: string, v: string, baked: Option<seq<Line>>)
    requires ValidRegistry(reg) && Inv(reg, s) && key !in META && !IsFlat(reg, key)
    ensures var place, answer := PlaceFor(s.panels, key), Set(reg, s, key, v, baked).1;
      if place.Slot? then answer == if ValueOk(KindOf(key), v) then Done else BadValue else answer == Refused(place)
  {
    InstantiateInv(reg, s, key);
    if PanelIndex(s.panels, key) < |s.panels| {
      InstantiatedPlace(reg, s, key);
      assert PanelOk(s.panels[PanelIndex(s.panels, key)]);
    }
  }

  // ---- what the panel's values are ----------------------------------------

  /** The three templates, and the rules of their values. */
  lemma PanelKinds(key: string, id: string, t: nat)
    requires ValidId(id) && t < TEMPLATES && key == PREFIX + id + Suffix(t)
    ensures KindOf(key) ==
      if t == 0 then UintRange(16, 128)
      else if t == 1 then Enum(["top", "bottom", "left", "right"])
      else EnumList(["clock", "launcher", "tasklist"])
  {
    KindExact(key, id, t);
  }

  lemma TemplateSpelling()
    ensures PREFIX == "panel." && TEMPLATES == 3
    ensures Suffix(0) == ".height" && Suffix(1) == ".position" && Suffix(2) == ".visible_widgets"
  {
  }

  /** What an entry of each property can hold. */
  ghost predicate ValueFor(property: string, v: string) {
    || v == ""
    || (property == "height" && v != "" && AllDigits(v) && 16 <= Value(v) <= 128)
    || (property == "position" && v in {"top", "bottom", "left", "right"})
    || (property == "visible_widgets" && exists ps :: IsListing(Names(["clock", "launcher", "tasklist"]), v, ps))
  }

  lemma ListedWidgets(v: string)
    requires ValueOk(EnumList(["clock", "launcher", "tasklist"]), v)
    ensures exists ps :: IsListing(Names(["clock", "launcher", "tasklist"]), v, ps)
  {
    var rule := Names(["clock", "launcher", "tasklist"]);
    forall t ensures TokenOk(rule, t) ==> CleanToken(rule, t) {
      CleanRules(t);
    }
    ListExact(rule, v);
  }

  lemma PanelHolds(p: Panel, id: string, t: nat)
    requires PanelOk(p) && ValidId(id) && t < TEMPLATES && p.name == PREFIX + id + Suffix(t)
    ensures ValueFor(Property(t), p.value)
  {
    PanelKinds(p.name, id, t);
    if p.value != "" && t == 2 {
      ListedWidgets(p.value);
    }
  }

  /** After any history of requests, the panel takes every panel entry apart into an id and one of the
      three properties, and the value is one of that property or not yet set. */
  lemma PanelValues(reg: seq<KeyDef>, writes: seq<Write>, i: nat)
    requires ValidRegistry(reg) && i < |After(reg, writes).panels|
    ensures exists id, property :: Entry(After(reg, writes).panels[i], id, property)
  {
    AfterInv(reg, writes);
    EntryOf(After(reg, writes).panels[i]);
  }

  ghost predicate Entry(p: Panel, id: string, property: string) {
    && property in {"height", "position", "visible_widgets"} && ValidId(id)
    && p.name == "panel." + (id + "." + property)
    && IsSplit(p.name, Parts(id, property)) && ValueFor(property, p.value)
  }

  lemma EntryOf(p: Panel)
    requires PanelOk(p)
    ensures exists id, property :: Entry(p, id, property)
  {
    var id :| IsPanelKey(p.name, id);
    var t :| 0 <= t < TEMPLATES && p.name == PREFIX + id + Suffix(t);
    PanelHolds(p, id, t);
    KeySpelling(PREFIX, id, Property(t));
    assert Entry(p, id, Property(t));
  }

  /** The rules of the other kinds, character by character. */
  lemma ValueMeaning(v: string)
    ensures ValueOk(HexColor, v) <==>
      |v| == 7 && v[0] == '#' && forall i :: 1 <= i < 7 ==> v[i] in "0123456789abcdefABCDEF"
    ensures ValueOk(FormatString, v) <==> 1 <= |v| <= 64 && forall i :: 0 <= i < |v| ==> 32 <= v[i] as int <= 126
    ensures ValueOk(Text, v) <==> v != ""
  {
    forall c: char ensures HexDigit(c) <==> c in "0123456789abcdefABCDEF" {
      HexDigits(c);
    }
  }

  lemma HexDigits(c: char)
    ensures HexDigit(c) <==> c in "0123456789abcdefABCDEF"
  {
    var all := "0123456789abcdefABCDEF";
    forall k | 0 <= k < 22 ensures HexDigit(all[k]) {
    }
    if HexDigit(c) {
      var k := if c <= '9' then c as int - 48 else if c <= 'F' then 16 + c as int - 65 else 10 + c as int - 97;
      assert all[k] == c;
    }
  }
}
