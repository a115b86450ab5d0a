// What a write to the configuration store achieves, when it goes wrong, and what the panel reads.

module ConfigTheorems {
  import opened Wrappers
  import opened KillMarkers
  import opened ConfigValues
  import opened PanelKeys
  import opened ConfigStore
  import opened ConfigDaemon

  /** The index of a flat key is mistaken for that of a panel key. */
  predicate Misrouted(reg: seq<KeyDef>, s: Store, key: string) {
    FlatIndex(reg, key) < |reg| && FlatIndex(reg, key) < |s.panels|
  }

  predicate IsFlat(reg: seq<KeyDef>, key: string) {
    FlatIndex(reg, key) < |reg|
  }

  function KindFor(reg: seq<KeyDef>, key: string): Kind {
    if IsFlat(reg, key) then reg[FlatIndex(reg, key)].kind else KindOf(key)
  }

  /** The key has a place, or can get one. */
  ghost predicate Placeable(reg: seq<KeyDef>, s: Store, key: string) {
    IsFlat(reg, key) || PlaceFor(s.panels, key).Slot?
  }

  lemma {:induction false} PanelIndexIs(panels: seq<Panel>, key: string, i: nat)
    requires i < |panels| && panels[i].name == key
    requires forall a, b :: 0 <= a < b < |panels| ==> panels[a].name != panels[b].name
    ensures PanelIndex(panels, key) == i
  {
  }

  /** An entry of a panel key has its place. */
  lemma InstantiatedPlace(reg: seq<KeyDef>, s: Store, key: string)
    requires Inv(reg, s) && PanelIndex(s.panels, key) < |s.panels|
    ensures PlaceFor(s.panels, key) == Slot(PanelIndex(s.panels, key))
  {
    var i := PanelIndex(s.panels, key);
    assert PanelOk(s.panels[i]);
    var id :| IsPanelKey(key, id);
    PanelShaped(key, id);
  }

  lemma PanelShaped(key: string, id: string)
    requires IsPanelKey(key, id)
    ensures Shaped(key)
  {
    var t :| 0 <= t < TEMPLATES && key == PREFIX + id + Suffix(t);
    var suffix := Suffix(t);
    assert key == PREFIX + (id + suffix);
    assert key[|key| - |suffix|..] == suffix;
    assert Fits(key, PREFIX, Suffix(t));
  }

  /** The path of the baked defaults stores a value exactly when the key has a place and the value
      is valid for it, and touches no other key. */
  lemma ApplyExact(reg: seq<KeyDef>, s: Store, key: string, v: string, other: string)
    requires ValidRegistry(reg) && Inv(reg, s)
    ensures var (s1, ok) := Apply(reg, s, key, v);
      && (ok <==> Placeable(reg, s, key) && ValueOk(KindFor(reg, key), v))
      && (ok ==> Get(reg, s1, key) == Some(v))
      && (other != key ==> Get(reg, s1, other) == Get(reg, s, other))
  {
    if IsFlat(reg, key) {
      FlatWrite(reg, s, FlatIndex(reg, key), v, other);
    } else {
      InstantiateInv(reg, s, key);
      InstantiateGet(reg, s, key, other);
      var s1 := s.(panels := Instantiate(s.panels, key));
      if PlaceFor(s.panels, key).Slot? {
        var i := PlaceFor(s.panels, key).i;
        assert PanelOk(s1.panels[i]);
        PanelWrite(reg, s1, i, v, other);
      }
    }
  }

  lemma FlatWrite(reg: seq<KeyDef>, s: Store, i: nat, v: string, other: string)
    requires ValidRegistry(reg) && Inv(reg, s) && i < |reg|
    ensures var s1 := s.(values := s.values[i := v]);
      Get(reg, s1, reg[i].name) == Some(v) && (other != reg[i].name ==> Get(reg, s1, other) == Get(reg, s, other))
  {
  }

  lemma {:induction false} SameNames(a: seq<Panel>, b: seq<Panel>, key: string)
    requires |a| == |b| && forall i :: 0 <= i < |a| ==> a[i].name == b[i].name
    ensures PanelIndex(a, key) == PanelIndex(b, key)
  {
  }

  lemma PanelWrite(reg: seq<KeyDef>, s: Store, i: nat, v: string, other: string)
    requires ValidRegistry(reg) && Inv(reg, s) && i < |s.panels| && !IsFlat(reg, s.panels[i].name)
    ensures var s1 := WritePanel(s, i, v);
      && Get(reg, s1, s.panels[i].name) == Some(v)
      && (other != s.panels[i].name ==> Get(reg, s1, other) == Get(reg, s, other))
  {
    var s1 := WritePanel(s, i, v);
    PanelIndexIs(s.panels, s.panels[i].name, i);
    SameNames(s.panels, s1.panels, s.panels[i].name);
    SameNames(s.panels, s1.panels, other);
  }

  lemma InstantiateGet(reg: seq<KeyDef>, s: Store, key: string, other: string)
    requires Inv(reg, s)
    ensures other != key ==> Get(reg, s.(panels := Instantiate(s.panels, key)), other) == Get(reg, s, other)
  {
    if other != key {
      PanelIndexPush(s.panels, Panel(key, KindOf(key), ""), other);
    }
  }

  lemma {:induction false} PanelIndexPush(panels: seq<Panel>, p: Panel, other: string)
    requires p.name != other
    ensures PanelIndex(panels + [p], other) ==
      if PanelIndex(panels, other) == |panels| then |panels| + 1 else PanelIndex(panels, other)
  {
    if panels != [] && panels[0].name != other {
      assert (panels + [p])[1..] == panels[1..] + [p];
      PanelIndexPush(panels[1..], p, other);
    }
  }

  // ---- the path of a request ----------------------------------------------

  /** Where no index is mistaken, a request does what the baked path does. */
  lemma PathsAgree(reg: seq<KeyDef>, s: Store, key: string, v: string, baked: Option<seq<Line>>)
    requires ValidRegistry(reg) && Inv(reg, s) && key !in META && !Misrouted(reg, s, key)
    ensures var (s1, answer) := Set(reg, s, key, v, baked);
      Apply(reg, s, key, v) == (s1, answer == Done)
  {
    InstantiateInv(reg, s, key);
    if !IsFlat(reg, key) && PanelIndex(s.panels, key) < |s.panels| {
      InstantiatedPlace(reg, s, key);
    }
  }

  /** Where a flat key's index is below the number of panel keys, the value goes to that panel key
      or nowhere: the flat key keeps its value. */
  lemma MisroutedExact(reg: seq<KeyDef>, s: Store, key: string, v: string, other: string, baked: Option<seq<Line>>)
    requires ValidRegistry(reg) && Inv(reg, s) && key !in META && Misrouted(reg, s, key)
    ensures var (s1, answer) := Set(reg, s, key, v, baked);
      var victim := s.panels[FlatIndex(reg, key)];
      && (answer == Done <==> ValueOk(victim.kind, v))
      && (answer == Done ==> Get(reg, s1, victim.name) == Some(v))
      && (other != victim.name ==> Get(reg, s1, other) == Get(reg, s, other))
      && victim.name != key
  {
    var i := FlatIndex(reg, key);
    NotFlat(reg, s, i);
    PanelWrite(reg, s, i, v, other);
  }

  lemma NotFlat(reg: seq<KeyDef>, s: Store, i: nat)
    requires ValidRegistry(reg) && Inv(reg, s) && i < |s.panels|
    ensures !IsFlat(reg, s.panels[i].name)
  {
    assert PanelOk(s.panels[i]);
  }

  /** A request changes what its key holds into the value asked for exactly when the key has a
      place, the value is valid for it, and the key is not flat with an index below the number of
      panel keys; or when the empty value is refused to a panel key that then exists without one. */
  lemma SetExact(reg: seq<KeyDef>, s: Store, key: string, v: string, baked: Option<seq<Line>>)
    requires ValidRegistry(reg) && Inv(reg, s) && key !in META && Get(reg, s, key) != Some(v)
    ensures var s1 := Set(reg, s, key, v, baked).0;
      && |s1.values| == |reg|
      && (Get(reg, s1, key) == Some(v)
          <==> (Placeable(reg, s, key) && ValueOk(KindFor(reg, key), v) && !Misrouted(reg, s, key))
               || (v == "" && NewPanel(reg, s, key)))
  {
    SetInv(reg, s, key, v, baked);
    if Misrouted(reg, s, key) {
      MisroutedExact(reg, s, key, v, key, baked);
      NoNewPanel(reg, s, key);
    } else {
      PathsAgree(reg, s, key, v, baked);
      ApplyExact(reg, s, key, v, key);
      ApplyRefused(reg, s, key, v);
    }
  }

  lemma NoNewPanel(reg: seq<KeyDef>, s: Store, key: string)
    requires Misrouted(reg, s, key)
    ensures !NewPanel(reg, s, key)
  {
  }

  lemma ApplyRefused(reg: seq<KeyDef>, s: Store, key: string, v: string)
    requires ValidRegistry(reg) && Inv(reg, s)
    ensures var (s1, ok) := Apply(reg, s, key, v);
      !ok ==> Get(reg, s1, key) == if NewPanel(reg, s, key) then Some("") else Get(reg, s, key)
  {
    InstantiateInv(reg, s, key);
    var panels := Instantiate(s.panels, key);
    if NewPanel(reg, s, key) {
      assert panels[|s.panels|].name == key;
      PanelIndexIs(panels, key, |s.panels|);
    }
  }

  ghost predicate NewPanel(reg: seq<KeyDef>, s: Store, key: string) {
    !IsFlat(reg, key) && PlaceFor(s.panels, key) == Slot(|s.panels|)
  }

  /** A request that is not carried out leaves the store alone, except that a first write of a panel
      key with an invalid value leaves behind an entry without a value. */
  lemma RefusedExact(reg: seq<KeyDef>, s: Store, key: string, v: string, baked: Option<seq<Line>>)
    requires ValidRegistry(reg) && Inv(reg, s) && Set(reg, s, key, v, baked).1 != Done
    ensures var s1 := Set(reg, s, key, v, baked).0;
      && (s1 == s <==> !(key !in META && NewPanel(reg, s, key)))
      && (s1 != s ==> s1 == s.(panels := s.panels + [Panel(key, KindOf(key), "")]))
  {
    if PanelIndex(s.panels, key) < |s.panels| {
      InstantiatedPlace(reg, s, key);
    }
  }

  // ---- histories, and what the panel reads --------------------------------

  datatype Write = Write(key: string, value: string, baked: Option<seq<Line>>)

  ghost function After(reg: seq<KeyDef>, writes: seq<Write>): (s: Store)
    ensures |s.values| == |reg|
  {
    if writes == [] then Fresh(reg)
    else
      var w := writes[|writes| - 1];
      SetSize(reg, After(reg, writes[..|writes| - 1]), w);
      Set(reg, After(reg, writes[..|writes| - 1]), w.key, w.value, w.baked).0
  }

  lemma SetSize(reg: seq<KeyDef>, s: Store, w: Write)
    requires |s.values| == |reg|
    ensures |Set(reg, s, w.key, w.value, w.baked).0.values| == |reg|
  {
  }

  lemma {:induction false} AfterInv(reg: seq<KeyDef>, writes: seq<Write>)
    requires ValidRegistry(reg)
    ensures Inv(reg, After(reg, writes))
    decreases |writes|
  {
    if writes != [] {
      var before, w := writes[..|writes| - 1], writes[|writes| - 1];
      AfterInv(reg, before);
      SetInv(reg, After(reg, before), w.key, w.value, w.baked);
    }
  }

  lemma KindExact(key: string, id: string, t: nat)
    requires ValidId(id) && t < TEMPLATES && key == PREFIX + id + Suffix(t)
    ensures KindOf(key) == TemplateKind(t)
  {
    assert key[|key| - |Suffix(t)|..] == Suffix(t);
    if EndsIn(key, Suffix(0)) {
      OneTemplate(key, 0, t);
    }
    if EndsIn(key, Suffix(1)) {
      OneTemplate(key, 1, t);
    }
  }

  /** After any history of requests, every panel entry is one the panel takes apart, and a height
      that has been written is read by the panel as the number it denotes, within the range; the
      other entries read as no height. */
  lemma PanelReads(reg: seq<KeyDef>, writes: seq<Write>, i: nat)
    requires ValidRegistry(reg) && i < |After(reg, writes).panels|
    ensures var p := After(reg, writes).panels[i];
      && (exists parts :: IsSplit(p.name, parts))
      && forall id :: IsSplit(p.name, Parts(id, "height")) ==>
        if p.value == "" then Height(p.value) == 0
        else AllDigits(p.value) && Height(p.value) == Value(p.value) && 16 <= Height(p.value) <= 128
  {
    AfterInv(reg, writes);
    PanelRead(After(reg, writes).panels[i]);
  }

  lemma PanelRead(p: Panel)
    requires PanelOk(p)
    ensures exists parts :: IsSplit(p.name, parts)
    ensures forall id :: IsSplit(p.name, Parts(id, "height")) ==>
      if p.value == "" then Height(p.value) == 0
      else AllDigits(p.value) && Height(p.value) == Value(p.value) && 16 <= Height(p.value) <= 128
  {
    var name :| IsPanelKey(p.name, name);
    SidesAgree(p.name, name);
    forall id | IsSplit(p.name, Parts(id, "height")) ensures p.kind == UintRange(16, 128) {
      HeightKind(p.name, name, id);
    }
    HeightAgrees(p.value, 16, 128);
  }

  lemma HeightKind(key: string, name: string, id: string)
    requires IsPanelKey(key, name) && IsSplit(key, Parts(id, "height"))
    ensures KindOf(key) == UintRange(16, 128)
  {
    var t :| 0 <= t < TEMPLATES && key == PREFIX + name + Suffix(t);
    KeySpelling(PREFIX, name, Property(t));
    assert IsSplit(key, Parts(name, Property(t)));
    SplitUnique(key, Parts(name, Property(t)), Parts(id, "height"));
    KindExact(key, name, t);
  }
}
