// The configuration daemon: its tables and its methods, each proved equal to its specification,
// and what requests do to the store.

module ConfigDaemon {
  import opened Wrappers
  import opened PanelKeys
  import opened ConfigStore

  const MAX_TEXT: nat := 128

  class Main {
    const reg: seq<KeyDef>
    var values: seq<string>
    var panels: seq<Panel>

    ghost predicate Valid()
      reads this
    {
      ValidRegistry(reg) && Inv(reg, View())
    }

    ghost function View(): Store
      reads this
    {
      Store(values, panels)
    }

    constructor (reg: seq<KeyDef>)
      requires ValidRegistry(reg)
      ensures Valid() && this.reg == reg && View() == Fresh(reg)
    {
      this.reg := reg;
      values := seq(|reg|, i requires 0 <= i < |reg| => reg[i].initial);
      panels := [];
    }

    method FindKey(key: string) returns (i: nat)
      ensures i == FlatIndex(reg, key)
    {
      i := 0;
      while i < |reg|
        invariant i <= |reg| && FlatIndex(reg, key) == i + FlatIndex(reg[i..], key)
      {
        if reg[i].name == key {
          return;
        }
        assert reg[i..][1..] == reg[i + 1..];
        i := i + 1;
      }
    }

    method FindInstantiated(key: string) returns (i: nat)
      ensures i == PanelIndex(panels, key)
    {
      i := 0;
      while i < |panels|
        invariant i <= |panels| && PanelIndex(panels, key) == i + PanelIndex(panels[i..], key)
      {
        if panels[i].name == key {
          return;
        }
        assert panels[i..][1..] == panels[i + 1..];
        i := i + 1;
      }
    }

    method FindTemplate(key: string) returns (kind: Kind)
      ensures kind == KindOf(key)
    {
      var t := 0;
      while t < TEMPLATES - 1 && !EndsIn(key, Suffix(t))
        invariant t < TEMPLATES && forall s :: 0 <= s < t ==> !EndsIn(key, Suffix(s))
      {
        t := t + 1;
      }
      return TemplateKind(t);
    }

    method InstantiatePattern(key: string) returns (place: Place)
      requires |key| < MAX_TEXT && |panels| <= MAX_PATTERN_KEYS
      modifies this`panels
      ensures place == PlaceFor(old(panels), key) && panels == Instantiate(old(panels), key)
    {
      var shaped := PatternShapeMatch(key);
      if !shaped {
        return UnknownKey;
      }
      var id := PatternExtractId(key);
      assert id.Some? <==> HasPanel(key);
      if id.None? {
        return BadId;
      }
      var i := FindInstantiated(key);
      if i < |panels| {
        return Slot(i);
      }
      if |panels| >= MAX_PATTERN_KEYS {
        return TableFull;
      }
      var kind := FindTemplate(key);
      panels := panels + [Panel(key, kind, "")];
      return Slot(i);
    }

    method ApplyValidatedValue(key: string, v: string) returns (ok: bool)
      requires Valid() && |key| < MAX_TEXT
      modifies this
      ensures Valid() && (View(), ok) == Apply(reg, old(View()), key, v)
    {
      ghost var was := View();
      ApplyInv(reg, was, key, v);
      var i := FindKey(key);
      if i < |reg| {
        ok := ValueValid(reg[i].kind, v);
        if ok {
          values := values[i := v];
        }
        return;
      }
      InstantiateInv(reg, was, key);
      var place := InstantiatePattern(key);
      if place.Slot? {
        ok := ValueValid(panels[place.i].kind, v);
        if ok {
          panels := panels[place.i := panels[place.i].(value := v)];
        }
        return;
      }
      return false;
    }

    method ApplyDefaults(lines: seq<Line>)
      requires Valid() && forall i :: 0 <= i < |lines| ==> |lines[i].key| < MAX_TEXT
      modifies this
      ensures Valid() && View() == ApplyAll(reg, old(View()), lines)
    {
      ghost var was := View();
      for i := 0 to |lines|
        invariant Valid() && View() == ApplyAll(reg, was, lines[..i])
      {
        assert lines[..i + 1][..i] == lines[..i];
        var applied := ApplyValidatedValue(lines[i].key, lines[i].value);
      }
      assert lines[..|lines|] == lines;
    }

    method DoGet(key: string) returns (value: Option<string>)
      requires Valid()
      ensures value == Get(reg, View(), key)
    {
      var i := FindKey(key);
      if i < |reg| {
        return Some(values[i]);
      }
      var j := FindInstantiated(key);
      return if j < |panels| then Some(panels[j].value) else None;
    }

    /** An index below the number of panel keys is taken for one of theirs. */
    method WriteValue(idx: nat, v: string) returns (answer: Answer)
      requires Valid() && (idx < |panels| || idx < |reg|)
      modifies this
      ensures (View(), answer) == WriteAt(reg, old(View()), idx, v)
    {
      var kind := if idx < |panels| then panels[idx].kind else reg[idx].kind;
      var ok := ValueValid(kind, v);
      if !ok {
        return BadValue;
      }
      if idx < |panels| {
        panels := panels[idx := panels[idx].(value := v)];
      } else {
        values := values[idx := v];
      }
      return Done;
    }

    method DoSet(key: string, v: string, baked: Option<seq<Line>>) returns (answer: Answer)
      requires Valid() && |key| < MAX_TEXT
      requires baked.Some? ==> forall i :: 0 <= i < |baked.value| ==> |baked.value[i].key| < MAX_TEXT
      modifies this
      ensures Valid() && (View(), answer) == Set(reg, old(View()), key, v, baked)
    {
      ghost var was := View();
      SetInv(reg, was, key, v, baked);
      if key == META[0] && v == "no" {
        if baked.None? {
          return NoDefaults;
        }
        ApplyDefaults(baked.value);
        return Done;
      }
      if key == META[0] || key == META[1] || key == META[2] {
        return ReadOnly;
      }
      var idx := FindKey(key);
      if idx == |reg| {
        idx := FindInstantiated(key);
        if idx == |panels| {
          InstantiateInv(reg, was, key);
          var place := InstantiatePattern(key);
          if !place.Slot? {
            return Refused(place);
          }
          idx := place.i;
        }
      }
      answer := WriteValue(idx, v);
    }
  }

  // ---- the invariant ------------------------------------------------------

  function Fresh(reg: seq<KeyDef>): Store {
    Store(seq(|reg|, i requires 0 <= i < |reg| => reg[i].initial), [])
  }

  /** A panel entry: of a panel key, of its template's kind, without a value or with a valid one. */
  ghost predicate PanelOk(p: Panel) {
    HasPanel(p.name) && p.kind == KindOf(p.name) && (p.value == "" || ValueOk(p.kind, p.value))
  }

  ghost predicate Inv(reg: seq<KeyDef>, s: Store) {
    && |s.values| == |reg| && |s.panels| <= MAX_PATTERN_KEYS
    && (forall i :: 0 <= i < |reg| ==> s.values[i] == reg[i].initial || ValueOk(reg[i].kind, s.values[i]))
    && (forall i :: 0 <= i < |s.panels| ==> PanelOk(s.panels[i]))
    && (forall i, j :: 0 <= i < j < |s.panels| ==> s.panels[i].name != s.panels[j].name)
  }

  lemma InstantiateInv(reg: seq<KeyDef>, s: Store, key: string)
    requires Inv(reg, s)
    ensures Inv(reg, s.(panels := Instantiate(s.panels, key)))
    ensures var place := PlaceFor(s.panels, key); place.Slot? ==>
      place.i < |Instantiate(s.panels, key)| && Instantiate(s.panels, key)[place.i].name == key
    ensures forall i :: 0 <= i < |Instantiate(s.panels, key)| ==> Proper(Instantiate(s.panels, key)[i].kind)
  {
  }

  lemma WriteInv(reg: seq<KeyDef>, s: Store, i: nat, v: string)
    requires Inv(reg, s) && (i < |s.panels| || i < |reg|)
    ensures Inv(reg, WriteAt(reg, s, i, v).0)
  {
  }

  lemma ApplyInv(reg: seq<KeyDef>, s: Store, key: string, v: string)
    requires Inv(reg, s)
    ensures Inv(reg, Apply(reg, s, key, v).0)
  {
    InstantiateInv(reg, s, key);
  }

  lemma {:induction false} ApplyAllInv(reg: seq<KeyDef>, s: Store, lines: seq<Line>)
    requires Inv(reg, s)
    ensures Inv(reg, ApplyAll(reg, s, lines))
    decreases |lines|
  {
    if lines != [] {
      var init, last := lines[..|lines| - 1], lines[|lines| - 1];
      ApplyAllInv(reg, s, init);
      ApplyInv(reg, ApplyAll(reg, s, init), last.key, last.value);
    }
  }

  /** Every request keeps the store well-formed: each value is its key's initial one or valid for
      its key, and each panel entry is that of a panel key, in the template's kind, once. */
  lemma SetInv(reg: seq<KeyDef>, s: Store, key: string, v: string, baked: Option<seq<Line>>)
    requires Inv(reg, s)
    ensures Inv(reg, Set(reg, s, key, v, baked).0)
  {
    if key == META[0] && v == "no" {
      if baked.Some? {
        ApplyAllInv(reg, s, baked.value);
      }
    } else if key !in META {
      InstantiateInv(reg, s, key);
      if FlatIndex(reg, key) < |reg| {
        WriteInv(reg, s, FlatIndex(reg, key), v);
      } else if PanelIndex(s.panels, key) < |s.panels| {
        WriteInv(reg, s, PanelIndex(s.panels, key), v);
      } else if PlaceFor(s.panels, key).Slot? {
        WriteInv(reg, s.(panels := Instantiate(s.panels, key)), PlaceFor(s.panels, key).i, v);
      }
    }
  }
}
