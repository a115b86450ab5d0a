// The registry of the configuration daemon, and a reachable store in which one of its keys cannot be
// set.

module ConfigRegistry {
  import opened Wrappers
  import opened KillMarkers
  import opened ConfigValues
  import opened PanelKeys
  import opened ConfigStore
  import opened ConfigDaemon
  import opened ConfigTheorems

  const POSITIONS: seq<string> := ["top", "bottom", "left", "right"]
  const WIDGETS: seq<string> := ["clock", "launcher", "tasklist"]
  const IMAGE: string := "/system/background/default.png"
  const BINDINGS: string := "launcher\tSuper\nfocus_next\tAlt-Tab\ndismiss\tEscape"
  const MAX_UNSIGNED: nat := 0xffff_ffff

  /** `accepted` is what the grammar of shortcuts accepts. */
  function Registry(accepted: set<string>): seq<KeyDef> {
    [ KeyDef("background.color", HexColor, "#1e1e2e"),
      KeyDef("background.image", Allowlist([IMAGE]), IMAGE),
      KeyDef("bake.applied", Enum(["yes", "no"]), "no"),
      KeyDef("bake.profile", Text, "none"),
      KeyDef("bake.version", UintRange(0, MAX_UNSIGNED), "0"),
      KeyDef("clock.format", FormatString, "HH:mm"),
      KeyDef("leitzentrale.enabled", Enum(["true", "false"]), "false"),
      KeyDef("launcher.sort_by", Enum(["manual", "alpha"]), "alpha"),
      KeyDef("panel.height", UintRange(16, 128), "28"),
      KeyDef("panel.ids", CommaList, ""),
      KeyDef("panel.position", Enum(POSITIONS), "bottom"),
      KeyDef("panel.visible_widgets", EnumList(WIDGETS), "clock,launcher"),
      KeyDef("shortcuts.bindings", Bindings(accepted), BINDINGS),
      KeyDef("theme.active", Text, "light") ]
  }

  /** A panel key starts with the prefix and has a further dot behind it. */
  lemma TwoDots(key: string, id: string)
    requires IsPanelKey(key, id)
    ensures |key| > |PREFIX| && key[0] == 'p' && '.' in key[|PREFIX|..]
  {
    var t :| 0 <= t < TEMPLATES && key == PREFIX + id + Suffix(t);
    var suffix := Suffix(t);
    assert key == PREFIX + (id + suffix);
    assert key[|PREFIX|..] == id + suffix && (id + suffix)[|id|] == suffix[0] == '.';
  }

  lemma OneDot(key: string, id: string)
    requires |key| <= |PREFIX| || key[0] != 'p' || '.' !in key[|PREFIX|..]
    ensures !IsPanelKey(key, id)
  {
    if IsPanelKey(key, id) {
      TwoDots(key, id);
    }
  }

  predicate Plain(key: string) {
    |key| <= |PREFIX| || key[0] != 'p' || '.' !in key[|PREFIX|..]
  }

  lemma NamesPlain(accepted: set<string>)
    ensures forall i :: 0 <= i < |Registry(accepted)| ==> Plain(Registry(accepted)[i].name)
  {
    var reg := Registry(accepted);
    forall i | 0 <= i < |reg| ensures Plain(reg[i].name) {
      if 8 <= i < 12 {
        PanelNamesPlain();
      } else {
        assert reg[i].name[0] != 'p';
      }
    }
  }

  lemma PanelNamesPlain()
    ensures Plain("panel.height") && Plain("panel.ids") && Plain("panel.position") && Plain("panel.visible_widgets")
  {
  }

  lemma NamesDistinct(accepted: set<string>)
    ensures var reg := Registry(accepted); forall i, j :: 0 <= i < j < |reg| ==> reg[i].name != reg[j].name
  {
  }

  /** The fourteen keys make a valid registry: all that is proved of registries holds of this one. */
  lemma RegistryValid(accepted: set<string>)
    ensures ValidRegistry(Registry(accepted))
  {
    var reg := Registry(accepted);
    NamesPlain(accepted);
    NamesDistinct(accepted);
    assert forall i :: 0 <= i < |reg| ==> Proper(reg[i].kind);
    forall i, id | 0 <= i < |reg| ensures !IsPanelKey(reg[i].name, id) {
      OneDot(reg[i].name, id);
    }
  }

  // ---- a reachable store --------------------------------------------------

  /** The first write of a panel key, from the initial store. */
  lemma FirstPanel(reg: seq<KeyDef>, key: string, id: string, v: string)
    requires ValidRegistry(reg) && IsPanelKey(key, id) && key !in META && ValueOk(KindOf(key), v)
    ensures After(reg, [Write(key, v, None)]) == Store(Fresh(reg).values, [Panel(key, KindOf(key), v)])
  {
    var writes := [Write(key, v, None)];
    assert writes[..0] == [];
    PanelShaped(key, id);
    assert HasPanel(key) && PlaceFor([], key) == Slot(0);
  }

  lemma HeightKey(key: string)
    requires key == "panel.a.height"
    ensures IsPanelKey(key, "a") && KindOf(key) == UintRange(16, 128) && key !in META
  {
    assert ValidId("a");
    assert key == PREFIX + "a" + Suffix(0);
    KindExact(key, "a", 0);
  }

  lemma TwentyEight()
    ensures ValueOk(UintRange(16, 128), "28")
  {
    var v := "28";
    assert v[..1] == "2" && v[..1][..0] == "";
    assert Value("2") == 2 && Value(v) == 10 * Value(v[..1]) + 8;
  }

  /** One panel height, set once, makes the background colour unsettable: a valid colour is checked
      against the panel's height, and refused. */
  lemma ColourRefused(accepted: set<string>, v: string)
    requires Color(v)
    ensures var reg := Registry(accepted);
      var s := After(reg, [Write("panel.a.height", "28", None)]);
      ValueOk(reg[0].kind, v) && Set(reg, s, "background.color", v, None) == (s, BadValue)
  {
    var reg, key := Registry(accepted), "panel.a.height";
    var s := After(reg, [Write(key, "28", None)]);
    RegistryValid(accepted);
    HeightKey(key);
    TwentyEight();
    FirstPanel(reg, key, "a", "28");
    assert FlatIndex(reg, "background.color") == 0;
    assert v[0] in v && !IsDigit(v[0]);
    assert s.panels == [Panel(key, UintRange(16, 128), "28")];
    assert Set(reg, s, "background.color", v, None) == WriteAt(reg, s, 0, v);
  }
}
