// The configuration store: flat keys, panel keys that come into being on first write, and the two
// ways a value is written.

module ConfigStore {
  import opened Wrappers
  import opened KillMarkers
  import opened ConfigValues
  import opened PanelKeys

  /** `Bindings` stands for the line grammar of shortcuts, as the set of values it accepts. */
  datatype Kind =
    | Text
    | Enum(values: seq<string>)
    | UintRange(lo: nat, hi: nat)
    | EnumList(values: seq<string>)
    | CommaList
    | FormatString
    | HexColor
    | Allowlist(paths: seq<string>)
    | Bindings(accepted: set<string>)

  datatype KeyDef = KeyDef(name: string, kind: Kind, initial: string)

  /** An instantiated panel key. */
  datatype Panel = Panel(name: string, kind: Kind, value: string)

  datatype Store = Store(values: seq<string>, panels: seq<Panel>)

  const MAX_PATTERN_KEYS: nat := 32

  predicate Proper(kind: Kind) {
    kind.UintRange? ==> kind.lo < U32 && kind.hi < U32
  }

  /** The registry: distinct names, none of them a panel key. */
  ghost predicate ValidRegistry(reg: seq<KeyDef>) {
    && (forall i, j :: 0 <= i < j < |reg| ==> reg[i].name != reg[j].name)
    && (forall i :: 0 <= i < |reg| ==> Proper(reg[i].kind) && forall id :: !IsPanelKey(reg[i].name, id))
  }

  // ---- values -------------------------------------------------------------

  predicate Printable(v: string) {
    |v| <= 64 && forall i :: 0 <= i < |v| ==> ' ' <= v[i] <= '~'
  }

  predicate HexDigit(c: char) {
    ('0' <= c <= '9') || ('a' <= c <= 'f') || ('A' <= c <= 'F')
  }

  predicate Color(v: string) {
    |v| == 7 && v[0] == '#' && forall i :: 1 <= i < 7 ==> HexDigit(v[i])
  }

  predicate ValueOk(kind: Kind, v: string) {
    && v != ""
    && match kind
       case Text => true
       case Enum(values) => v in values
       case UintRange(lo, hi) => InRange(v, lo, hi)
       case EnumList(values) => ListOk(Names(values), v)
       case CommaList => ListOk(Ids, v)
       case FormatString => Printable(v)
       case HexColor => Color(v)
       case Allowlist(paths) => v in paths
       case Bindings(accepted) => v in accepted
  }

  method OneOf(v: string, values: seq<string>) returns (ok: bool)
    ensures ok <==> v in values
  {
    for i := 0 to |values|
      invariant v !in values[..i]
    {
      if values[i] == v {
        return true;
      }
    }
    assert values[..|values|] == values;
    return false;
  }

  method IsPrintable(v: string) returns (ok: bool)
    ensures ok <==> Printable(v)
  {
    if |v| > 64 {
      return false;
    }
    for i := 0 to |v|
      invariant forall k :: 0 <= k < i ==> ' ' <= v[k] <= '~'
    {
      if v[i] < ' ' || v[i] > '~' {
        return false;
      }
    }
    return true;
  }

  method IsColor(v: string) returns (ok: bool)
    ensures ok <==> Color(v)
  {
    if |v| != 7 || v[0] != '#' {
      return false;
    }
    for i := 1 to 7
      invariant forall k :: 1 <= k < i ==> HexDigit(v[k])
    {
      if !HexDigit(v[i]) {
        return false;
      }
    }
    return true;
  }

  method ValueValid(kind: Kind, v: string) returns (ok: bool)
    requires Proper(kind)
    ensures ok <==> ValueOk(kind, v)
  {
    if v == "" {
      return false;
    }
    match kind {
      case Text => ok := true;
      case Enum(values) => ok := OneOf(v, values);
      case UintRange(lo, hi) => ok := UintInRange(v, lo, hi);
      case EnumList(values) => ok := ListValid(Names(values), v);
      case CommaList => ok := ListValid(Ids, v);
      case FormatString => ok := IsPrintable(v);
      case HexColor => ok := IsColor(v);
      case Allowlist(paths) => ok := OneOf(v, paths);
      case Bindings(accepted) => ok := v in accepted;
    }
  }

  // ---- keys ---------------------------------------------------------------

  function FlatIndex(reg: seq<KeyDef>, key: string): (i: nat)
    ensures i <= |reg| && (i < |reg| ==> reg[i].name == key)
    ensures forall j :: 0 <= j < i ==> reg[j].name != key
  {
    if reg == [] || reg[0].name == key then 0 else 1 + FlatIndex(reg[1..], key)
  }

  function PanelIndex(panels: seq<Panel>, key: string): (i: nat)
    ensures i <= |panels| && (i < |panels| ==> panels[i].name == key)
    ensures forall j :: 0 <= j < i ==> panels[j].name != key
  {
    if panels == [] || panels[0].name == key then 0 else 1 + PanelIndex(panels[1..], key)
  }

  function TemplateKind(t: nat): Kind {
    if t == 0 then UintRange(16, 128)
    else if t == 1 then Enum(["top", "bottom", "left", "right"])
    else EnumList(["clock", "launcher", "tasklist"])
  }

  /** The first template whose suffix ends the key. */
  function KindOf(key: string): Kind {
    TemplateKind(if EndsIn(key, Suffix(0)) then 0 else if EndsIn(key, Suffix(1)) then 1 else 2)
  }

  ghost predicate HasPanel(key: string) {
    exists id :: IsPanelKey(key, id)
  }

  predicate Shaped(key: string) {
    exists t :: 0 <= t < TEMPLATES && Fits(key, PREFIX, Suffix(t))
  }

  datatype Place = Slot(i: nat) | UnknownKey | BadId | TableFull

  ghost function PlaceFor(panels: seq<Panel>, key: string): Place {
    if !Shaped(key) then UnknownKey
    else if !HasPanel(key) then BadId
    else if PanelIndex(panels, key) < |panels| then Slot(PanelIndex(panels, key))
    else if |panels| >= MAX_PATTERN_KEYS then TableFull
    else Slot(|panels|)
  }

  /** A panel key gets its slot, with no value yet, before its value is looked at. */
  ghost function Instantiate(panels: seq<Panel>, key: string): seq<Panel> {
    if PlaceFor(panels, key) == Slot(|panels|) then panels + [Panel(key, KindOf(key), "")] else panels
  }

  function Get(reg: seq<KeyDef>, s: Store, key: string): Option<string>
    requires |s.values| == |reg|
  {
    if FlatIndex(reg, key) < |reg| then Some(s.values[FlatIndex(reg, key)])
    else if PanelIndex(s.panels, key) < |s.panels| then Some(s.panels[PanelIndex(s.panels, key)].value)
    else None
  }

  // ---- writing ------------------------------------------------------------

  function WritePanel(s: Store, i: nat, v: string): Store
    requires i < |s.panels|
  {
    s.(panels := s.panels[i := s.panels[i].(value := v)])
  }

  /** The path of the baked defaults. */
  ghost function Apply(reg: seq<KeyDef>, s: Store, key: string, v: string): (Store, bool)
    requires |s.values| == |reg|
  {
    var i := FlatIndex(reg, key);
    if i < |reg| then
      if ValueOk(reg[i].kind, v) then (s.(values := s.values[i := v]), true) else (s, false)
    else
      var s1 := s.(panels := Instantiate(s.panels, key));
      match PlaceFor(s.panels, key)
      case Slot(j) => if ValueOk(s1.panels[j].kind, v) then (WritePanel(s1, j, v), true) else (s1, false)
      case _ => (s1, false)
  }

  datatype Line = Line(key: string, value: string)

  ghost function ApplyAll(reg: seq<KeyDef>, s: Store, lines: seq<Line>): Store
    requires |s.values| == |reg|
    ensures |ApplyAll(reg, s, lines).values| == |reg|
  {
    if lines == [] then s
    else
      var last := lines[|lines| - 1];
      Apply(reg, ApplyAll(reg, s, lines[..|lines| - 1]), last.key, last.value).0
  }

  datatype Answer = Done | Refused(place: Place) | BadValue | ReadOnly | NoDefaults

  const META: seq<string> := ["bake.applied", "bake.profile", "bake.version"]

  /** What a resolved index means: a panel key when it is below their number, whatever it was the
      index of. */
  ghost function WriteAt(reg: seq<KeyDef>, s: Store, i: nat, v: string): (Store, Answer)
    requires |s.values| == |reg| && (i < |s.panels| || i < |reg|)
  {
    if i < |s.panels| then
      if ValueOk(s.panels[i].kind, v) then (WritePanel(s, i, v), Done) else (s, BadValue)
    else
      if ValueOk(reg[i].kind, v) then (s.(values := s.values[i := v]), Done) else (s, BadValue)
  }

  /** The path of a user's request; `baked` are the lines of the baked defaults when available. */
  ghost function Set(reg: seq<KeyDef>, s: Store, key: string, v: string, baked: Option<seq<Line>>): (Store, Answer)
    requires |s.values| == |reg|
  {
    if key == META[0] && v == "no" then
      match baked
      case None => (s, NoDefaults)
      case Some(lines) => (ApplyAll(reg, s, lines), Done)
    else if key in META then (s, ReadOnly)
    else if FlatIndex(reg, key) < |reg| then WriteAt(reg, s, FlatIndex(reg, key), v)
    else if PanelIndex(s.panels, key) < |s.panels| then WriteAt(reg, s, PanelIndex(s.panels, key), v)
    else
      var s1 := s.(panels := Instantiate(s.panels, key));
      match PlaceFor(s.panels, key)
      case Slot(i) => WriteAt(reg, s1, i, v)
      case place => (s1, Refused(place))
  }
}
