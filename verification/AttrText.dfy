// Scalar attributes: one lookup for two spellings of the same list.

module AttrText {
  import opened Wrappers
  import opened TextScan
  import opened KillMarkers

  /** One attribute as it stands in a text: what comes before it, its name, the separator, blanks,
      and the value with or without quotes. */
  datatype Item = Item(lead: string, name: string, sep: char, blanks: string, quoted: bool, value: string)

  predicate IsSep(c: char) {
    c == '=' || c == ':'
  }

  /** A character of a name proper; the colon is a separator as well. */
  predicate KeyChar(c: char) {
    IsNameChar(c) && c != ':'
  }

  predicate AllKey(s: string) {
    forall k :: 0 <= k < |s| ==> KeyChar(s[k])
  }

  predicate AllBlank(s: string) {
    forall k :: 0 <= k < |s| ==> s[k] == ' '
  }

  /** Bare values are not empty and end at the first character that ends a bare value. */
  predicate GoodValue(it: Item) {
    if it.quoted then forall k :: 0 <= k < |it.value| ==> it.value[k] != '"'
    else it.value != "" && forall k :: 0 <= k < |it.value| ==> !EndsBareValue(it.value[k])
  }

  /** What stands before a name ends a bare value and is itself no part of a name. */
  predicate GoodLead(lead: string) {
    lead != "" && EndsBareValue(lead[0]) && !IsNameChar(lead[|lead| - 1])
  }

  predicate GoodItem(it: Item) {
    GoodLead(it.lead) && it.name != "" && AllKey(it.name) && IsSep(it.sep) && AllBlank(it.blanks) && GoodValue(it)
  }

  predicate GoodTail(tail: string) {
    tail != "" ==> EndsBareValue(tail[0])
  }

  predicate IsKey(key: string) {
    key != "" && AllKey(key)
  }

  function Quote(quoted: bool): string {
    if quoted then "\"" else ""
  }

  function PrintValue(it: Item): string {
    Quote(it.quoted) + it.value + Quote(it.quoted)
  }

  function PrintItem(it: Item): string {
    it.lead + it.name + [it.sep] + it.blanks + PrintValue(it)
  }

  function PrintItems(items: seq<Item>): string {
    if items == [] then "" else PrintItem(items[0]) + PrintItems(items[1..])
  }

  /** The value of the first attribute of the name. */
  function Lookup(items: seq<Item>, key: string): Option<string> {
    if items == [] then None
    else if items[0].name == key then Some(items[0].value)
    else Lookup(items[1..], key)
  }

  // ---- where the key is found ---------------------------------------------

  /** The first place at which the scan takes the key for an attribute. */
  function AttrPlace(cfg: string, i: nat, key: string): Option<nat>
    decreases |cfg| - i
  {
    if i + |key| >= |cfg| then None else if IsAttr(cfg, i, key) then Some(i) else AttrPlace(cfg, i + 1, key)
  }

  predicate Calm(cfg: string, i: nat, j: nat, key: string) {
    forall k :: i <= k < j ==> !IsAttr(cfg, k, key)
  }

  lemma {:induction false} PlaceMeaning(cfg: string, i: nat, key: string)
    ensures match AttrPlace(cfg, i, key)
      case None => Calm(cfg, i, |cfg|, key)
      case Some(k) => i <= k < |cfg| && IsAttr(cfg, k, key) && Calm(cfg, i, k, key)
    decreases |cfg| - i
  {
    if i + |key| < |cfg| && !IsAttr(cfg, i, key) {
      PlaceMeaning(cfg, i + 1, key);
    }
  }

  lemma PlaceIs(cfg: string, key: string, place: Option<nat>)
    requires place.Some? ==> place.value <= |cfg| && IsAttr(cfg, place.value, key)
    ensures AttrPlace(cfg, 0, key) == place <==> Calm(cfg, 0, if place.Some? then place.value else |cfg|, key)
  {
    PlaceMeaning(cfg, 0, key);
  }

  /** The key stands nowhere in the text before a separator. */
  predicate Quiet(s: string, key: string) {
    Calm(s, 0, |s|, key)
  }

  lemma AtIndex(cfg: string, i: nat, s: string, k: int)
    ensures At(cfg, i, s) && 0 <= k < |s| ==> cfg[i + k] == s[k]
  {
  }

  /** The text ends here, or with a character that is neither part of a name nor a separator. */
  predicate Fenced(cfg: string, e: nat) {
    e <= |cfg| && (e < |cfg| ==> EndsBareValue(cfg[e]))
  }

  /** No key can reach out of the part of the text. */
  predicate Closed(cfg: string, p: nat, s: string) {
    Fenced(cfg, p + |s|) || (s != "" && !IsNameChar(s[|s| - 1]))
  }

  /** A key that would reach out is not found. */
  lemma NotAcross(cfg: string, p: nat, s: string, key: string, i: nat)
    requires IsKey(key) && At(cfg, p, s) && Closed(cfg, p, s) && i < |s| <= i + |key|
    ensures !IsAttr(cfg, p + i, key)
  {
    AtIndex(cfg, p + i, key, |s| - i);
    AtIndex(cfg, p + i, key, |s| - 1 - i);
    AtIndex(cfg, p, s, |s| - 1);
  }

  lemma AtShift(cfg: string, p: nat, s: string, i: nat, key: string)
    requires At(cfg, p, s) && i + |key| <= |s|
    ensures At(cfg, p + i, key) <==> At(s, i, key)
  {
    if At(cfg, p + i, key) {
      forall k | 0 <= k < |key| ensures s[i + k] == key[k] {
        AtIndex(cfg, p, s, i + k);
        AtIndex(cfg, p + i, key, k);
      }
    }
    if At(s, i, key) {
      forall k | 0 <= k < |key| ensures cfg[(p + i) + k] == key[k] {
        AtIndex(cfg, p, s, i + k);
        AtIndex(s, i, key, k);
      }
    }
  }

  /** In a closed part of the text the key is found where it is found in that part alone. */
  lemma Within(cfg: string, p: nat, s: string, key: string, i: nat)
    requires IsKey(key) && At(cfg, p, s) && Closed(cfg, p, s) && i < |s|
    requires i > 0 || p == 0 || !IsNameChar(cfg[p - 1]) || !KeyChar(s[0])
    ensures IsAttr(cfg, p + i, key) <==> IsAttr(s, i, key)
  {
    if i + |key| < |s| {
      AtShift(cfg, p, s, i, key);
      AtIndex(cfg, p, s, i + |key|);
      AtIndex(cfg, p, s, i - 1);
      AtIndex(s, 0, key, 0);
    } else {
      NotAcross(cfg, p, s, key, i);
    }
  }

  lemma PartCalm(cfg: string, p: nat, s: string, key: string)
    requires IsKey(key) && At(cfg, p, s) && Closed(cfg, p, s)
    requires s == "" || p == 0 || !IsNameChar(cfg[p - 1]) || !KeyChar(s[0])
    ensures Calm(cfg, p, p + |s|, key) <==> Quiet(s, key)
  {
    forall i: nat | i < |s| ensures IsAttr(cfg, p + i, key) <==> IsAttr(s, i, key) {
      Within(cfg, p, s, key, i);
    }
    if Quiet(s, key) {
      forall k | p <= k < p + |s| ensures !IsAttr(cfg, k, key) {
        assert !IsAttr(s, k - p, key) && p + (k - p) == k;
      }
    }
  }

  // ---- one attribute ------------------------------------------------------

  /** The places of the parts of an attribute that starts at `p`: name, separator, value, end. */
  datatype Places = Places(name: nat, sep: nat, value: nat, end: nat)

  function PlacesOf(p: nat, it: Item): Places {
    var n := p + |it.lead|;
    var m := n + |it.name|;
    var v := m + 1 + |it.blanks|;
    Places(n, m, v, v + |PrintValue(it)|)
  }

  predicate StandsAt(cfg: string, p: nat, it: Item) {
    var x := PlacesOf(p, it);
    && At(cfg, p, it.lead) && At(cfg, x.name, it.name) && At(cfg, x.sep, [it.sep])
    && At(cfg, x.sep + 1, it.blanks) && At(cfg, x.value, PrintValue(it))
  }

  lemma ItemStands(cfg: string, p: nat, it: Item)
    requires At(cfg, p, PrintItem(it))
    ensures StandsAt(cfg, p, it) && PlacesOf(p, it).end == p + |PrintItem(it)|
  {
    AtConcat(cfg, p, it.lead + it.name + [it.sep] + it.blanks, PrintValue(it));
    AtConcat(cfg, p, it.lead + it.name + [it.sep], it.blanks);
    AtConcat(cfg, p, it.lead + it.name, [it.sep]);
    AtConcat(cfg, p, it.lead, it.name);
  }

  lemma Chars(cfg: string, p: nat, s: string)
    requires At(cfg, p, s)
    ensures p + |s| <= |cfg| && forall k :: p <= k < p + |s| ==> cfg[k] == s[k - p]
  {
    forall k | p <= k < p + |s| ensures cfg[k] == s[k - p] {
      assert cfg[p + (k - p)] == s[k - p];
    }
  }

  /** From its name to its separator, the key is found at the name, if it is the name. */
  lemma OnlyName(cfg: string, p: nat, it: Item, key: string, i: nat)
    requires GoodItem(it) && StandsAt(cfg, p, it) && IsKey(key)
    requires PlacesOf(p, it).name <= i <= PlacesOf(p, it).sep
    ensures IsAttr(cfg, i, key) <==> i == PlacesOf(p, it).name && key == it.name
  {
    var x := PlacesOf(p, it);
    AtIndex(cfg, x.sep, [it.sep], 0);
    if i > x.name {
      AtIndex(cfg, x.name, it.name, i - 1 - x.name);
      NotInside(cfg, i, key);
    } else {
      AtIndex(cfg, p, it.lead, |it.lead| - 1);
      AtName(cfg, x.name, it.name, key);
    }
  }

  lemma NotInside(cfg: string, i: nat, key: string)
    requires 0 < i <= |cfg| && IsNameChar(cfg[i - 1])
    ensures !IsAttr(cfg, i, key)
  {
  }

  lemma AtName(cfg: string, n: nat, name: string, key: string)
    requires AllKey(name) && AllKey(key) && At(cfg, n, name) && n + |name| < |cfg| && IsSep(cfg[n + |name|])
    ensures At(cfg, n, key) && n + |key| < |cfg| && IsSep(cfg[n + |key|]) <==> key == name
  {
    AtIndex(cfg, n, name, |key|);
    AtIndex(cfg, n, key, |name|);
    if At(cfg, n, key) && |key| == |name| {
      forall k | 0 <= k < |key| ensures key[k] == name[k] {
        AtIndex(cfg, n, name, k);
        AtIndex(cfg, n, key, k);
      }
    }
  }

  // ---- its value ----------------------------------------------------------

  lemma {:induction false} BlankRun(cfg: string, j: nat, v: nat)
    requires j <= v < |cfg| && cfg[v] != ' ' && forall k :: j <= k < v ==> cfg[k] == ' '
    ensures SkipBlanks(cfg, j) == v
    decreases v - j
  {
    if j < v {
      BlankRun(cfg, j + 1, v);
    }
  }

  predicate Stops(cfg: string, k: nat, quoted: bool)
    requires k < |cfg|
  {
    if quoted then cfg[k] == '"' else EndsBareValue(cfg[k])
  }

  lemma {:induction false} ValueRun(cfg: string, j: nat, e: nat, quoted: bool)
    requires j <= e <= |cfg| && (forall k :: j <= k < e ==> !Stops(cfg, k, quoted)) && (e < |cfg| ==> Stops(cfg, e, quoted))
    ensures ValueEnd(cfg, j, quoted) == e
    decreases e - j
  {
    if j < e {
      assert !Stops(cfg, j, quoted);
      ValueRun(cfg, j + 1, e, quoted);
    }
  }

  lemma QuotedRead(cfg: string, v: nat, value: string)
    requires At(cfg, v, "\"" + value + "\"") && forall k :: 0 <= k < |value| ==> value[k] != '"'
    ensures v < |cfg| && cfg[v] == '"' && ValueEnd(cfg, v + 1, true) == v + 1 + |value|
    ensures v + 1 + |value| <= |cfg| && cfg[v + 1..v + 1 + |value|] == value
  {
    AtConcat(cfg, v, "\"" + value, "\"");
    AtConcat(cfg, v, "\"", value);
    Chars(cfg, v, "\"");
    Chars(cfg, v + 1, value);
    Chars(cfg, v + 1 + |value|, "\"");
    ValueRun(cfg, v + 1, v + 1 + |value|, true);
  }

  lemma BareRead(cfg: string, v: nat, value: string)
    requires At(cfg, v, value) && value != "" && forall k :: 0 <= k < |value| ==> !EndsBareValue(value[k])
    requires v + |value| < |cfg| ==> EndsBareValue(cfg[v + |value|])
    ensures v < |cfg| && cfg[v] != '"' && cfg[v] != ' ' && ValueEnd(cfg, v, false) == v + |value|
    ensures cfg[v..v + |value|] == value
  {
    Chars(cfg, v, value);
    assert cfg[v] == value[0];
    ValueRun(cfg, v, v + |value|, false);
  }

  lemma ValueRead(cfg: string, j: nat, it: Item)
    requires AllBlank(it.blanks) && GoodValue(it) && At(cfg, j, it.blanks) && At(cfg, j + |it.blanks|, PrintValue(it))
    requires var e := j + |it.blanks| + |PrintValue(it)|; e < |cfg| ==> EndsBareValue(cfg[e])
    ensures j <= |cfg| && ValueFrom(cfg, j) == Some(it.value)
  {
    var v := j + |it.blanks|;
    if it.quoted {
      QuotedRead(cfg, v, it.value);
    } else {
      assert PrintValue(it) == it.value;
      BareRead(cfg, v, it.value);
    }
    assert SkipBlanks(cfg, j) == v by {
      Chars(cfg, j, it.blanks);
      BlankRun(cfg, j, v);
    }
  }

  /** Right after a colon, which could be part of a name. */
  predicate Tight(it: Item) {
    !it.quoted && it.blanks == "" && it.sep == ':'
  }

  /** The key stands in the value before a separator, where the scan takes it for an attribute. */
  predicate Misleads(it: Item, key: string) {
    exists i :: 0 <= i < |it.value| && IsAttr(it.value, i, key) && !(i == 0 && Tight(it))
  }

  function ValuePlace(p: nat, it: Item): nat {
    PlacesOf(p, it).value + if it.quoted then 1 else 0
  }

  /** Where the value stands, between characters that are no part of a name. */
  predicate Framed(cfg: string, from: nat, v: nat, value: string, end: nat) {
    && from <= v && v + |value| <= end <= |cfg| && At(cfg, v, value) && Fenced(cfg, v + |value|)
    && (forall k :: from <= k < v ==> !KeyChar(cfg[k])) && (forall k :: v + |value| <= k < end ==> !KeyChar(cfg[k]))
  }

  lemma QuotedStands(cfg: string, from: nat, blanks: string, value: string)
    requires AllBlank(blanks) && At(cfg, from, blanks) && At(cfg, from + |blanks|, "\"" + value + "\"")
    ensures var v := from + |blanks| + 1;
      Framed(cfg, from, v, value, v + |value| + 1) && cfg[v - 1] == '"'
  {
    var q := from + |blanks|;
    Chars(cfg, from, blanks);
    AtConcat(cfg, q, "\"" + value, "\"");
    AtConcat(cfg, q, "\"", value);
    AtIndex(cfg, q, "\"", 0);
    AtIndex(cfg, q + 1 + |value|, "\"", 0);
  }

  lemma BareStands(cfg: string, from: nat, blanks: string, value: string)
    requires AllBlank(blanks) && At(cfg, from, blanks) && At(cfg, from + |blanks|, value) && Fenced(cfg, from + |blanks| + |value|)
    ensures var v := from + |blanks|;
      Framed(cfg, from, v, value, v + |value|) && (blanks != "" ==> cfg[v - 1] == ' ')
  {
    Chars(cfg, from, blanks);
  }

  lemma ValueStands(cfg: string, p: nat, it: Item)
    requires GoodItem(it) && StandsAt(cfg, p, it) && Fenced(cfg, PlacesOf(p, it).end)
    ensures var v, x := ValuePlace(p, it), PlacesOf(p, it);
      Framed(cfg, x.sep + 1, v, it.value, x.end) && (IsNameChar(cfg[v - 1]) <==> Tight(it))
  {
    var x := PlacesOf(p, it);
    if it.quoted {
      assert PrintValue(it) == "\"" + it.value + "\"";
      QuotedStands(cfg, x.sep + 1, it.blanks, it.value);
    } else {
      assert PrintValue(it) == it.value;
      assert cfg[x.sep] == it.sep by {
        AtIndex(cfg, x.sep, [it.sep], 0);
      }
      BareStands(cfg, x.sep + 1, it.blanks, it.value);
    }
  }

  lemma NotKeyed(cfg: string, k: nat, key: string)
    requires IsKey(key) && k < |cfg| && !KeyChar(cfg[k])
    ensures !IsAttr(cfg, k, key)
  {
    AtIndex(cfg, k, key, 0);
  }

  lemma HitInValue(cfg: string, p: nat, it: Item, key: string, i: nat)
    requires GoodItem(it) && StandsAt(cfg, p, it) && Fenced(cfg, PlacesOf(p, it).end) && IsKey(key) && i < |it.value|
    ensures IsAttr(cfg, ValuePlace(p, it) + i, key) <==> IsAttr(it.value, i, key) && !(i == 0 && Tight(it))
  {
    ValueStands(cfg, p, it);
    if i > 0 || !Tight(it) {
      Within(cfg, ValuePlace(p, it), it.value, key, i);
    }
  }

  lemma ValueCalm(cfg: string, p: nat, it: Item, key: string)
    requires GoodItem(it) && StandsAt(cfg, p, it) && Fenced(cfg, PlacesOf(p, it).end) && IsKey(key)
    ensures Calm(cfg, PlacesOf(p, it).sep + 1, PlacesOf(p, it).end, key) <==> !Misleads(it, key)
  {
    var x, v := PlacesOf(p, it), ValuePlace(p, it);
    ValueStands(cfg, p, it);
    if !Misleads(it, key) {
      forall k | x.sep + 1 <= k < x.end ensures !IsAttr(cfg, k, key) {
        if v <= k < v + |it.value| {
          HitInValue(cfg, p, it, key, k - v);
        } else {
          NotKeyed(cfg, k, key);
        }
      }
    } else {
      var i :| 0 <= i < |it.value| && IsAttr(it.value, i, key) && !(i == 0 && Tight(it));
      HitInValue(cfg, p, it, key, i);
      assert x.sep + 1 <= v + i < x.end;
    }
  }

  // ---- the whole list -----------------------------------------------------

  predicate GoodItems(items: seq<Item>) {
    forall i :: 0 <= i < |items| ==> GoodItem(items[i])
  }

  /** A text with an attribute list in it. */
  datatype Text = Text(head: string, items: seq<Item>, tail: string)

  predicate GoodText(t: Text) {
    GoodItems(t.items) && GoodTail(t.tail)
  }

  function PrintText(t: Text): string {
    t.head + (PrintItems(t.items) + t.tail)
  }

  /** Up to the first attribute of the name, or to the end, the key stands before no other separator. */
  predicate Clear(items: seq<Item>, tail: string, key: string) {
    if items == [] then Quiet(tail, key)
    else
      && Quiet(items[0].lead, key)
      && (items[0].name == key || (!Misleads(items[0], key) && Clear(items[1..], tail, key)))
  }

  predicate ClearText(t: Text, key: string) {
    Quiet(t.head, key) && Clear(t.items, t.tail, key)
  }

  /** The place of the first attribute of the name, when the list starts at `p`. */
  function NamePlace(p: nat, items: seq<Item>, key: string): Option<nat>
    decreases |items|
  {
    if items == [] then None
    else if items[0].name == key then Some(PlacesOf(p, items[0]).name)
    else NamePlace(PlacesOf(p, items[0]).end, items[1..], key)
  }

  function PlaceOr(place: Option<nat>, n: nat): nat {
    if place.Some? then place.value else n
  }

  /** The text from `p` on is the list and what follows it. */
  predicate Holds(cfg: string, p: nat, items: seq<Item>, tail: string) {
    At(cfg, p, PrintItems(items) + tail) && p + |PrintItems(items) + tail| == |cfg|
  }

  lemma HoldsRest(cfg: string, p: nat, items: seq<Item>, tail: string)
    requires items != [] && Holds(cfg, p, items, tail)
    ensures StandsAt(cfg, p, items[0]) && Holds(cfg, PlacesOf(p, items[0]).end, items[1..], tail)
  {
    var first, rest := PrintItem(items[0]), PrintItems(items[1..]) + tail;
    assert PrintItems(items) + tail == first + rest;
    AtConcat(cfg, p, first, rest);
    ItemStands(cfg, p, items[0]);
  }

  /** What a list starts with ends a bare value. */
  lemma Starts(cfg: string, p: nat, items: seq<Item>, tail: string)
    requires GoodItems(items) && GoodTail(tail) && Holds(cfg, p, items, tail)
    ensures Fenced(cfg, p)
  {
    if items != [] {
      HoldsRest(cfg, p, items, tail);
      AtIndex(cfg, p, items[0].lead, 0);
    } else {
      assert PrintItems(items) + tail == tail;
      AtIndex(cfg, p, tail, 0);
    }
  }

  lemma CalmParts(cfg: string, i: nat, j: nat, k: nat, key: string)
    requires i <= j <= k
    ensures Calm(cfg, i, k, key) <==> Calm(cfg, i, j, key) && Calm(cfg, j, k, key)
  {
  }

  lemma LeadCalm(cfg: string, p: nat, it: Item, key: string)
    requires GoodItem(it) && StandsAt(cfg, p, it) && IsKey(key)
    ensures Calm(cfg, p, PlacesOf(p, it).name, key) <==> Quiet(it.lead, key)
  {
    PartCalm(cfg, p, it.lead, key);
  }

  lemma NameCalm(cfg: string, p: nat, it: Item, key: string)
    requires GoodItem(it) && StandsAt(cfg, p, it) && IsKey(key)
    ensures var x := PlacesOf(p, it);
      if it.name == key then IsAttr(cfg, x.name, key) else Calm(cfg, x.name, x.sep + 1, key)
  {
    var x := PlacesOf(p, it);
    forall k: nat | x.name <= k <= x.sep ensures IsAttr(cfg, k, key) <==> k == x.name && key == it.name {
      OnlyName(cfg, p, it, key, k);
    }
  }

  /** The places before the first attribute of the name are calm if and only if the list is clear. */
  lemma {:induction false} ListCalm(cfg: string, p: nat, items: seq<Item>, tail: string, key: string)
    requires GoodItems(items) && GoodTail(tail) && Holds(cfg, p, items, tail) && IsKey(key)
    ensures var place := NamePlace(p, items, key);
      && (place.Some? ==> p <= place.value < |cfg| && IsAttr(cfg, place.value, key))
      && (Calm(cfg, p, PlaceOr(place, |cfg|), key) <==> Clear(items, tail, key))
    decreases |items|
  {
    if items == [] {
      assert PrintItems(items) + tail == tail;
      PartCalm(cfg, p, tail, key);
    } else {
      var it, x := items[0], PlacesOf(p, items[0]);
      HoldsRest(cfg, p, items, tail);
      if it.name == key {
        LeadCalm(cfg, p, it, key);
        NameCalm(cfg, p, it, key);
      } else {
        Starts(cfg, x.end, items[1..], tail);
        ItemCalm(cfg, p, it, key);
        ListCalm(cfg, x.end, items[1..], tail, key);
        CalmParts(cfg, p, x.end, PlaceOr(NamePlace(x.end, items[1..], key), |cfg|), key);
      }
    }
  }

  lemma ItemCalm(cfg: string, p: nat, it: Item, key: string)
    requires GoodItem(it) && StandsAt(cfg, p, it) && Fenced(cfg, PlacesOf(p, it).end) && IsKey(key) && it.name != key
    ensures Calm(cfg, p, PlacesOf(p, it).end, key) <==> Quiet(it.lead, key) && !Misleads(it, key)
  {
    var x := PlacesOf(p, it);
    LeadCalm(cfg, p, it, key);
    NameCalm(cfg, p, it, key);
    ValueCalm(cfg, p, it, key);
    CalmParts(cfg, p, x.name, x.end, key);
    CalmParts(cfg, x.name, x.sep + 1, x.end, key);
  }

  lemma {:induction false} ListValue(cfg: string, p: nat, items: seq<Item>, tail: string, key: string)
    requires GoodItems(items) && GoodTail(tail) && Holds(cfg, p, items, tail)
    ensures ValueAt(cfg, NamePlace(p, items, key), key) == Lookup(items, key)
    decreases |items|
  {
    if items != [] {
      if items[0].name == key {
        FirstValue(cfg, p, items, tail);
      } else {
        HoldsRest(cfg, p, items, tail);
        ListValue(cfg, PlacesOf(p, items[0]).end, items[1..], tail, key);
      }
    }
  }

  lemma FirstValue(cfg: string, p: nat, items: seq<Item>, tail: string)
    requires items != [] && GoodItems(items) && GoodTail(tail) && Holds(cfg, p, items, tail)
    ensures var x := PlacesOf(p, items[0]);
      x.sep < |cfg| && ValueFrom(cfg, x.sep + 1) == Some(items[0].value)
  {
    var it, x := items[0], PlacesOf(p, items[0]);
    assert x.sep < |cfg| && At(cfg, x.sep + 1, it.blanks) && At(cfg, x.value, PrintValue(it)) by {
      HoldsRest(cfg, p, items, tail);
    }
    assert x.end < |cfg| ==> EndsBareValue(cfg[x.end]) by {
      HoldsRest(cfg, p, items, tail);
      Starts(cfg, x.end, items[1..], tail);
    }
    ValueRead(cfg, x.sep + 1, it);
  }

  lemma TextHolds(t: Text)
    ensures At(PrintText(t), 0, t.head) && Holds(PrintText(t), |t.head|, t.items, t.tail)
  {
    assert At(PrintText(t), 0, PrintText(t));
    AtConcat(PrintText(t), 0, t.head, PrintItems(t.items) + t.tail);
  }

  lemma TextCalm(cfg: string, t: Text, key: string)
    requires GoodText(t) && cfg == PrintText(t) && IsKey(key)
    ensures var place := NamePlace(|t.head|, t.items, key);
      && (place.Some? ==> place.value <= |cfg| && IsAttr(cfg, place.value, key))
      && (Calm(cfg, 0, PlaceOr(place, |cfg|), key) <==> ClearText(t, key))
  {
    TextHolds(t);
    Starts(cfg, |t.head|, t.items, t.tail);
    PartCalm(cfg, 0, t.head, key);
    ListCalm(cfg, |t.head|, t.items, t.tail, key);
    CalmParts(cfg, 0, |t.head|, PlaceOr(NamePlace(|t.head|, t.items, key), |cfg|), key);
  }

  /** The scan stops at the first attribute of the name, or finds none when there is none, if and only
      if the key stands before no separator ahead of it. */
  lemma PlaceExact(t: Text, key: string)
    requires GoodText(t) && IsKey(key)
    ensures AttrPlace(PrintText(t), 0, key) == NamePlace(|t.head|, t.items, key) <==> ClearText(t, key)
  {
    TextCalm(PrintText(t), t, key);
    PlaceIs(PrintText(t), key, NamePlace(|t.head|, t.items, key));
  }

  /** Then it returns the value of that attribute, in either spelling. */
  lemma AttrExact(t: Text, key: string)
    requires GoodText(t) && IsKey(key) && ClearText(t, key)
    ensures AttrFrom(PrintText(t), 0, key) == Lookup(t.items, key)
  {
    PlaceExact(t, key);
    TextValue(PrintText(t), t, key);
    PlaceValue(PrintText(t), 0, key);
  }

  /** What the scan returns when it stops at the place. */
  function ValueAt(cfg: string, place: Option<nat>, key: string): Option<string> {
    if place.Some? && place.value + |key| < |cfg| then ValueFrom(cfg, place.value + |key| + 1) else None
  }

  lemma {:induction false} PlaceValue(cfg: string, i: nat, key: string)
    ensures AttrFrom(cfg, i, key) == ValueAt(cfg, AttrPlace(cfg, i, key), key)
    decreases |cfg| - i
  {
    if i + |key| < |cfg| && !IsAttr(cfg, i, key) {
      PlaceValue(cfg, i + 1, key);
    }
  }

  lemma TextValue(cfg: string, t: Text, key: string)
    requires GoodText(t) && cfg == PrintText(t)
    ensures ValueAt(cfg, NamePlace(|t.head|, t.items, key), key) == Lookup(t.items, key)
  {
    assert Holds(cfg, |t.head|, t.items, t.tail) by {
      TextHolds(t);
    }
    ListValue(cfg, |t.head|, t.items, t.tail, key);
  }

  lemma NoFirst(s: string, key: string)
    requires IsKey(key) && key[0] !in s
    ensures Quiet(s, key)
  {
    forall k | 0 <= k < |s| ensures !IsAttr(s, k, key) {
      AtIndex(s, k, key, 0);
    }
  }

  /** Two attributes, the first one with the key and a separator in its value. */
  function Misleading(head: string, lead: string, name: string, key: string, junk: string, value: string, tail: string): Text {
    Text(head, [Item(lead, name, '=', "", true, " " + key + "=" + junk), Item(lead, key, '=', "", true, value)], tail)
  }

  /** Whatever follows the separator in that value is read for the attribute. */
  lemma Misread(head: string, lead: string, name: string, key: string, junk: string, value: string, tail: string)
    requires GoodLead(lead) && IsKey(name) && IsKey(key) && name != key && GoodTail(tail)
    requires GoodValue(Item(lead, key, '=', "", false, junk)) && GoodValue(Item(lead, key, '=', "", true, value))
    requires Quiet(head + lead + name + "=\"", key)
    ensures var t := Misleading(head, lead, name, key, junk, value, tail);
      GoodText(t) && Lookup(t.items, key) == Some(value) && AttrFrom(PrintText(t), 0, key) == Some(junk)
  {
    var t, other := Misleading(head, lead, name, key, junk, value, tail), Reseen(head, lead, name, key, junk, value, tail);
    SamePrint(head, lead, name, key, junk, value, tail);
    assert GoodItem(t.items[0]) by {
      NoQuotes(key, junk);
    }
    assert Lookup(t.items, key) == Some(value) by {
      assert t.items[1..] == [t.items[1]];
    }
    assert GoodText(other) && ClearText(other, key) && Lookup(other.items, key) == Some(junk) by {
      NotKeyed(" ", 0, key);
    }
    AttrExact(other, key);
  }

  /** The same text, seen as the scan sees it. */
  function Reseen(head: string, lead: string, name: string, key: string, junk: string, value: string, tail: string): Text {
    Text(head + lead + name + "=\"", [Item(" ", key, '=', "", false, junk)],
         "\"" + PrintItem(Item(lead, key, '=', "", true, value)) + tail)
  }

  lemma SamePrint(head: string, lead: string, name: string, key: string, junk: string, value: string, tail: string)
    ensures PrintText(Misleading(head, lead, name, key, junk, value, tail)) == PrintText(Reseen(head, lead, name, key, junk, value, tail))
  {
    var t, other := Misleading(head, lead, name, key, junk, value, tail), Reseen(head, lead, name, key, junk, value, tail);
    var a, b, c := t.items[0], t.items[1], other.items[0];
    PrintTwo(a, b);
    PrintOne(c);
    FirstPrints(lead, name, key, junk);
    assert PrintText(t) == head + (PrintItem(a) + PrintItem(b) + tail);
    assert PrintText(other) == head + lead + name + "=\"" + (PrintItem(c) + ("\"" + PrintItem(b) + tail));
  }

  lemma FirstPrints(lead: string, name: string, key: string, junk: string)
    ensures var c := PrintItem(Item(" ", key, '=', "", false, junk));
      PrintItem(Item(lead, name, '=', "", true, " " + key + "=" + junk)) == lead + name + "=\"" + (c + "\"")
  {
    assert PrintItem(Item(" ", key, '=', "", false, junk)) == " " + key + "=" + junk;
  }

  lemma NoQuotes(key: string, junk: string)
    requires IsKey(key) && forall k :: 0 <= k < |junk| ==> !EndsBareValue(junk[k])
    ensures var v := " " + key + "=" + junk; forall k :: 0 <= k < |v| ==> v[k] != '"'
  {
  }

  /** `<config title=" poll_ms=9" poll_ms="250"/>` reads as a poll period of 9. */
  lemma TitleMisleads()
    ensures var t := Misleading("<config", " ", "title", "poll_ms", "9", "250", "/>");
      GoodText(t) && Lookup(t.items, "poll_ms") == Some("250") && AttrFrom(PrintText(t), 0, "poll_ms") == Some("9")
  {
    var head := "<config" + " " + "title" + "=\"";
    assert 'p' !in head && "poll_ms"[0] == 'p';
    NoFirst(head, "poll_ms");
    Misread("<config", " ", "title", "poll_ms", "9", "250", "/>");
  }

  lemma PrintOne(it: Item)
    ensures PrintItems([it]) == PrintItem(it)
  {
    assert [it][1..] == [];
  }

  lemma PrintTwo(a: Item, b: Item)
    ensures PrintItems([a, b]) == PrintItem(a) + PrintItem(b)
  {
    assert [a, b][1..] == [b];
    PrintOne(b);
  }

  // ---- the two spellings --------------------------------------------------

  datatype Attr = Attr(name: string, value: string)

  predicate GoodAttrs(attrs: seq<Attr>) {
    forall i :: 0 <= i < |attrs| ==> IsKey(attrs[i].name) && forall k :: 0 <= k < |attrs[i].value| ==> attrs[i].value[k] != '"'
  }

  function ValueOf(attrs: seq<Attr>, key: string): Option<string> {
    if attrs == [] then None
    else if attrs[0].name == key then Some(attrs[0].value)
    else ValueOf(attrs[1..], key)
  }

  /** No value before the first attribute of the name has the key in it before a separator. */
  predicate ClearAttrs(attrs: seq<Attr>, key: string) {
    attrs == [] || attrs[0].name == key || (Quiet(attrs[0].value, key) && ClearAttrs(attrs[1..], key))
  }

  function XmlDocument(attrs: seq<Attr>): Text {
    Text("<config",
         seq(|attrs|, i requires 0 <= i < |attrs| => Item(" ", attrs[i].name, '=', "", true, attrs[i].value)),
         "/>")
  }

  /** HID quotes a value when it needs it. */
  predicate NeedsQuotes(value: string) {
    value == "" || exists k :: 0 <= k < |value| && EndsBareValue(value[k])
  }

  function HidDocument(attrs: seq<Attr>): Text {
    Text("config",
         seq(|attrs|, i requires 0 <= i < |attrs| =>
           Item(if i == 0 then "\n+ | " else " | ", attrs[i].name, ':', " ", NeedsQuotes(attrs[i].value), attrs[i].value)),
         "\n-\n")
  }

  predicate NoSep(s: string) {
    forall k :: 0 <= k < |s| ==> !IsSep(s[k])
  }

  lemma NoSepQuiet(s: string, key: string)
    requires NoSep(s)
    ensures Quiet(s, key)
  {
  }

  /** The items spell the attributes, with no separator outside of names and values. */
  predicate Spells(items: seq<Item>, attrs: seq<Attr>) {
    && |items| == |attrs|
    && forall i :: 0 <= i < |items| ==>
      (items[i].name == attrs[i].name && items[i].value == attrs[i].value && NoSep(items[i].lead) && !Tight(items[i]))
  }

  lemma {:induction false} SpelledClear(items: seq<Item>, tail: string, attrs: seq<Attr>, key: string)
    requires Spells(items, attrs) && NoSep(tail)
    ensures Clear(items, tail, key) <==> ClearAttrs(attrs, key)
    ensures Lookup(items, key) == ValueOf(attrs, key)
    decreases |items|
  {
    if items == [] {
      NoSepQuiet(tail, key);
    } else {
      NoSepQuiet(items[0].lead, key);
      assert !Misleads(items[0], key) <==> Quiet(attrs[0].value, key);
      SpelledClear(items[1..], tail, attrs[1..], key);
    }
  }

  lemma SpelledRead(t: Text, attrs: seq<Attr>, key: string)
    requires GoodText(t) && IsKey(key) && ClearAttrs(attrs, key)
    requires Spells(t.items, attrs) && NoSep(t.head) && NoSep(t.tail)
    ensures AttrFrom(PrintText(t), 0, key) == ValueOf(attrs, key)
  {
    NoSepQuiet(t.head, key);
    SpelledClear(t.items, t.tail, attrs, key);
    AttrExact(t, key);
  }

  lemma XmlGood(attrs: seq<Attr>)
    requires GoodAttrs(attrs)
    ensures var t := XmlDocument(attrs); GoodText(t) && Spells(t.items, attrs) && NoSep(t.head) && NoSep(t.tail)
  {
    assert GoodLead(" ") && NoSep(" ");
  }

  lemma HidGood(attrs: seq<Attr>)
    requires GoodAttrs(attrs)
    ensures var t := HidDocument(attrs); GoodText(t) && Spells(t.items, attrs) && NoSep(t.head) && NoSep(t.tail)
  {
    assert GoodLead("\n+ | ") && NoSep("\n+ | ") && GoodLead(" | ") && NoSep(" | ");
  }

  /** A list of attributes reads the same in the XML and in the HID spelling: for each key the value
      of its first attribute. */
  lemma SpellingsAgree(attrs: seq<Attr>, key: string)
    requires GoodAttrs(attrs) && IsKey(key) && ClearAttrs(attrs, key)
    ensures AttrFrom(PrintText(XmlDocument(attrs)), 0, key) == ValueOf(attrs, key)
    ensures AttrFrom(PrintText(HidDocument(attrs)), 0, key) == ValueOf(attrs, key)
  {
    XmlGood(attrs);
    HidGood(attrs);
    SpelledRead(XmlDocument(attrs), attrs, key);
    SpelledRead(HidDocument(attrs), attrs, key);
  }

  // ---- numbers of the policy ----------------------------------------------

  function DigitsEnd(v: string, i: nat): (e: nat)
    requires i <= |v|
    ensures i <= e <= |v|
    decreases |v| - i
  {
    if i < |v| && IsDigit(v[i]) then DigitsEnd(v, i + 1) else i
  }

  lemma {:induction false} DigitsMeaning(v: string, i: nat)
    requires i <= |v|
    ensures var e := DigitsEnd(v, i); AllDigits(v[i..e]) && (e < |v| ==> !IsDigit(v[e]))
    decreases |v| - i
  {
    if i < |v| && IsDigit(v[i]) {
      DigitsMeaning(v, i + 1);
      assert v[i..DigitsEnd(v, i)] == [v[i]] + v[i + 1..DigitsEnd(v, i)];
    }
  }

  /** The leading digits of a value, as a 32-bit number. */
  function Leading(v: string): nat {
    DigitsMeaning(v, 0);
    Value(v[0..DigitsEnd(v, 0)]) % U32
  }

  /** A policy number; without the attribute, or with an empty value, the default stays. */
  function NumOf(cfg: string, key: string, dflt: nat): nat {
    match AttrFrom(cfg, 0, key)
    case None => dflt
    case Some(v) => if v == "" then dflt else Leading(v)
  }

  method ReadNum(cfg: string, key: string, dflt: nat) returns (r: nat)
    ensures r == NumOf(cfg, key, dflt)
  {
    var value := ScanAttr(cfg, key);
    if value.None? || value.value == "" {
      return dflt;
    }
    var v := value.value;
    r := 0;
    var i := 0;
    assert v[..0] == "";
    while i < |v|
      invariant i <= |v| && DigitsEnd(v, 0) == DigitsEnd(v, i)
      invariant AllDigits(v[..i]) && r == Value(v[..i]) % U32
      decreases |v| - i
    {
      if v[i] < '0' || v[i] > '9' {
        break;
      }
      PushDigit(v, i);
      r := (r * 10 + DigitValue(v[i])) % U32;
      i := i + 1;
    }
    assert v[0..i] == v[..i];
  }

  lemma PushDigit(v: string, i: nat)
    requires i < |v| && AllDigits(v[..i]) && IsDigit(v[i])
    ensures AllDigits(v[..i + 1])
    ensures (Value(v[..i]) % U32 * 10 + DigitValue(v[i])) % U32 == Value(v[..i + 1]) % U32
  {
    ValueStep(v, i);
    WrapStep(Value(v[..i]), DigitValue(v[i]));
  }

  /** The number that a value stands for: its leading digits modulo 2^32, or the default if it is empty. */
  ghost predicate Denotes(v: string, dflt: nat, n: nat) {
    if v == "" then n == dflt
    else exists k: nat :: k <= |v| && AllDigits(v[..k]) && (k < |v| ==> !IsDigit(v[k])) && n == Value(v[..k]) % U32
  }

  lemma {:induction false} DigitsUpTo(v: string, i: nat, k: nat)
    requires i <= k <= |v| && AllDigits(v[..k]) && (k < |v| ==> !IsDigit(v[k]))
    ensures DigitsEnd(v, i) == k
    decreases k - i
  {
    if i < k {
      assert v[i] == v[..k][i] && v[..k][i] in v[..k];
      DigitsUpTo(v, i + 1, k);
    }
  }

  /** In a clear text the number read is the one that the attribute's value stands for. */
  lemma NumRead(t: Text, key: string, n: nat, dflt: nat)
    requires GoodText(t) && IsKey(key) && ClearText(t, key)
    requires match Lookup(t.items, key) case None => n == dflt case Some(v) => Denotes(v, dflt, n)
    ensures NumOf(PrintText(t), key, dflt) == n
  {
    AttrExact(t, key);
    if Lookup(t.items, key).Some? && Lookup(t.items, key).value != "" {
      LeadingIs(Lookup(t.items, key).value, dflt, n);
    }
  }

  lemma LeadingIs(v: string, dflt: nat, n: nat)
    requires v != "" && Denotes(v, dflt, n)
    ensures Leading(v) == n
  {
    var k: nat :| k <= |v| && AllDigits(v[..k]) && (k < |v| ==> !IsDigit(v[k])) && n == Value(v[..k]) % U32;
    DigitsUpTo(v, 0, k);
    assert v[0..k] == v[..k];
  }

  /** A 32-bit number printed in decimal stands for itself. */
  lemma DecimalDenotes(n: nat, dflt: nat)
    requires n < U32
    ensures Denotes(Decimal(n), dflt, n)
  {
    ValueOfDecimal(n);
    var v := Decimal(n);
    assert v[..|v|] == v;
  }
}
