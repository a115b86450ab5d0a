// Keys of the form panel.<id>.<suffix>: how the configuration daemon recognises them, and how the
// panel takes them apart again.

module PanelKeys {
  import opened Wrappers
  import opened ConfigValues

  const PREFIX: string := "panel."
  const TEMPLATES: nat := 3
  const SIZE_MOD: nat := 0x1_0000_0000_0000_0000

  function Property(t: nat): string
    requires t < TEMPLATES
  {
    if t == 0 then "height" else if t == 1 then "position" else "visible_widgets"
  }

  function Suffix(t: nat): (s: string)
    requires t < TEMPLATES
    ensures 0 < |s| <= 16
  {
    "." + Property(t)
  }

  predicate EndsIn(key: string, suffix: string) {
    |key| >= |suffix| && key[|key| - |suffix|..] == suffix
  }

  /** Prefix and suffix fit the key; they may overlap. */
  predicate Fits(key: string, prefix: string, suffix: string) {
    |key| > |suffix| && prefix <= key && EndsIn(key, suffix)
  }

  /** The number of characters between prefix and suffix, in 64-bit arithmetic. */
  function IdLength(key: string, prefix: string, suffix: string): (n: nat) {
    (|key| - |prefix| - |suffix|) % SIZE_MOD
  }

  /** The key is that of the panel `id` and one of the templates. */
  predicate IsPanelKey(key: string, id: string) {
    ValidId(id) && exists t :: 0 <= t < TEMPLATES && key == PREFIX + id + Suffix(t)
  }

  // ---- the daemon's side --------------------------------------------------

  lemma WrapsFar(d: int)
    ensures -32 <= d < 0 ==> d % SIZE_MOD > MAX_ID
  {
    assert -32 <= d < 0 ==> d % SIZE_MOD == d + SIZE_MOD;
  }

  /** Where prefix and suffix overlap the length wraps around and is far too large. */
  lemma Between(key: string, prefix: string, suffix: string)
    requires Fits(key, prefix, suffix) && |prefix| + |suffix| <= 32
    requires 0 < IdLength(key, prefix, suffix) <= MAX_ID && |key| < SIZE_MOD
    ensures var n := IdLength(key, prefix, suffix);
      |prefix| + n + |suffix| == |key| && key == prefix + key[|prefix|..|prefix| + n] + suffix
  {
    var n := IdLength(key, prefix, suffix);
    WrapsFar(|key| - |prefix| - |suffix|);
    if |key| >= |prefix| + |suffix| {
      assert key == key[..|prefix|] + key[|prefix|..|key| - |suffix|] + key[|key| - |suffix|..];
    }
  }

  lemma KeyFits(key: string, prefix: string, id: string, suffix: string)
    requires key == prefix + id + suffix && id != "" && |key| < SIZE_MOD
    ensures Fits(key, prefix, suffix) && IdLength(key, prefix, suffix) == |id|
    ensures key[|prefix|..|prefix| + |id|] == id
  {
    assert key == prefix + (id + suffix);
    assert key[|key| - |suffix|..] == suffix;
  }

  /** The last characters of the suffixes differ. */
  lemma OneTemplate(key: string, s: nat, t: nat)
    requires s < TEMPLATES && t < TEMPLATES && EndsIn(key, Suffix(s)) && EndsIn(key, Suffix(t))
    ensures s == t
  {
    LastOfKey(key, Suffix(s));
    LastOfKey(key, Suffix(t));
  }

  lemma LastOfKey(key: string, suffix: string)
    requires EndsIn(key, suffix) && suffix != ""
    ensures key[|key| - 1] == suffix[|suffix| - 1]
  {
    assert key[|key| - |suffix|..][|suffix| - 1] == suffix[|suffix| - 1];
  }

  /** A key that fits a template is the key of at most one panel: of what stands in between. */
  lemma OnlyPanel(key: string, t: nat, suffix: string, id: string)
    requires t < TEMPLATES && suffix == Suffix(t) && Fits(key, PREFIX, suffix) && IsPanelKey(key, id) && |key| < SIZE_MOD
    ensures IdLength(key, PREFIX, suffix) == |id| && |PREFIX| + |id| <= |key| && id == key[|PREFIX|..|PREFIX| + |id|]
  {
    var s :| 0 <= s < TEMPLATES && key == PREFIX + id + Suffix(s);
    KeyFits(key, PREFIX, id, Suffix(s));
    OneTemplate(key, s, t);
  }

  lemma NoPanel(key: string, id: string)
    requires |key| < SIZE_MOD && forall t :: 0 <= t < TEMPLATES ==> !Fits(key, PREFIX, Suffix(t))
    ensures !IsPanelKey(key, id)
  {
    forall t | 0 <= t < TEMPLATES && ValidId(id) ensures key != PREFIX + id + Suffix(t) {
      if key == PREFIX + id + Suffix(t) {
        KeyFits(key, PREFIX, id, Suffix(t));
      }
    }
  }

  method FitsTemplate(key: string, suffix: string) returns (fits: bool)
    ensures fits <==> Fits(key, PREFIX, suffix)
  {
    if |key| <= |suffix| {
      return false;
    }
    if !(PREFIX <= key) {
      return false;
    }
    return EndsIn(key, suffix);
  }

  method PatternShapeMatch(key: string) returns (fits: bool)
    ensures fits <==> exists t :: 0 <= t < TEMPLATES && Fits(key, PREFIX, Suffix(t))
  {
    for t := 0 to TEMPLATES
      invariant forall s :: 0 <= s < t ==> !Fits(key, PREFIX, Suffix(s))
    {
      fits := FitsTemplate(key, Suffix(t));
      if fits {
        return;
      }
    }
    return false;
  }

  method ReadId(key: string, n: nat) returns (id: Option<string>)
    requires |PREFIX| + n <= |key|
    ensures var segment := key[|PREFIX|..|PREFIX| + n];
      id == if ValidId(segment) then Some(segment) else None
  {
    var segment := key[|PREFIX|..|PREFIX| + n];
    if n == 0 || n > MAX_ID {
      return None;
    }
    for i := 0 to n
      invariant forall k :: 0 <= k < i ==> IdChar(segment[k])
    {
      if !IdChar(key[|PREFIX| + i]) {
        assert !IdChar(segment[i]);
        return None;
      }
    }
    return Some(segment);
  }

  /** The id that the daemon extracts is the panel's, and there is one for panel keys only. */
  method PatternExtractId(key: string) returns (id: Option<string>)
    requires |key| < SIZE_MOD
    ensures forall name :: id == Some(name) <==> IsPanelKey(key, name)
  {
    for t := 0 to TEMPLATES
      invariant forall s :: 0 <= s < t ==> !Fits(key, PREFIX, Suffix(s))
    {
      var suffix := Suffix(t);
      var fits := FitsTemplate(key, suffix);
      if !fits {
        continue;
      }
      // the first template that fits decides
      var n := IdLength(key, PREFIX, suffix);
      forall name | IsPanelKey(key, name) ensures n == |name| && |PREFIX| + n <= |key| && name == key[|PREFIX|..|PREFIX| + n] {
        OnlyPanel(key, t, suffix, name);
      }
      if n == 0 || n > MAX_ID {
        return None;
      }
      Between(key, PREFIX, suffix);
      id := ReadId(key, n);
      return;
    }
    forall name ensures !IsPanelKey(key, name) {
      NoPanel(key, name);
    }
    return None;
  }

  // ---- the panel's side ---------------------------------------------------

  datatype Parts = Parts(id: string, property: string)

  predicate KnownProperty(property: string) {
    exists t :: 0 <= t < TEMPLATES && property == Property(t)
  }

  predicate IsSplit(key: string, p: Parts) {
    1 <= |p.id| <= MAX_ID && KnownProperty(p.property) && key == PREFIX + (p.id + "." + p.property)
  }

  predicate TailIs(tail: string, p: Parts) {
    '.' !in p.property && tail == p.id + "." + p.property
  }

  lemma NoDot(property: string)
    requires KnownProperty(property)
    ensures '.' !in property && property != ""
  {
  }

  method LastDot(tail: string) returns (dot: Option<nat>)
    ensures forall p :: TailIs(tail, p) ==> dot == Some(|p.id|)
    ensures dot.Some? ==> dot.value < |tail| && tail[dot.value] == '.'
  {
    dot := None;
    for i := 0 to |tail|
      invariant if dot.None? then '.' !in tail[..i]
        else dot.value < i && tail[dot.value] == '.' && '.' !in tail[dot.value + 1..i]
    {
      if tail[i] == '.' {
        dot := Some(i);
      }
    }
    assert tail[..|tail|] == tail;
    forall p | TailIs(tail, p) ensures dot == Some(|p.id|) {
      TailParts(tail, p);
      if dot.Some? {
        SameDot(tail, p, dot.value);
      }
    }
  }

  lemma TailParts(tail: string, p: Parts)
    requires TailIs(tail, p)
    ensures |p.id| < |tail| && tail[|p.id|] == '.' && p.id == tail[..|p.id|] && p.property == tail[|p.id| + 1..]
  {
  }

  lemma SameDot(tail: string, p: Parts, dot: nat)
    requires TailIs(tail, p) && dot < |tail| && tail[dot] == '.' && '.' !in tail[dot + 1..]
    ensures dot == |p.id|
  {
    TailParts(tail, p);
    DotAfter(tail, dot, |p.id|);
    DotAfter(tail, |p.id|, dot);
  }

  lemma DotAfter(tail: string, i: nat, j: nat)
    ensures i < j < |tail| && tail[j] == '.' ==> '.' in tail[i + 1..]
  {
    if i < j < |tail| {
      assert tail[i + 1..][j - i - 1] == tail[j];
    }
  }

  method Known(property: string) returns (known: bool)
    ensures known <==> KnownProperty(property)
  {
    for t := 0 to TEMPLATES
      invariant forall s :: 0 <= s < t ==> property != Property(s)
    {
      if property == Property(t) {
        return true;
      }
    }
    return false;
  }

  /** Everything after the last dot is the property. */
  method ParsePanelIdKey(key: string) returns (parts: Option<Parts>)
    ensures forall p :: parts == Some(p) <==> IsSplit(key, p)
  {
    if |key| <= |PREFIX| || !(PREFIX <= key) {
      return None;
    }
    var tail := key[|PREFIX|..];
    assert key == PREFIX + tail;
    var dot := LastDot(tail);
    forall p | IsSplit(key, p) ensures dot == Some(|p.id|) && TailIs(tail, p) && p == Parts(tail[..|p.id|], tail[|p.id| + 1..]) {
      NoDot(p.property);
      TailParts(tail, p);
    }
    if dot.None? {
      return None;
    }
    var n := dot.value;
    var p := Parts(tail[..n], tail[n + 1..]);
    if n == 0 || n > MAX_ID {
      return None;
    }
    assert tail == p.id + "." + p.property;
    var known := Known(p.property);
    return if known then Some(p) else None;
  }

  // ---- agreement ----------------------------------------------------------

  /** Every key that the daemon takes for panel `id` is split by the panel into that id and the
      template's property, and into nothing else; conversely the daemon takes every key that the
      panel splits, as long as the id keeps to its character set. */
  lemma SidesAgree(key: string, id: string)
    ensures IsPanelKey(key, id) <==> ValidId(id) && exists property :: IsSplit(key, Parts(id, property))
    ensures forall p, q :: IsSplit(key, p) && IsSplit(key, q) ==> p == q
  {
    forall t | 0 <= t < TEMPLATES ensures PREFIX + id + Suffix(t) == PREFIX + (id + "." + Property(t)) {
      KeySpelling(PREFIX, id, Property(t));
    }
    if IsPanelKey(key, id) {
      var t :| 0 <= t < TEMPLATES && key == PREFIX + id + Suffix(t);
      assert IsSplit(key, Parts(id, Property(t)));
    }
    if property :| IsSplit(key, Parts(id, property)) {
      var t :| 0 <= t < TEMPLATES && property == Property(t);
      assert key == PREFIX + id + Suffix(t);
    }
    forall p, q | IsSplit(key, p) && IsSplit(key, q) ensures p == q {
      SplitUnique(key, p, q);
    }
  }

  lemma KeySpelling(prefix: string, id: string, property: string)
    ensures prefix + id + ("." + property) == prefix + (id + "." + property)
  {
  }

  lemma SplitUnique(key: string, p: Parts, q: Parts)
    requires IsSplit(key, p) && IsSplit(key, q)
    ensures p == q
  {
    var tail := key[|PREFIX|..];
    NoDot(p.property);
    NoDot(q.property);
    TailParts(tail, p);
    TailParts(tail, q);
    SameDot(tail, p, |q.id|);
  }
}
