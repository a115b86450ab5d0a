// The raw-text scanning helpers shared by the Sponge control components.
//
// Texts are sequences of characters (the source works on bytes with a length).
// Every loop of the source is a method with a loop, proved equal to a recursive
// function; what those functions mean is proved in XmlText and KillMarkers.

module TextScan {
  import opened Wrappers

  /** The characters of `s` stand in `text` at position `i`. */
  predicate At(text: string, i: nat, s: string) {
    i + |s| <= |text| && forall k :: 0 <= k < |s| ==> text[i + k] == s[k]
  }

  lemma AtConcat(text: string, i: nat, a: string, b: string)
    ensures At(text, i, a + b) <==> At(text, i, a) && At(text, i + |a|, b)
  {
    if At(text, i, a + b) {
      forall k | 0 <= k < |a| ensures text[i + k] == a[k] {
        assert (a + b)[k] == a[k];
      }
      forall k | 0 <= k < |b| ensures text[i + |a| + k] == b[k] {
        assert (a + b)[|a| + k] == b[k];
      }
    }
    if At(text, i, a) && At(text, i + |a|, b) {
      forall k | 0 <= k < |a + b| ensures text[i + k] == (a + b)[k] {
        if k >= |a| {
          assert (a + b)[k] == b[k - |a|];
        }
      }
    }
  }

  lemma AtSlice(text: string, i: nat, s: string)
    requires i + |s| <= |text|
    ensures At(text, i, s) <==> text[i..i + |s|] == s
  {
    if text[i..i + |s|] == s {
      forall k | 0 <= k < |s| ensures text[i + k] == s[k] {
        assert text[i + k] == text[i..i + |s|][k];
      }
    }
  }

  method TagAt(text: string, at: nat, what: string) returns (r: bool)
    ensures r == At(text, at, what)
  {
    var n := |what|;
    if at + n > |text| {
      return false;
    }
    for i := 0 to n
      invariant forall k :: 0 <= k < i ==> text[at + k] == what[k]
    {
      if text[at + i] != what[i] {
        return false;
      }
    }
    return true;
  }

  // ---- element extraction -------------------------------------------------

  predicate IsSpace(c: char) {
    c == ' ' || c == '\t' || c == '\n' || c == '\r'
  }

  predicate AllSpace(s: string) {
    forall c :: c in s ==> IsSpace(c)
  }

  /** The characters that may follow the name in an opening tag. */
  predicate IsBoundary(c: char) {
    c == '>' || c == '/' || IsSpace(c)
  }

  predicate IsOpen(text: string, at: nat, name: string) {
    && 0 < at <= |text| && text[at - 1] == '<'
    && At(text, at, name)
    && at + |name| < |text|
    && IsBoundary(text[at + |name|])
  }

  /** Unlike `IsOpen`, this test does not look at the character after the name. */
  predicate IsClose(text: string, at: nat, name: string) {
    && 0 < at < |text| && text[at - 1] == '<' && text[at] == '/'
    && At(text, at + 1, name)
  }

  /** The position just past the `>` that ends a tag, quoted values skipped; `quote` is the pending quote. */
  function SkipTagFrom(text: string, at: nat, quote: Option<char>): (end: nat)
    requires at <= |text|
    ensures at <= end <= |text|
    decreases |text| - at
  {
    if at == |text| then
      |text|
    else if quote.Some? then
      SkipTagFrom(text, at + 1, if text[at] == quote.value then None else quote)
    else if text[at] == '"' || text[at] == '\'' then
      SkipTagFrom(text, at + 1, Some(text[at]))
    else if text[at] == '>' then
      at + 1
    else
      SkipTagFrom(text, at + 1, None)
  }

  method SkipTag(text: string, start: nat) returns (end: nat)
    requires start <= |text|
    ensures end == SkipTagFrom(text, start, None)
  {
    var at := start;
    var quoted, q := false, '\0';
    while at < |text|
      invariant start <= at <= |text|
      invariant SkipTagFrom(text, start, None) == SkipTagFrom(text, at, if quoted then Some(q) else None)
    {
      var c := text[at];
      if quoted {
        if c == q { quoted := false; }
      } else if c == '"' || c == '\'' {
        quoted, q := true, c;
      } else if c == '>' {
        return at + 1;
      }
      at := at + 1;
    }
    return |text|;
  }

  datatype Span = NotFound | Found(start: nat, end: nat)

  /** The scan for element `name` from position `i`, `depth` elements of that name being open
      and `start` being where the first tag of that name was seen. */
  function ScanFrom(text: string, name: string, i: nat, depth: nat, start: Option<nat>): (r: Span)
    requires i <= |text|
    requires depth > 0 ==> start.Some?
    requires start.Some? ==> start.value <= i
    ensures r.Found? ==> r.start < r.end <= |text| && i < r.end
    ensures r.Found? && start.Some? ==> r.start == start.value
    decreases |text| - i
  {
    if i == |text| then
      NotFound
    else if text[i] != '<' then
      ScanFrom(text, name, i + 1, depth, start)
    else if IsOpen(text, i + 1, name) then
      var end := SkipTagFrom(text, i + 1 + |name|, None);
      var first := if start.Some? then start else Some(i);
      ScanFrom(text, name, end, if IsLeafEnd(text, end) then depth else depth + 1, first)
    else if IsClose(text, i + 1, name) then
      var end := SkipTagFrom(text, i + 1 + |name| + 1, None);
      if depth == 1 then Found(start.value, end)
      else ScanFrom(text, name, end, if depth > 0 then depth - 1 else 0, start)
    else
      ScanFrom(text, name, i + 1, depth, start)
  }

  predicate IsLeafEnd(text: string, end: nat)
    requires end <= |text|
  {
    end >= 2 && text[end - 2] == '/'
  }

  function ElementSpan(text: string, name: string): Span {
    ScanFrom(text, name, 0, 0, None)
  }

  method OpensAt(text: string, at: nat, name: string) returns (r: bool)
    requires at <= |text|
    ensures r == IsOpen(text, at, name)
  {
    var named := TagAt(text, at, name);
    if at == 0 || text[at - 1] != '<' || !named {
      return false;
    }
    if at + |name| >= |text| {
      return false;
    }
    return IsBoundary(text[at + |name|]);
  }

  /** When `at` is the end of the text the answer is no, whatever follows the text in memory. */
  method ClosesAt(text: string, at: nat, name: string) returns (r: bool)
    requires at <= |text|
    ensures r == IsClose(text, at, name)
  {
    if at == 0 || text[at - 1] != '<' || at == |text| || text[at] != '/' {
      return false;
    }
    r := TagAt(text, at + 1, name);
  }

  method ElementText(text: string, name: string) returns (span: Span)
    ensures span == ElementSpan(text, name)
  {
    var depth: nat, start: Option<nat>, i: nat := 0, None, 0;
    ghost var span0 := ElementSpan(text, name);
    while i < |text|
      invariant i <= |text|
      invariant depth > 0 ==> start.Some?
      invariant start.Some? ==> start.value <= i
      invariant span0 == ScanFrom(text, name, i, depth, start)
    {
      var tagEnd := i + 1;
      if text[i] == '<' {
        var open := OpensAt(text, i + 1, name);
        var close := ClosesAt(text, i + 1, name);
        if open {
          tagEnd := SkipTag(text, i + 1 + |name|);
          if start.None? {
            start := Some(i);
          }
          // "<name .../>" is a leaf and changes no depth
          if !IsLeafEnd(text, tagEnd) {
            depth := depth + 1;
          }
        } else if close {
          tagEnd := SkipTag(text, i + 1 + |name| + 1);
          if depth == 1 {
            return Found(start.value, tagEnd);
          }
          depth := if depth > 0 then depth - 1 else 0;
        }
      }
      i := tagEnd;
    }
    return NotFound;
  }

  // ---- scalar attributes --------------------------------------------------

  predicate IsNameChar(c: char) {
    ('a' <= c <= 'z') || ('A' <= c <= 'Z') || ('0' <= c <= '9') || c == '_' || c == '-' || c == ':'
  }

  predicate EndsBareValue(c: char) {
    IsSpace(c) || c == '|' || c == '"' || c == '<' || c == '/'
  }

  /** `key` stands at `i`, is not the tail of a longer name, and a separator follows it. */
  predicate IsAttr(cfg: string, i: nat, key: string) {
    && At(cfg, i, key)
    && (i > 0 ==> !IsNameChar(cfg[i - 1]))
    && i + |key| < |cfg|
    && (cfg[i + |key|] == '=' || cfg[i + |key|] == ':')
  }

  function SkipBlanks(cfg: string, j: nat): (k: nat)
    requires j <= |cfg|
    ensures j <= k <= |cfg|
    decreases |cfg| - j
  {
    if j < |cfg| && cfg[j] == ' ' then SkipBlanks(cfg, j + 1) else j
  }

  function ValueEnd(cfg: string, j: nat, quoted: bool): (k: nat)
    requires j <= |cfg|
    ensures j <= k <= |cfg|
    decreases |cfg| - j
  {
    if j == |cfg| then j
    else if quoted && cfg[j] == '"' then j
    else if !quoted && EndsBareValue(cfg[j]) then j
    else ValueEnd(cfg, j + 1, quoted)
  }

  /** The value that starts after the separator at `j - 1`. */
  function ValueFrom(cfg: string, j: nat): Option<string>
    requires j <= |cfg|
  {
    var v := SkipBlanks(cfg, j);
    if v == |cfg| then None
    else if cfg[v] == '"' then Some(cfg[v + 1..ValueEnd(cfg, v + 1, true)])
    else Some(cfg[v..ValueEnd(cfg, v, false)])
  }

  function AttrFrom(cfg: string, i: nat, key: string): Option<string>
    decreases |cfg| - i
  {
    if i + |key| >= |cfg| then None
    else if IsAttr(cfg, i, key) then ValueFrom(cfg, i + |key| + 1)
    else AttrFrom(cfg, i + 1, key)
  }

  method ScanAttr(cfg: string, key: string) returns (value: Option<string>)
    ensures value == AttrFrom(cfg, 0, key)
  {
    var i := 0;
    while i + |key| < |cfg|
      invariant AttrFrom(cfg, 0, key) == AttrFrom(cfg, i, key)
      decreases |cfg| - i
    {
      var named := TagAt(cfg, i, key);
      if !named || (i > 0 && IsNameChar(cfg[i - 1])) {
        i := i + 1;
        continue;
      }
      var j := i + |key|;
      if cfg[j] != '=' && cfg[j] != ':' {
        i := i + 1;
        continue;
      }
      j := j + 1;
      while j < |cfg| && cfg[j] == ' '
        invariant i + |key| < j <= |cfg|
        invariant SkipBlanks(cfg, i + |key| + 1) == SkipBlanks(cfg, j)
      {
        j := j + 1;
      }
      if j >= |cfg| {
        return None;
      }
      var quoted := cfg[j] == '"';
      if quoted {
        j := j + 1;
      }
      var len := 0;
      while j + len < |cfg| && (if quoted then cfg[j + len] != '"' else !EndsBareValue(cfg[j + len]))
        invariant j + len <= |cfg|
        invariant ValueEnd(cfg, j, quoted) == ValueEnd(cfg, j + len, quoted)
      {
        len := len + 1;
      }
      return Some(cfg[j..j + len]);
    }
    return None;
  }
}
