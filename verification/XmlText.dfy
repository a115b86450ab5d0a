// What the element scan of TextScan means on documents that are printed trees.
//
// A forest is a run of sibling nodes. Text may hold comments, declarations and
// processing instructions, as long as no tag stands inside them. Tags carry attributes whose quoted values
// may hold any character but `<` and their own quote, so a `>` inside a value
// is allowed everywhere.

module XmlText {
  import opened Wrappers
  import opened TextScan

  datatype Attr = Attr(gap: string, key: string, quote: char, value: string)
  datatype Tag = Tag(name: string, attrs: seq<Attr>, pad: string)

  datatype Forest =
    | End
    | Text(chars: string, next: Forest)
    | Leaf(tag: Tag, next: Forest)
    | Element(tag: Tag, inner: Forest, endPad: string, next: Forest)

  // ---- printing -----------------------------------------------------------

  function PrintAttr(a: Attr): string {
    a.gap + (a.key + ("=" + ([a.quote] + (a.value + [a.quote]))))
  }

  function PrintAttrs(attrs: seq<Attr>): string {
    if attrs == [] then "" else PrintAttr(attrs[0]) + PrintAttrs(attrs[1..])
  }

  /** A tag between its `<` and its `>` or `/>`. */
  function PrintTag(t: Tag): string {
    t.name + (PrintAttrs(t.attrs) + t.pad)
  }

  function PrintEndTag(name: string, pad: string): string {
    "</" + (name + (pad + ">"))
  }

  /** The first node of the forest, without its right siblings. */
  function PrintHead(f: Forest): string
    decreases f, 0
  {
    match f
    case End => ""
    case Text(chars, _) => chars
    case Leaf(tag, _) => "<" + (PrintTag(tag) + "/>")
    case Element(tag, inner, endPad, _) =>
      "<" + (PrintTag(tag) + (">" + (Print(inner) + PrintEndTag(tag.name, endPad))))
  }

  function Print(f: Forest): string
    decreases f, 1
  {
    if f.End? then "" else PrintHead(f) + Print(f.next)
  }

  // ---- well-formedness ----------------------------------------------------

  predicate IsPlain(c: char) {
    !IsBoundary(c) && c != '<' && c != '"' && c != '\'' && c != '='
  }

  /** What follows the `<` of a comment, a declaration or a processing instruction. */
  predicate IsMark(c: char) {
    c == '!' || c == '?'
  }

  predicate IsName(name: string) {
    name != "" && !IsMark(name[0]) && forall c :: c in name ==> IsPlain(c)
  }

  /** Every `<` in the text starts a comment, a declaration or a processing instruction. */
  predicate NoTags(chars: string) {
    forall k :: 0 <= k < |chars| && chars[k] == '<' ==> k + 1 < |chars| && IsMark(chars[k + 1])
  }

  predicate WellFormedAttr(a: Attr) {
    && a.gap != "" && AllSpace(a.gap)
    && IsName(a.key)
    && (a.quote == '"' || a.quote == '\'')
    && (forall c :: c in a.value ==> c != a.quote && c != '<')
  }

  predicate WellFormedTag(t: Tag) {
    && IsName(t.name)
    && (forall a :: a in t.attrs ==> WellFormedAttr(a))
    && AllSpace(t.pad)
  }

  predicate WellFormed(f: Forest) {
    match f
    case End => true
    case Text(chars, next) => NoTags(chars) && WellFormed(next)
    case Leaf(tag, next) => WellFormedTag(tag) && WellFormed(next)
    case Element(tag, inner, endPad, next) =>
      WellFormedTag(tag) && WellFormed(inner) && AllSpace(endPad) && WellFormed(next)
  }

  // ---- the reference: the first element of a name -------------------------

  /** The first node, in document order, that carries the name. */
  function First(f: Forest, name: string): (r: Option<Forest>)
    ensures r.Some? ==> (r.value.Leaf? || r.value.Element?) && r.value.tag.name == name
  {
    match f
    case End => None
    case Text(_, next) => First(next, name)
    case Leaf(tag, next) => if tag.name == name then Some(f) else First(next, name)
    case Element(tag, inner, _, next) =>
      if tag.name == name then Some(f)
      else if First(inner, name).Some? then First(inner, name)
      else First(next, name)
  }

  predicate ProperlyExtends(longer: string, name: string) {
    name < longer
  }

  /** Somewhere in the forest an end tag starts with the name and goes on. */
  predicate HasStray(f: Forest, name: string) {
    match f
    case End => false
    case Text(_, next) => HasStray(next, name)
    case Leaf(_, next) => HasStray(next, name)
    case Element(tag, inner, _, next) =>
      ProperlyExtends(tag.name, name) || HasStray(inner, name) || HasStray(next, name)
  }

  // ---- scanning over the pieces of a tag ----------------------------------

  /** No character of the span opens a tag. */
  predicate Clear(text: string, i: nat, k: nat) {
    i <= k <= |text| && forall j :: i <= j < k ==> text[j] != '<'
  }

  /** No character of the span has a meaning inside a tag. */
  predicate Quiet(text: string, i: nat, k: nat) {
    i <= k <= |text| && forall j :: i <= j < k ==> text[j] != '<' && text[j] != '"' && text[j] != '\'' && text[j] != '>'
  }

  lemma AtChars(text: string, i: nat, s: string)
    requires At(text, i, s)
    ensures forall j :: i <= j < i + |s| ==> text[j] == s[j - i] && text[j] in s
  {
    forall j | i <= j < i + |s| ensures text[j] == s[j - i] && text[j] in s {
      assert s[j - i] in s;
    }
  }

  lemma QuietPart(text: string, i: nat, s: string)
    requires At(text, i, s)
    requires AllSpace(s) || (forall c :: c in s ==> IsPlain(c)) || s == "=" || s == "/"
    ensures Quiet(text, i, i + |s|)
    ensures AllSpace(s) ==> forall j :: i <= j < i + |s| ==> IsSpace(text[j])
  {
    AtChars(text, i, s);
  }

  /** Text without `<` is stepped over. */
  lemma {:induction false} ScanSkips(text: string, name: string, i: nat, k: nat, depth: nat, start: Option<nat>)
    requires Clear(text, i, k)
    requires depth > 0 ==> start.Some?
    requires start.Some? ==> start.value <= i
    ensures ScanFrom(text, name, i, depth, start) == ScanFrom(text, name, k, depth, start)
    decreases k - i
  {
    if i < k {
      ScanSkips(text, name, i + 1, k, depth, start);
    }
  }

  /** Text that holds no tag is stepped over. */
  lemma {:induction false} TextSkips(text: string, name: string, i: nat, chars: string, k: nat, depth: nat, start: Option<nat>)
    requires IsName(name) && At(text, i, chars) && NoTags(chars) && k <= |chars|
    requires depth > 0 ==> start.Some?
    requires start.Some? ==> start.value <= i
    ensures ScanFrom(text, name, i + k, depth, start) == ScanFrom(text, name, i + |chars|, depth, start)
    decreases |chars| - k
  {
    if k < |chars| {
      AtChars(text, i, chars);
      if chars[k] == '<' {
        assert text[i + k + 1] == chars[k + 1];
        NoTagAt(text, i + k + 1, name);
      }
      TextSkips(text, name, i, chars, k + 1, depth, start);
    }
  }

  lemma NoTagAt(text: string, i: nat, name: string)
    requires IsName(name) && i < |text| && IsMark(text[i])
    ensures !IsOpen(text, i, name) && !IsClose(text, i, name)
  {
    if At(text, i, name) {
      AtChars(text, i, name);
    }
  }

  /** Text without quotes and `>` is stepped over inside a tag. */
  lemma {:induction false} TagSkips(text: string, i: nat, k: nat)
    requires Quiet(text, i, k)
    ensures SkipTagFrom(text, i, None) == SkipTagFrom(text, k, None)
    decreases k - i
  {
    if i < k {
      TagSkips(text, i + 1, k);
    }
  }

  lemma {:induction false} QuoteSkips(text: string, i: nat, k: nat, quote: char)
    requires i <= k < |text| && text[k] == quote
    requires forall j :: i <= j < k ==> text[j] != quote
    ensures SkipTagFrom(text, i, Some(quote)) == SkipTagFrom(text, k + 1, None)
    decreases k - i
  {
    if i < k {
      QuoteSkips(text, i + 1, k, quote);
    }
  }

  lemma AttrParts(text: string, i: nat, a: Attr)
    requires At(text, i, PrintAttr(a))
    ensures |PrintAttr(a)| == |a.gap| + |a.key| + 3 + |a.value|
    ensures At(text, i, a.gap) && At(text, i + |a.gap|, a.key) && At(text, i + |a.gap| + |a.key|, "=")
    ensures At(text, i + |a.gap| + |a.key| + 1, [a.quote])
    ensures At(text, i + |a.gap| + |a.key| + 2, a.value)
    ensures At(text, i + |a.gap| + |a.key| + 2 + |a.value|, [a.quote])
  {
    var k := i + |a.gap| + |a.key|;
    AtConcat(text, i, a.gap, a.key + ("=" + ([a.quote] + (a.value + [a.quote]))));
    AtConcat(text, i + |a.gap|, a.key, "=" + ([a.quote] + (a.value + [a.quote])));
    AtConcat(text, k, "=", [a.quote] + (a.value + [a.quote]));
    AtConcat(text, k + 1, [a.quote], a.value + [a.quote]);
    AtConcat(text, k + 2, a.value, [a.quote]);
  }

  lemma ValuePart(text: string, i: nat, value: string, quote: char)
    requires At(text, i, value) && At(text, i + |value|, [quote])
    requires forall c :: c in value ==> c != quote && c != '<'
    requires quote == '"' || quote == '\''
    ensures Clear(text, i, i + |value| + 1) && text[i + |value|] == quote
    ensures forall j :: i <= j < i + |value| ==> text[j] != quote
  {
    AtChars(text, i, value);
    AtChars(text, i + |value|, [quote]);
  }

  /** The part of an attribute before its opening quote. */
  lemma AttrHead(text: string, i: nat, gap: string, key: string)
    requires gap != "" && AllSpace(gap) && IsName(key)
    requires At(text, i, gap) && At(text, i + |gap|, key) && At(text, i + |gap| + |key|, "=")
    ensures Quiet(text, i, i + |gap| + |key| + 1) && IsSpace(text[i])
  {
    QuietPart(text, i, gap);
    QuietPart(text, i + |gap|, key);
    QuietPart(text, i + |gap| + |key|, "=");
  }

  /** Where the opening and the closing quote of an attribute are. */
  lemma AttrQuotes(text: string, i: nat, a: Attr) returns (open: nat, close: nat)
    requires WellFormedAttr(a) && At(text, i, PrintAttr(a))
    ensures i < open < close == i + |PrintAttr(a)| - 1
    ensures Quiet(text, i, open) && IsSpace(text[i])
    ensures Clear(text, open + 1, close + 1) && text[open] == text[close] == a.quote
    ensures forall j :: open < j < close ==> text[j] != a.quote
  {
    open, close := i + |a.gap| + |a.key| + 1, i + |PrintAttr(a)| - 1;
    assert close == open + 1 + |a.value| by { AttrParts(text, i, a); }
    assert Quiet(text, i, open) && IsSpace(text[i]) by {
      AttrParts(text, i, a);
      AttrHead(text, i, a.gap, a.key);
    }
    assert text[open] == a.quote by {
      AttrParts(text, i, a);
      AtChars(text, open, [a.quote]);
    }
    assert Clear(text, open + 1, close + 1) && text[close] == a.quote && (forall j :: open < j < close ==> text[j] != a.quote) by {
      AttrParts(text, i, a);
      ValuePart(text, open + 1, a.value, a.quote);
    }
  }

  lemma QuotedSkips(text: string, i: nat, open: nat, close: nat)
    requires i < open < close < |text| && Quiet(text, i, open)
    requires Clear(text, open + 1, close + 1) && text[open] == text[close]
    requires text[open] == '"' || text[open] == '\''
    requires forall j :: open < j < close ==> text[j] != text[open]
    ensures SkipTagFrom(text, i, None) == SkipTagFrom(text, close + 1, None)
    ensures Clear(text, i, close + 1) && text[close] != '/'
  {
    TagSkips(text, i, open);
    QuoteSkips(text, open + 1, close, text[open]);
  }

  lemma AttrSkips(text: string, i: nat, a: Attr)
    requires WellFormedAttr(a) && At(text, i, PrintAttr(a))
    ensures SkipTagFrom(text, i, None) == SkipTagFrom(text, i + |PrintAttr(a)|, None)
    ensures Clear(text, i, i + |PrintAttr(a)|)
    ensures |PrintAttr(a)| > 0 && text[i + |PrintAttr(a)| - 1] != '/' && IsSpace(text[i])
  {
    var open, close := AttrQuotes(text, i, a);
    QuotedSkips(text, i, open, close);
  }

  lemma {:induction false} AttrsSkip(text: string, i: nat, attrs: seq<Attr>)
    requires forall a :: a in attrs ==> WellFormedAttr(a)
    requires At(text, i, PrintAttrs(attrs))
    ensures SkipTagFrom(text, i, None) == SkipTagFrom(text, i + |PrintAttrs(attrs)|, None)
    ensures Clear(text, i, i + |PrintAttrs(attrs)|)
    ensures attrs != [] ==> |PrintAttrs(attrs)| > 0 && text[i + |PrintAttrs(attrs)| - 1] != '/' && IsSpace(text[i])
    decreases attrs
  {
    if attrs != [] {
      AtConcat(text, i, PrintAttr(attrs[0]), PrintAttrs(attrs[1..]));
      AttrSkips(text, i, attrs[0]);
      AttrsSkip(text, i + |PrintAttr(attrs[0])|, attrs[1..]);
    }
  }

  lemma TagParts(text: string, i: nat, t: Tag)
    requires At(text, i, PrintTag(t))
    ensures At(text, i, t.name) && At(text, i + |t.name|, PrintAttrs(t.attrs))
    ensures At(text, i + |t.name| + |PrintAttrs(t.attrs)|, t.pad)
  {
    AtConcat(text, i, t.name, PrintAttrs(t.attrs) + t.pad);
    AtConcat(text, i + |t.name|, PrintAttrs(t.attrs), t.pad);
  }

  /** After a tag's name: attributes and padding are stepped over, and do not end in a slash. */
  lemma TagTail(text: string, i: nat, t: Tag)
    requires WellFormedTag(t) && At(text, i, PrintTag(t))
    ensures |PrintTag(t)| >= |t.name| > 0
    ensures SkipTagFrom(text, i + |t.name|, None) == SkipTagFrom(text, i + |PrintTag(t)|, None)
    ensures At(text, i, t.name)
    ensures Clear(text, i, i + |PrintTag(t)|) && text[i + |PrintTag(t)| - 1] != '/'
    ensures |t.name| < |PrintTag(t)| ==> IsSpace(text[i + |t.name|])
  {
    var n := i + |t.name|;
    var p := n + |PrintAttrs(t.attrs)|;
    var e := i + |PrintTag(t)|;
    assert e == p + |t.pad|;
    assert Clear(text, i, n) && text[n - 1] != '/' by {
      TagParts(text, i, t);
      QuietPart(text, i, t.name);
      LastIsPlain(text, i, t.name);
    }
    assert Quiet(text, p, e) && (forall j :: p <= j < e ==> IsSpace(text[j])) by {
      TagParts(text, i, t);
      QuietPart(text, p, t.pad);
    }
    assert SkipTagFrom(text, n, None) == SkipTagFrom(text, p, None) && Clear(text, n, p)
      && (n < p ==> text[p - 1] != '/' && IsSpace(text[n])) by {
      TagParts(text, i, t);
      AttrsSkip(text, n, t.attrs);
    }
    TagSkips(text, p, e);
    TagParts(text, i, t);
  }

  lemma LastIsPlain(text: string, i: nat, name: string)
    requires IsName(name) && At(text, i, name)
    ensures IsPlain(text[i]) && IsPlain(text[i + |name| - 1])
  {
    AtChars(text, i, name);
  }

  /** A name printed before a boundary is recognised as exactly itself. */
  lemma NameIsWhole(text: string, i: nat, printed: string, name: string)
    requires IsName(name)
    requires At(text, i, printed) && (forall c :: c in printed ==> IsPlain(c))
    requires i + |printed| < |text| && !IsPlain(text[i + |printed|])
    ensures At(text, i, name) <==> name <= printed
    ensures At(text, i, name) && i + |name| < |text| && IsBoundary(text[i + |name|]) ==> name == printed
  {
    AtChars(text, i, printed);
    if At(text, i, name) {
      AtChars(text, i, name);
      assert |name| <= |printed|;
      forall k | 0 <= k < |name| ensures name[k] == printed[k] {
        assert text[i + k] == name[k];
      }
      if |name| < |printed| {
        assert printed[|name|] in printed;
      }
    }
    if name <= printed {
      forall k | 0 <= k < |name| ensures text[i + k] == name[k] {
        assert printed[k] == name[k];
      }
    }
  }

  // ---- whole tags ---------------------------------------------------------

  function TagClose(leaf: bool): string {
    if leaf then "/>" else ">"
  }

  /** An opening or self-closing tag printed at `i`, and where it ends. */
  predicate TagAtPos(text: string, i: nat, t: Tag, leaf: bool, end: nat) {
    && At(text, i, "<")
    && At(text, i + 1, PrintTag(t))
    && At(text, i + 1 + |PrintTag(t)|, TagClose(leaf))
    && end == i + 1 + |PrintTag(t)| + |TagClose(leaf)|
  }

  lemma TagCorners(text: string, i: nat, t: Tag, leaf: bool, end: nat)
    requires TagAtPos(text, i, t, leaf, end)
    ensures i < end <= |text| && text[i] == '<' && text[end - 1] == '>'
    ensures leaf ==> text[end - 2] == '/'
  {
    AtChars(text, i, "<");
    AtChars(text, end - |TagClose(leaf)|, TagClose(leaf));
  }

  /** Once the tag's body ends at `e`, with no slash there, the scan finds the tag's end. */
  lemma TagEnds(text: string, n: nat, e: nat, end: nat, leaf: bool)
    requires n <= e < end <= |text| && n > 0
    requires end == if leaf then e + 2 else e + 1
    requires text[end - 1] == '>' && (leaf ==> text[end - 2] == '/')
    requires text[e - 1] != '/'
    requires SkipTagFrom(text, n, None) == SkipTagFrom(text, e, None)
    ensures SkipTagFrom(text, n, None) == end && IsLeafEnd(text, end) == leaf
    ensures Clear(text, e, end)
  {
    TagSkips(text, e, end - 1);
  }

  /** A printed tag, in terms of what the scan looks at. */
  lemma TagShape(text: string, i: nat, t: Tag, leaf: bool, end: nat)
    requires WellFormedTag(t) && TagAtPos(text, i, t, leaf, end)
    ensures i + 1 + |t.name| < end <= |text| && text[i] == '<'
    ensures At(text, i + 1, t.name) && t.name != ""
    ensures IsBoundary(text[i + 1 + |t.name|])
    ensures SkipTagFrom(text, i + 1 + |t.name|, None) == end
    ensures IsLeafEnd(text, end) == leaf
    ensures Clear(text, i + 1, end)
  {
    var n, e := i + 1 + |t.name|, i + 1 + |PrintTag(t)|;
    assert end == e + if leaf then 2 else 1;
    assert text[i] == '<' && end <= |text| && text[end - 1] == '>' && (leaf ==> text[end - 2] == '/') by {
      TagCorners(text, i, t, leaf, end);
    }
    assert i + 1 < n <= e && At(text, i + 1, t.name) && text[e - 1] != '/' && Clear(text, i + 1, e) && (n < e ==> IsSpace(text[n]))
      && SkipTagFrom(text, n, None) == SkipTagFrom(text, e, None) by {
      TagTail(text, i + 1, t);
    }
    assert IsBoundary(text[n]);
    TagEnds(text, n, e, end, leaf);
  }

  lemma OpenTagTests(text: string, i: nat, t: Tag, leaf: bool, end: nat, name: string)
    requires WellFormedTag(t) && TagAtPos(text, i, t, leaf, end) && IsName(name)
    ensures i < end <= |text| && text[i] == '<'
    ensures IsOpen(text, i + 1, name) <==> t.name == name
    ensures !IsClose(text, i + 1, name)
    ensures Clear(text, i + 1, end)
  {
    TagShape(text, i, t, leaf, end);
    NameIsWhole(text, i + 1, t.name, name);
    LastIsPlain(text, i + 1, t.name);
  }

  lemma OpenTag(text: string, i: nat, t: Tag, leaf: bool, end: nat, name: string, depth: nat, start: Option<nat>)
    requires WellFormedTag(t) && TagAtPos(text, i, t, leaf, end) && IsName(name)
    requires depth > 0 ==> start.Some?
    requires start.Some? ==> start.value <= i
    ensures i < end <= |text|
    ensures t.name == name ==>
      ScanFrom(text, name, i, depth, start)
      == ScanFrom(text, name, end, if leaf then depth else depth + 1, if start.Some? then start else Some(i))
    ensures t.name != name ==>
      ScanFrom(text, name, i, depth, start) == ScanFrom(text, name, end, depth, start)
  {
    OpenTagTests(text, i, t, leaf, end, name);
    if t.name != name {
      ScanSkips(text, name, i + 1, end, depth, start);
    } else {
      TagShape(text, i, t, leaf, end);
    }
  }

  lemma EndTagParts(text: string, i: nat, x: string, pad: string)
    requires At(text, i, PrintEndTag(x, pad))
    ensures var n, end := i + 2 + |x|, i + |PrintEndTag(x, pad)|;
      && end == n + |pad| + 1 <= |text| && At(text, i + 2, x) && At(text, n, pad)
      && text[i] == '<' && text[i + 1] == '/' && text[end - 1] == '>'
  {
    var n := i + 2 + |x|;
    AtConcat(text, i, "</", x + (pad + ">"));
    AtConcat(text, i + 2, x, pad + ">");
    AtConcat(text, n, pad, ">");
    AtChars(text, i, "</");
    AtChars(text, n + |pad|, ">");
  }

  lemma EndTagQuiet(text: string, i: nat, x: string, pad: string)
    requires At(text, i, x) && IsName(x) && At(text, i + |x|, pad) && AllSpace(pad)
    requires i + |x| + |pad| < |text| && text[i + |x| + |pad|] == '>'
    ensures Quiet(text, i, i + |x| + |pad|) && !IsPlain(text[i + |x|])
  {
    QuietPart(text, i, x);
    QuietPart(text, i + |x|, pad);
  }

  lemma EndTagShape(text: string, i: nat, x: string, pad: string, name: string) returns (end: nat)
    requires At(text, i, PrintEndTag(x, pad)) && IsName(x) && AllSpace(pad) && IsName(name)
    ensures end == i + |PrintEndTag(x, pad)| && i + 2 + |x| < end <= |text| && text[i] == '<' && text[i + 1] == '/'
    ensures At(text, i + 2, name) <==> name <= x
    ensures Clear(text, i + 1, end) && text[end - 1] == '>'
    ensures Quiet(text, i + 2, end - 1)
  {
    end := i + |PrintEndTag(x, pad)|;
    EndTagParts(text, i, x, pad);
    EndTagQuiet(text, i + 2, x, pad);
    NameIsWhole(text, i + 2, x, name);
  }

  lemma EndTag(text: string, i: nat, x: string, pad: string, name: string, depth: nat, start: Option<nat>) returns (end: nat)
    requires At(text, i, PrintEndTag(x, pad)) && IsName(x) && AllSpace(pad) && IsName(name)
    requires depth > 0 ==> start.Some?
    requires start.Some? ==> start.value <= i
    ensures end == i + |PrintEndTag(x, pad)| && i < end <= |text|
    ensures name <= x && depth == 1 ==> ScanFrom(text, name, i, depth, start) == Found(start.value, end)
    ensures !(name <= x && depth == 1) ==>
      ScanFrom(text, name, i, depth, start)
      == ScanFrom(text, name, end, if name <= x && depth > 0 then depth - 1 else depth, start)
  {
    end := EndTagShape(text, i, x, pad, name);
    assert !IsOpen(text, i + 1, name) by {
      if IsOpen(text, i + 1, name) {
        LastIsPlain(text, i + 1, name);
      }
    }
    assert IsClose(text, i + 1, name) <==> name <= x;
    if name <= x {
      TagSkips(text, i + 2 + |name|, end - 1);
    } else {
      ScanSkips(text, name, i + 1, end, depth, start);
    }
  }

  // ---- whole forests ------------------------------------------------------

  /** The depth left after a forest scanned at depth `d`; 0 when the scan ends inside it. */
  function DepthAfter(f: Forest, name: string, d: nat): nat {
    if d == 0 then 0 else
    match f
    case End => d
    case Text(_, next) => DepthAfter(next, name, d)
    case Leaf(_, next) => DepthAfter(next, name, d)
    case Element(tag, inner, _, next) =>
      var left := DepthAfter(inner, name, if tag.name == name then d + 1 else d);
      DepthAfter(next, name, if name <= tag.name && left > 0 then left - 1 else left)
  }

  /** A forest keeps the depth exactly when none of its end tags is mistaken for another. */
  lemma {:induction false} DepthKept(f: Forest, name: string, d: nat)
    requires d > 0
    ensures DepthAfter(f, name, d) <= d
    ensures DepthAfter(f, name, d) == d <==> !HasStray(f, name)
    decreases f
  {
    match f
    case End =>
    case Text(_, next) => DepthKept(next, name, d);
    case Leaf(_, next) => DepthKept(next, name, d);
    case Element(tag, inner, _, next) =>
      var d1 := if tag.name == name then d + 1 else d;
      DepthKept(inner, name, d1);
      var left := DepthAfter(inner, name, d1);
      var d2 := if name <= tag.name && left > 0 then left - 1 else left;
      assert d2 <= d && (d2 == d <==> !ProperlyExtends(tag.name, name) && !HasStray(inner, name));
      if d2 > 0 {
        DepthKept(next, name, d2);
      }
  }

  /** Where the parts of a printed element are. */
  lemma ElementParts(text: string, i: nat, f: Forest) returns (body: nat, close: nat)
    requires f.Element? && At(text, i, PrintHead(f))
    ensures TagAtPos(text, i, f.tag, false, body)
    ensures close == body + |Print(f.inner)| && At(text, body, Print(f.inner))
    ensures At(text, close, PrintEndTag(f.tag.name, f.endPad))
    ensures i + |PrintHead(f)| == close + |PrintEndTag(f.tag.name, f.endPad)|
  {
    var t := PrintTag(f.tag);
    var tail := Print(f.inner) + PrintEndTag(f.tag.name, f.endPad);
    body := i + 1 + |t| + 1;
    close := body + |Print(f.inner)|;
    AtConcat(text, i, "<", t + (">" + tail));
    AtConcat(text, i + 1, t, ">" + tail);
    AtConcat(text, i + 1 + |t|, ">", tail);
    AtConcat(text, body, Print(f.inner), PrintEndTag(f.tag.name, f.endPad));
  }

  lemma LeafParts(text: string, i: nat, f: Forest)
    requires f.Leaf? && At(text, i, PrintHead(f))
    ensures TagAtPos(text, i, f.tag, true, i + |PrintHead(f)|)
  {
    AtConcat(text, i, "<", PrintTag(f.tag) + "/>");
    AtConcat(text, i + 1, PrintTag(f.tag), "/>");
  }

  /** The next siblings of a printed forest follow its head. */
  lemma NextParts(text: string, i: nat, f: Forest) returns (h: nat)
    requires !f.End? && At(text, i, Print(f))
    ensures h == i + |PrintHead(f)| && At(text, i, PrintHead(f)) && At(text, h, Print(f.next))
    ensures i + |Print(f)| == h + |Print(f.next)|
  {
    h := i + |PrintHead(f)|;
    AtConcat(text, i, PrintHead(f), Print(f.next));
  }

  /** Text, and a leaf that starts nothing, leave the scan as it is. */
  lemma ScanHead(text: string, i: nat, f: Forest, name: string, d: nat, start: Option<nat>)
    requires WellFormed(f) && IsName(name) && At(text, i, PrintHead(f))
    requires f.Text? || (f.Leaf? && (start.Some? || f.tag.name != name))
    requires d > 0 ==> start.Some?
    requires start.Some? ==> start.value <= i
    ensures ScanFrom(text, name, i, d, start) == ScanFrom(text, name, i + |PrintHead(f)|, d, start)
  {
    if f.Text? {
      TextSkips(text, name, i, f.chars, 0, d, start);
    } else {
      LeafParts(text, i, f);
      OpenTag(text, i, f.tag, true, i + |PrintHead(f)|, name, d, start);
    }
  }

  /** What a scan from `i` at depth `d` has done when it reaches `k` at depth `w`, or has ended. */
  predicate Scans(text: string, name: string, i: nat, d: nat, k: nat, w: nat, start: Option<nat>)
    requires i <= k <= |text| && start.Some? && start.value <= i
  {
    if w > 0 then ScanFrom(text, name, i, d, start) == ScanFrom(text, name, k, w, start)
    else ScanFrom(text, name, i, d, start).Found? && ScanFrom(text, name, i, d, start).end <= k
  }

  lemma ScansThen(text: string, name: string, i: nat, d: nat, h: nat, w: nat, k: nat, v: nat, start: Option<nat>)
    requires i <= h <= k <= |text| && start.Some? && start.value <= i
    requires Scans(text, name, i, d, h, w, start) && (if w > 0 then Scans(text, name, h, w, k, v, start) else v == 0)
    ensures Scans(text, name, i, d, k, v, start)
  {
  }

  /** Scanning a forest inside an open element: the depth moves as `DepthAfter` says. */
  lemma {:induction false} ScanForest(text: string, i: nat, f: Forest, name: string, d: nat, start: Option<nat>)
    requires WellFormed(f) && IsName(name) && At(text, i, Print(f))
    requires d > 0 && start.Some? && start.value <= i
    ensures Scans(text, name, i, d, i + |Print(f)|, DepthAfter(f, name, d), start)
    decreases f, 0
  {
    if !f.End? {
      var h := NextParts(text, i, f);
      var w := DepthOfHead(f, name, d);
      DepthSplits(f, name, d);
      if f.Element? {
        ScanElement(text, i, f, name, d, start);
      } else {
        ScanHead(text, i, f, name, d, start);
        assert ScanFrom(text, name, i, d, start) == ScanFrom(text, name, h, w, start);
      }
      assert Scans(text, name, i, d, h, w, start);
      if w > 0 {
        ScanForest(text, h, f.next, name, w, start);
      }
      ScansThen(text, name, i, d, h, w, i + |Print(f)|, DepthAfter(f, name, d), start);
    }
  }

  function DepthOfHead(f: Forest, name: string, d: nat): nat
    requires !f.End?
  {
    if f.Element? then DepthOfElement(f, name, d) else d
  }

  lemma DepthSplits(f: Forest, name: string, d: nat)
    requires !f.End? && d > 0
    ensures DepthAfter(f, name, d) == DepthAfter(f.next, name, DepthOfHead(f, name, d))
    ensures DepthAfter(f.next, name, 0) == 0
  {
  }

  /** The depth left after the element that heads a forest. */
  function DepthOfElement(f: Forest, name: string, d: nat): nat
    requires f.Element?
  {
    var left := DepthAfter(f.inner, name, if f.tag.name == name then d + 1 else d);
    if name <= f.tag.name && left > 0 then left - 1 else left
  }

  lemma {:induction false} ScanElement(text: string, i: nat, f: Forest, name: string, d: nat, start: Option<nat>)
    requires f.Element? && WellFormed(f) && IsName(name) && At(text, i, PrintHead(f))
    requires d > 0 && start.Some? && start.value <= i
    ensures Scans(text, name, i, d, i + |PrintHead(f)|, DepthOfElement(f, name, d), start)
    decreases f.inner, 1
  {
    var body, close := ElementParts(text, i, f);
    OpenTag(text, i, f.tag, false, body, name, d, start);
    var d1 := if f.tag.name == name then d + 1 else d;
    ScanForest(text, body, f.inner, name, d1, start);
    var left := DepthAfter(f.inner, name, d1);
    ScansThen(text, name, i, d, body, d1, close, left, start);
    if left > 0 {
      var end := EndTag(text, close, f.tag.name, f.endPad, name, left, start);
    }
    ScansThen(text, name, i, d, close, left, i + |PrintHead(f)|, DepthOfElement(f, name, d), start);
  }

  /** Before the first tag of the name, nothing opens and nothing closes. */
  lemma {:induction false} ScanBefore(text: string, i: nat, f: Forest, name: string) returns (at: nat)
    requires WellFormed(f) && IsName(name) && At(text, i, Print(f))
    ensures i <= at <= i + |Print(f)|
    ensures ScanFrom(text, name, i, 0, None) == ScanFrom(text, name, at, 0, None)
    ensures First(f, name).None? ==> at == i + |Print(f)|
    ensures First(f, name).Some? ==> At(text, at, PrintHead(First(f, name).value)) && WellFormed(First(f, name).value)
    decreases f, 0
  {
    if f.End? {
      return i;
    }
    var h := NextParts(text, i, f);
    if !f.Text? && f.tag.name == name {
      at := i;
    } else if f.Element? {
      at := ScanBeforeElement(text, i, f, name);
      if First(f.inner, name).None? {
        at := ScanBefore(text, h, f.next, name);
      }
    } else {
      ScanHead(text, i, f, name, 0, None);
      at := ScanBefore(text, h, f.next, name);
    }
  }

  lemma {:induction false} ScanBeforeElement(text: string, i: nat, f: Forest, name: string) returns (at: nat)
    requires f.Element? && f.tag.name != name && WellFormed(f) && IsName(name) && At(text, i, PrintHead(f))
    ensures i <= at <= i + |PrintHead(f)|
    ensures ScanFrom(text, name, i, 0, None) == ScanFrom(text, name, at, 0, None)
    ensures var first := First(f.inner, name);
      if first.None? then at == i + |PrintHead(f)| else At(text, at, PrintHead(first.value)) && WellFormed(first.value)
    decreases f.inner, 1
  {
    var body, close := ElementParts(text, i, f);
    OpenTag(text, i, f.tag, false, body, name, 0, None);
    at := ScanBefore(text, body, f.inner, name);
    if First(f.inner, name).None? {
      at := EndTag(text, close, f.tag.name, f.endPad, name, 0, None);
    }
  }

  // ---- the main result ----------------------------------------------------

  /** The text of the span, when there is one. */
  function Cut(text: string, span: Span): Option<string>
    requires span.Found? ==> span.start <= span.end <= |text|
  {
    if span.NotFound? then None else Some(text[span.start..span.end])
  }

  /** The element text that the scan returns for a document. */
  function Extract(text: string, name: string): Option<string> {
    Cut(text, ElementSpan(text, name))
  }

  /** The scan of a printed document whose first node of the name starts at `at`. */
  lemma ScanAtFirst(text: string, f: Forest, name: string) returns (at: nat)
    requires WellFormed(f) && IsName(name) && text == Print(f) && First(f, name).Some?
    ensures var e := First(f, name).value;
      && WellFormed(e) && At(text, at, PrintHead(e))
      && ElementSpan(text, name) == ScanFrom(text, name, at, 0, None)
  {
    assert At(text, 0, Print(f));
    at := ScanBefore(text, 0, f, name);
  }

  /** No tag of the name: nothing is found. */
  lemma ExtractNone(f: Forest, name: string)
    requires WellFormed(f) && IsName(name) && First(f, name).None?
    ensures Extract(Print(f), name).None?
  {
    assert At(Print(f), 0, Print(f));
    var at := ScanBefore(Print(f), 0, f, name);
  }

  /** A first tag that is self-closing: whatever is returned starts with the leaf and goes on. */
  lemma ExtractLeaf(f: Forest, name: string)
    requires WellFormed(f) && IsName(name)
    requires First(f, name).Some? && First(f, name).value.Leaf?
    ensures Extract(Print(f), name) != Some(PrintHead(First(f, name).value))
  {
    var text, e := Print(f), First(f, name).value;
    var at := ScanAtFirst(text, f, name);
    LeafParts(text, at, e);
    OpenTag(text, at, e.tag, true, at + |PrintHead(e)|, name, 0, None);
  }

  /** The extraction is exact if and only if the first node of the name is no leaf and holds no
      element whose name properly extends it. */
  lemma ExtractExact(f: Forest, name: string)
    requires WellFormed(f) && IsName(name) && First(f, name).Some?
    ensures var e := First(f, name).value;
      Extract(Print(f), name) == Some(PrintHead(e)) <==> e.Element? && !HasStray(e.inner, name)
  {
    var text, e := Print(f), First(f, name).value;
    if e.Leaf? {
      ExtractLeaf(f, name);
      return;
    }
    var at := ScanAtFirst(text, f, name);
    ScanFirstElement(text, at, e, name);
    if !HasStray(e.inner, name) {
      AtSlice(text, at, PrintHead(e));
    }
  }

  /** The scan from the first element of the name: it ends with that element, or before. */
  lemma ScanFirstElement(text: string, at: nat, e: Forest, name: string)
    requires e.Element? && e.tag.name == name && WellFormed(e) && IsName(name) && At(text, at, PrintHead(e))
    ensures ScanFrom(text, name, at, 0, None).Found? && ScanFrom(text, name, at, 0, None).start == at
    ensures if HasStray(e.inner, name) then ScanFrom(text, name, at, 0, None).end < at + |PrintHead(e)|
            else ScanFrom(text, name, at, 0, None).end == at + |PrintHead(e)|
  {
    var body, close := ElementParts(text, at, e);
    OpenTag(text, at, e.tag, false, body, name, 0, None);
    ScanForest(text, body, e.inner, name, 1, Some(at));
    DepthKept(e.inner, name, 1);
    if !HasStray(e.inner, name) {
      var end := EndTag(text, close, name, e.endPad, name, 1, Some(at));
    }
  }

  // ---- the two-level template lookup --------------------------------------

  /** The `<config>` element inside the wrapper element of the given name. */
  function Template(text: string, name: string): Option<string> {
    var wrapped := Extract(text, name);
    if wrapped.None? then None else Extract(wrapped.value, "config")
  }

  lemma {:induction false} FirstWellFormed(f: Forest, name: string)
    requires WellFormed(f)
    ensures First(f, name).Some? ==> WellFormed(First(f, name).value)
    decreases f
  {
    if !f.End? {
      FirstWellFormed(f.next, name);
      if f.Element? {
        FirstWellFormed(f.inner, name);
      }
    }
  }

  lemma AloneIsHead(e: Forest)
    requires e.Element? && WellFormed(e)
    ensures var alone := Element(e.tag, e.inner, e.endPad, End);
      && WellFormed(alone) && Print(alone) == PrintHead(e)
      && (e.tag.name != "config" ==> First(alone, "config") == First(e.inner, "config"))
  {
    var alone := Element(e.tag, e.inner, e.endPad, End);
    assert Print(alone) == PrintHead(alone) + "";
  }

  /** The `<config>` element found in the text of a wrapper element. */
  lemma ConfigOfWrapper(e: Forest)
    requires e.Element? && WellFormed(e) && e.tag.name != "config"
    ensures match First(e.inner, "config")
      case None => Extract(PrintHead(e), "config").None?
      case Some(c) => Extract(PrintHead(e), "config") == Some(PrintHead(c)) <==> c.Element? && !HasStray(c.inner, "config")
  {
    AloneIsHead(e);
    var alone := Element(e.tag, e.inner, e.endPad, End);
    if First(e.inner, "config").None? {
      ExtractNone(alone, "config");
    } else {
      ExtractExact(alone, "config");
    }
  }

  /** A wrapper that is extracted exactly hands on exactly its first `<config>` element, if and
      only if that element too is extracted exactly. */
  lemma TemplateExact(f: Forest, name: string)
    requires WellFormed(f) && IsName(name) && name != "config"
    requires First(f, name).Some? && First(f, name).value.Element?
    requires !HasStray(First(f, name).value.inner, name)
    ensures var inner := First(f, name).value.inner;
      match First(inner, "config")
      case None => Template(Print(f), name).None?
      case Some(c) => Template(Print(f), name) == Some(PrintHead(c)) <==> c.Element? && !HasStray(c.inner, "config")
  {
    ExtractExact(f, name);
    FirstWellFormed(f, name);
    ConfigOfWrapper(First(f, name).value);
  }

  /** The element `name` around an element `longer`. */
  function Nested(name: string, longer: string): Forest {
    Element(Tag(name, [], ""), Element(Tag(longer, [], ""), End, "", End), "", End)
  }

  /** A nested element whose name extends that of the outer one cuts the extraction short. */
  lemma StrayCuts(name: string, longer: string)
    requires IsName(name) && IsName(longer) && ProperlyExtends(longer, name)
    ensures WellFormed(Nested(name, longer)) && Extract(Print(Nested(name, longer)), name) != Some(PrintHead(Nested(name, longer)))
  {
    var doc := Nested(name, longer);
    assert First(doc, name) == Some(doc) && HasStray(doc.inner, name);
    ExtractExact(doc, name);
  }

  /** As "configs" does inside "config". */
  lemma StrayCutsShort()
    ensures WellFormed(Nested("config", "configs"))
    ensures Extract(Print(Nested("config", "configs")), "config") != Some(PrintHead(Nested("config", "configs")))
  {
    var name, longer := "config", "configs";
    assert IsName(name) && IsName(longer) && ProperlyExtends(longer, name);
    StrayCuts(name, longer);
  }
}
