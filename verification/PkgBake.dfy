// First-boot seeding: the list of staged packages in the bake manifest.

module PkgBake {
  import opened Wrappers
  import opened TextScan
  import opened PkgRepo

  const KEY: string := "\"staged_packages\""

  /** A name buffer holds 63 characters; the rest of a longer name is dropped. */
  const MAX_NAME: nat := 63

  function Cut(name: string): Name {
    if |name| <= MAX_NAME then name else name[..MAX_NAME]
  }

  function SkipSpaces(m: string, p: nat): (k: nat)
    ensures k >= p
    decreases |m| - p
  {
    if p < |m| && IsSpace(m[p]) then SkipSpaces(m, p + 1) else p
  }

  function QuoteEnd(m: string, p: nat): (k: nat)
    ensures k >= p
    decreases |m| - p
  {
    if p < |m| && m[p] != '"' then QuoteEnd(m, p + 1) else p
  }

  function FindKey(m: string, key: string, i: nat): Option<nat>
    decreases |m| - i
  {
    if i + |key| >= |m| then None else if At(m, i, key) then Some(i) else FindKey(m, key, i + 1)
  }

  /** An empty name is passed over, and a full table stays as it is. */
  function AddSeed(roots: seq<Name>, name: string): seq<Name> {
    if name != "" && |roots| < MAX_PACKAGES then roots + [Cut(name)] else roots
  }

  /** A quoted name, and the place of the first character after it and its white space. */
  datatype Item = NoItem | Item(name: string, next: nat)

  function ItemAt(m: string, p: nat): (r: Item)
    ensures r.Item? ==> p < r.next
  {
    var q := SkipSpaces(m, p);
    if q >= |m| || m[q] != '"' then NoItem
    else
      var e := QuoteEnd(m, q + 1);
      if e >= |m| then NoItem else Item(m[q + 1..e], SkipSpaces(m, e + 1))
  }

  function Seeds(m: string, p: nat, roots: seq<Name>): seq<Name>
    decreases |m| - p
  {
    match ItemAt(m, p)
    case NoItem => roots
    case Item(name, next) =>
      if next < |m| && m[next] == ',' then Seeds(m, next + 1, AddSeed(roots, name)) else AddSeed(roots, name)
  }

  /** The place after the character, which only white space may precede. */
  function After(m: string, p: nat, c: char): Option<nat> {
    var k := SkipSpaces(m, p);
    if k < |m| && m[k] == c then Some(k + 1) else None
  }

  /** The start of the array that follows the key. */
  function ListStart(m: string, key: string): Option<nat> {
    match FindKey(m, key, 0)
    case None => None
    case Some(i) =>
      match After(m, i + |key|, ':')
      case None => None
      case Some(p) => After(m, p, '[')
  }

  /** The roots that a manifest gives to a daemon that has none. */
  function Seed(m: string): seq<Name> {
    match ListStart(m, KEY)
    case None => []
    case Some(p) => Seeds(m, p, [])
  }

  // ---- the loops ----------------------------------------------------------

  method Skip(m: string, start: nat) returns (p: nat)
    ensures p == SkipSpaces(m, start)
  {
    p := start;
    while p < |m| && IsSpace(m[p])
      invariant SkipSpaces(m, start) == SkipSpaces(m, p)
      decreases |m| - p
    {
      p := p + 1;
    }
  }

  lemma CutMore(s: string, c: char)
    ensures Cut(s + [c]) == if |Cut(s)| < MAX_NAME then Cut(s) + [c] else Cut(s)
  {
  }

  method ReadName(m: string, start: nat) returns (name: Name, p: nat)
    requires start <= |m|
    ensures p == QuoteEnd(m, start) && p <= |m| && name == Cut(m[start..p])
  {
    name := "";
    p := start;
    ghost var whole := "";
    while p < |m| && m[p] != '"'
      invariant start <= p <= |m| && QuoteEnd(m, start) == QuoteEnd(m, p)
      invariant whole == m[start..p] && name == Cut(whole)
    {
      CutMore(whole, m[p]);
      whole := whole + [m[p]];
      if |name| < MAX_NAME {
        name := name + [m[p]];
      }
      p := p + 1;
    }
  }

  method SeedRootsFromBake(m: string, roots: seq<Name>) returns (all: seq<Name>, seeded: bool)
    ensures all == if roots != [] then roots else Seed(m)
    ensures seeded <==> all != roots
  {
    all, seeded := roots, false;
    if |roots| > 0 {
      return;
    }
    var start := FindList(m, KEY);
    if start.None? {
      return;
    }
    all := ReadNames(m, start.value);
    seeded := |all| > 0;
  }

  method FindList(m: string, key: string) returns (start: Option<nat>)
    ensures start == ListStart(m, key)
  {
    var i := 0;
    while i + |key| < |m|
      invariant FindKey(m, key, 0) == FindKey(m, key, i)
      decreases |m| - i
    {
      var found := TagAt(m, i, key);
      if found {
        break;
      }
      i := i + 1;
    }
    if i + |key| >= |m| {
      return None;
    }
    var p := Skip(m, i + |key|);
    if p >= |m| || m[p] != ':' {
      return None;
    }
    p := Skip(m, p + 1);
    if p >= |m| || m[p] != '[' {
      return None;
    }
    return Some(p + 1);
  }

  method ReadItem(m: string, start: nat) returns (found: bool, name: Name, next: nat)
    ensures match ItemAt(m, start)
      case NoItem => !found
      case Item(full, end) => found && name == Cut(full) && next == end
  {
    found, name, next := false, "", start;
    var p := Skip(m, start);
    if p >= |m| || m[p] == ']' {
      return;
    }
    if m[p] != '"' {
      return;
    }
    name, p := ReadName(m, p + 1);
    if p >= |m| {
      return;
    }
    next := Skip(m, p + 1);
    found := true;
  }

  method ReadNames(m: string, start: nat) returns (all: seq<Name>)
    ensures all == Seeds(m, start, [])
  {
    var p := start;
    all := [];
    while true
      invariant Seeds(m, start, []) == Seeds(m, p, all)
      decreases |m| - p
    {
      var found, name, next := ReadItem(m, p);
      if !found {
        break;
      }
      if |name| > 0 && |all| < MAX_PACKAGES {
        all := all + [name];
      }
      if next < |m| && m[next] == ',' {
        p := next + 1;
        continue;
      }
      break;
    }
  }

  // ---- the manifest as printed --------------------------------------------

  /** One array element with the white space around it. */
  datatype Entry = Entry(before: string, name: string, after: string)

  predicate Printable(e: Entry) {
    AllSpace(e.before) && AllSpace(e.after) && '"' !in e.name
  }

  function PrintEntry(e: Entry): string {
    e.before + "\"" + e.name + "\"" + e.after
  }

  /** The elements, with a comma between any two. */
  function PrintEntries(es: seq<Entry>): string {
    if es == [] then "" else PrintEntry(es[0]) + if |es| == 1 then "" else "," + PrintEntries(es[1..])
  }

  /** The key, with white space anywhere JSON allows it; `pad` ends the array. */
  function PrintManifest(key: string, pre: string, w1: string, w2: string, es: seq<Entry>, pad: string, rest: string): string {
    pre + key + w1 + ":" + w2 + "[" + PrintEntries(es) + pad + "]" + rest
  }

  function Listed(es: seq<Entry>): seq<Name> {
    if es == [] then []
    else (if es[0].name == "" then [] else if |es[0].name| <= 63 then [es[0].name] else [es[0].name[..63]]) + Listed(es[1..])
  }

  function Take(roots: seq<Name>, es: seq<Entry>): seq<Name>
    decreases |es|
  {
    if es == [] then roots else Take(AddSeed(roots, es[0].name), es[1..])
  }

  lemma {:induction false} TakeFirst(roots: seq<Name>, es: seq<Entry>)
    requires |roots| <= MAX_PACKAGES
    ensures var all := roots + Listed(es);
      Take(roots, es) == if |all| <= MAX_PACKAGES then all else all[..MAX_PACKAGES]
    decreases |es|
  {
    if es != [] {
      TakeFirst(AddSeed(roots, es[0].name), es[1..]);
      if es[0].name != "" {
        assert roots + Listed(es) == (roots + [Cut(es[0].name)]) + Listed(es[1..]);
      }
    }
  }

  lemma {:induction false} SkipRun(m: string, p: nat, w: string)
    requires At(m, p, w) && AllSpace(w) && p + |w| < |m| && !IsSpace(m[p + |w|])
    ensures SkipSpaces(m, p) == p + |w|
    decreases |w|
  {
    if w != "" {
      assert m[p] == w[0];
      forall k | 0 <= k < |w| - 1 ensures m[p + 1 + k] == w[1..][k] {
        assert m[p + (k + 1)] == w[k + 1];
      }
      SkipRun(m, p + 1, w[1..]);
    }
  }

  lemma {:induction false} QuoteRun(m: string, p: nat, name: string)
    requires At(m, p, name) && '"' !in name && p + |name| < |m| && m[p + |name|] == '"'
    ensures QuoteEnd(m, p) == p + |name| && m[p..p + |name|] == name
    decreases |name|
  {
    AtSlice(m, p, name);
    if name != "" {
      assert m[p] == name[0];
      forall k | 0 <= k < |name| - 1 ensures m[p + 1 + k] == name[1..][k] {
        assert m[p + (k + 1)] == name[k + 1];
      }
      QuoteRun(m, p + 1, name[1..]);
    }
  }

  lemma AtChar(m: string, p: nat, c: char)
    requires At(m, p, [c])
    ensures p < |m| && m[p] == c
  {
    assert m[p + 0] == [c][0];
  }

  lemma EntryParts(m: string, p: nat, e: Entry)
    requires At(m, p, PrintEntry(e))
    ensures var q := p + |e.before|;
      && At(m, p, e.before) && At(m, q, "\"") && At(m, q + 1, e.name)
      && At(m, q + 1 + |e.name|, "\"") && At(m, q + 1 + |e.name| + 1, e.after)
  {
    AtConcat(m, p, e.before + "\"" + e.name + "\"", e.after);
    AtConcat(m, p, e.before + "\"" + e.name, "\"");
    AtConcat(m, p, e.before + "\"", e.name);
    AtConcat(m, p, e.before, "\"");
  }

  lemma ItemIs(m: string, p: nat, q: nat, n: nat, next: nat, name: string)
    requires q == SkipSpaces(m, p) && q < |m| && m[q] == '"'
    requires n == QuoteEnd(m, q + 1) && n < |m| && name == m[q + 1..n] && next == SkipSpaces(m, n + 1)
    ensures ItemAt(m, p) == Item(name, next)
  {
  }

  lemma NameRead(m: string, p: nat, e: Entry)
    requires Printable(e) && At(m, p, PrintEntry(e))
    ensures var q := p + |e.before|;
      var n := q + 1 + |e.name|;
      && q == SkipSpaces(m, p) && q < |m| && m[q] == '"' && QuoteEnd(m, q + 1) == n && n < |m| && m[q + 1..n] == e.name
  {
    var q := p + |e.before|;
    EntryParts(m, p, e);
    SkipTo(m, p, e.before, '"');
    AtChar(m, q + 1 + |e.name|, '"');
    QuoteRun(m, q + 1, e.name);
  }

  lemma ItemExact(m: string, p: nat, e: Entry)
    requires Printable(e) && At(m, p, PrintEntry(e))
    requires var end := p + |PrintEntry(e)|; end < |m| && !IsSpace(m[end])
    ensures ItemAt(m, p) == Item(e.name, p + |PrintEntry(e)|)
  {
    var q := p + |e.before|;
    var n := q + 1 + |e.name|;
    NameRead(m, p, e);
    assert SkipSpaces(m, n + 1) == p + |PrintEntry(e)| by {
      EntryParts(m, p, e);
      SkipRun(m, n + 1, e.after);
    }
    ItemIs(m, p, q, n, p + |PrintEntry(e)|, e.name);
  }

  lemma SkipTo(m: string, p: nat, w: string, c: char)
    requires At(m, p, w) && AllSpace(w) && At(m, p + |w|, [c]) && !IsSpace(c)
    ensures SkipSpaces(m, p) == p + |w| && p + |w| < |m| && m[p + |w|] == c
  {
    AtChar(m, p + |w|, c);
    SkipRun(m, p, w);
  }

  lemma {:induction false} EntriesRead(m: string, p: nat, roots: seq<Name>, es: seq<Entry>, pad: string)
    requires (forall i :: 0 <= i < |es| ==> Printable(es[i])) && AllSpace(pad)
    requires At(m, p, PrintEntries(es) + pad + "]")
    ensures Seeds(m, p, roots) == Take(roots, es)
    decreases |es|
  {
    if es == [] {
      assert PrintEntries(es) + pad + "]" == pad + "]";
      AtConcat(m, p, pad, "]");
      SkipTo(m, p, pad, ']');
    } else if |es| == 1 {
      assert PrintEntries(es) + pad + "]" == PrintEntry(es[0]) + pad + "]";
      LastRead(m, p, roots, es[0], pad);
      assert Take(roots, es) == Take(AddSeed(roots, es[0].name), []);
    } else {
      var end := p + |PrintEntry(es[0])|;
      EntriesSplit(m, p, es, pad);
      assert ItemAt(m, p) == Item(es[0].name, end) && end < |m| && m[end] == ',' by {
        AtChar(m, end, ',');
        ItemExact(m, p, es[0]);
      }
      EntriesRead(m, end + 1, AddSeed(roots, es[0].name), es[1..], pad);
    }
  }

  lemma EntriesSplit(m: string, p: nat, es: seq<Entry>, pad: string)
    requires |es| > 1 && At(m, p, PrintEntries(es) + pad + "]")
    ensures var end := p + |PrintEntry(es[0])|;
      At(m, p, PrintEntry(es[0])) && At(m, end, ",") && At(m, end + 1, PrintEntries(es[1..]) + pad + "]")
  {
    var end, tail := p + |PrintEntry(es[0])|, PrintEntries(es[1..]) + pad + "]";
    assert PrintEntries(es) + pad + "]" == PrintEntry(es[0]) + ("," + tail);
    AtConcat(m, p, PrintEntry(es[0]), "," + tail);
    AtConcat(m, end, ",", tail);
  }

  /** The last entry takes the padding before the bracket as its own. */
  lemma LastRead(m: string, p: nat, roots: seq<Name>, e: Entry, pad: string)
    requires Printable(e) && AllSpace(pad) && At(m, p, PrintEntry(e) + pad + "]")
    ensures Seeds(m, p, roots) == AddSeed(roots, e.name)
  {
    var padded := e.(after := e.after + pad);
    assert PrintEntry(padded) == PrintEntry(e) + pad;
    AtConcat(m, p, PrintEntry(padded), "]");
    AtChar(m, p + |PrintEntry(padded)|, ']');
    ItemExact(m, p, padded);
  }

  lemma {:induction false} FindFirst(m: string, key: string, i: nat, k: nat)
    requires i <= k && At(m, k, key) && k + |key| < |m| && forall j :: i <= j < k ==> !At(m, j, key)
    ensures FindKey(m, key, i) == Some(k)
    decreases k - i
  {
    if i < k {
      FindFirst(m, key, i + 1, k);
    }
  }

  /** Where the parts of the manifest stand when its key starts at `i`. */
  predicate Parts(m: string, key: string, i: nat, w1: string, w2: string, list: string) {
    var k := i + |key|;
    && At(m, i, key) && At(m, k, w1) && At(m, k + |w1|, ":") && At(m, k + |w1| + 1, w2)
    && At(m, k + |w1| + 1 + |w2|, "[") && At(m, k + |w1| + 1 + |w2| + 1, list)
  }

  lemma HeadParts(m: string, pre: string, key: string, w1: string, w2: string)
    requires At(m, 0, pre + key + w1 + ":" + w2 + "[")
    ensures var i := |pre|;
      var k := i + |key|;
      && At(m, i, key) && At(m, k, w1) && At(m, k + |w1|, ":") && At(m, k + |w1| + 1, w2)
      && At(m, k + |w1| + 1 + |w2|, "[")
  {
    AtConcat(m, 0, pre + key + w1 + ":" + w2, "[");
    AtConcat(m, 0, pre + key + w1 + ":", w2);
    AtConcat(m, 0, pre + key + w1, ":");
    AtConcat(m, 0, pre + key, w1);
    AtConcat(m, 0, pre, key);
  }

  lemma Halves(m: string, head: string, list: string, rest: string)
    requires m == head + list + rest
    ensures At(m, 0, head) && At(m, |head|, list)
  {
    assert At(m, 0, m);
    AtConcat(m, 0, head + list, rest);
    AtConcat(m, 0, head, list);
  }

  lemma ManifestParts(key: string, pre: string, w1: string, w2: string, es: seq<Entry>, pad: string, rest: string)
    ensures Parts(PrintManifest(key, pre, w1, w2, es, pad, rest), key, |pre|, w1, w2, PrintEntries(es) + pad + "]")
  {
    var m := PrintManifest(key, pre, w1, w2, es, pad, rest);
    var list, head := PrintEntries(es) + pad + "]", pre + key + w1 + ":" + w2 + "[";
    assert m == head + list + rest;
    Halves(m, head, list, rest);
    HeadParts(m, pre, key, w1, w2);
  }

  lemma ListStartExact(m: string, key: string, i: nat, w1: string, w2: string, list: string)
    requires AllSpace(w1) && AllSpace(w2)
    requires Parts(m, key, i, w1, w2, list) && Unique(m, key, i)
    ensures ListStart(m, key) == Some(i + |key| + |w1| + 1 + |w2| + 1)
  {
    var p := i + |key|;
    var q := p + |w1| + 1;
    assert After(m, p, ':') == Some(q) by {
      SkipTo(m, p, w1, ':');
    }
    assert After(m, q, '[') == Some(q + |w2| + 1) by {
      SkipTo(m, q, w2, '[');
    }
    assert FindKey(m, key, 0) == Some(i) by {
      AtChar(m, p + |w1|, ':');
      FindFirst(m, key, 0, i);
    }
  }

  predicate Unique(m: string, key: string, i: nat) {
    forall j :: 0 <= j < i ==> !At(m, j, key)
  }

  lemma ListRead(m: string, key: string, i: nat, w1: string, w2: string, es: seq<Entry>, pad: string, list: string)
    requires AllSpace(w1) && AllSpace(w2) && AllSpace(pad) && forall k :: 0 <= k < |es| ==> Printable(es[k])
    requires list == PrintEntries(es) + pad + "]" && Parts(m, key, i, w1, w2, list) && Unique(m, key, i)
    ensures ListStart(m, key).Some? && Seeds(m, ListStart(m, key).value, []) == Take([], es)
  {
    var start := i + |key| + |w1| + 1 + |w2| + 1;
    assert ListStart(m, key) == Some(start) by {
      ListStartExact(m, key, i, w1, w2, list);
    }
    assert Seeds(m, start, []) == Take([], es) by {
      EntriesRead(m, start, [], es, pad);
    }
  }

  /** Seeding inverts the printing of the list, whatever white space stands in it and whatever
      surrounds it: the roots are the listed names, up to the size of the table. */
  lemma SeedExact(pre: string, w1: string, w2: string, es: seq<Entry>, pad: string, rest: string)
    requires AllSpace(w1) && AllSpace(w2) && AllSpace(pad) && forall i :: 0 <= i < |es| ==> Printable(es[i])
    requires Unique(PrintManifest(KEY, pre, w1, w2, es, pad, rest), KEY, |pre|)
    ensures var all := Listed(es);
      Seed(PrintManifest(KEY, pre, w1, w2, es, pad, rest)) == if |all| <= 32 then all else all[..32]
  {
    var list := PrintEntries(es) + pad + "]";
    ManifestParts(KEY, pre, w1, w2, es, pad, rest);
    ListRead(PrintManifest(KEY, pre, w1, w2, es, pad, rest), KEY, |pre|, w1, w2, es, pad, list);
    TakeFirst([], es);
    assert [] + Listed(es) == Listed(es);
  }

  /** Names that fit their buffer come back as they are. */
  lemma {:induction false} ListedAll(es: seq<Entry>)
    requires forall i :: 0 <= i < |es| ==> es[i].name != "" && |es[i].name| <= MAX_NAME
    ensures Listed(es) == seq(|es|, i requires 0 <= i < |es| => es[i].name)
    decreases |es|
  {
    if es != [] {
      ListedAll(es[1..]);
    }
  }
}
