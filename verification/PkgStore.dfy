// The persistent store of the roots: printing, reading back, and what a reboot restores.

module PkgStore {
  import opened Wrappers
  import opened TextScan
  import opened PkgRepo
  import opened PkgInstalled
  import opened PkgDaemon
  import opened PkgConfigs
  import opened PkgBake

  const STORE_BUF: nat := 4096
  const HEAD: string := "<sponge-installed version=\"1\">"
  const ITEM: string := "<root name=\""
  const TAIL: string := "\"/>"
  const FOOT: string := "</sponge-installed>"

  // ---- printing -----------------------------------------------------------

  function PrintRoot(name: Name): string {
    ITEM + name + TAIL
  }

  function PrintRoots(names: seq<Name>): string {
    if names == [] then "" else PrintRoot(names[0]) + PrintRoots(names[1..])
  }

  function PrintStore(names: seq<Name>): string {
    HEAD + PrintRoots(names) + FOOT
  }

  /** The buffer keeps a terminating zero; what does not fit is dropped. */
  function Fit(text: string): string {
    if |text| < STORE_BUF then text else text[..STORE_BUF - 1]
  }

  lemma FitAppend(a: string, b: string)
    ensures Fit(Fit(a) + b) == Fit(a + b)
  {
  }

  method Append(buf: string, s: string) returns (r: string)
    requires |buf| < STORE_BUF
    ensures r == Fit(buf + s)
  {
    r := buf;
    var i := 0;
    while i < |s| && |r| + 1 < STORE_BUF
      invariant i <= |s| && r == buf + s[..i] && |r| < STORE_BUF
    {
      r := r + [s[i]];
      i := i + 1;
    }
    assert i == |s| ==> s[..i] == s;
  }

  /** The same names in ascending order. */
  predicate Sorts(names: seq<Name>, sorted: seq<Name>) {
    Ascending(sorted) && multiset(sorted) == multiset(names)
  }

  method AppendRoot(buf: string, name: Name, ghost before: string) returns (r: string)
    requires |buf| < STORE_BUF && buf == Fit(before)
    ensures r == Fit(before + PrintRoot(name))
  {
    r := Append(buf, ITEM);
    FitAppend(before, ITEM);
    r := Append(r, name);
    FitAppend(before + ITEM, name);
    r := Append(r, TAIL);
    FitAppend(before + ITEM + name, TAIL);
    assert before + ITEM + name + TAIL == before + PrintRoot(name);
  }

  /** The text is the printing of the sorted roots, as far as it fits. */
  ghost predicate Saves(roots: seq<Name>, text: string) {
    exists sorted :: Sorts(roots, sorted) && text == Fit(PrintStore(sorted))
  }

  method SaveStore(roots: seq<Name>) returns (text: string)
    ensures Saves(roots, text)
  {
    var order := SortByName(roots);
    text := WriteStore(roots, order);
    assert Sorts(roots, Pick(roots, order[..]));
  }

  method WriteStore(roots: seq<Name>, order: array<nat>) returns (text: string)
    requires Permutation(order[..], |roots|)
    ensures text == Fit(PrintStore(Pick(roots, order[..])))
  {
    ghost var sorted := Pick(roots, order[..]);
    text := Append("", HEAD);
    assert "" + HEAD == HEAD + PrintRoots(sorted[..0]);
    for i := 0 to |roots|
      invariant text == Fit(HEAD + PrintRoots(sorted[..i]))
    {
      assert order[i] in order[..] && sorted[i] == roots[order[i]];
      text := AppendRoot(text, roots[order[i]], HEAD + PrintRoots(sorted[..i]));
      PrintRootsPush(sorted, i);
      assert HEAD + PrintRoots(sorted[..i]) + PrintRoot(sorted[i]) == HEAD + PrintRoots(sorted[..i + 1]);
    }
    assert sorted[..|roots|] == sorted;
    text := Append(text, FOOT);
    FitAppend(HEAD + PrintRoots(sorted), FOOT);
  }

  lemma {:induction false} PrintRootsPush(names: seq<Name>, i: nat)
    requires i < |names|
    ensures PrintRoots(names[..i + 1]) == PrintRoots(names[..i]) + PrintRoot(names[i])
    decreases i
  {
    if i > 0 {
      PrintRootsPush(names[1..], i - 1);
      assert names[..i + 1][1..] == names[1..][..i] && names[..i][1..] == names[1..][..i - 1];
    } else {
      assert names[..1] == [names[0]] && names[..1][1..] == [];
    }
  }

  // ---- reading ------------------------------------------------------------

  datatype Node = NoRoot | Broken | Root(name: string, next: nat)

  function NodeAt(text: string, p: nat): (r: Node)
    ensures r.Root? ==> p < r.next <= |text|
  {
    if !At(text, p, ITEM) then NoRoot
    else
      var q := QuoteEnd(text, p + |ITEM|);
      if q <= |text| && At(text, q, TAIL) then Root(text[p + |ITEM|..q], q + |TAIL|) else Broken
  }

  function Rest(text: string, p: nat, roots: seq<Name>): Option<seq<Name>>
    decreases |text| - p
  {
    match NodeAt(text, p)
    case Root(name, next) => Rest(text, next, AddSeed(roots, name))
    case Broken => None
    case NoRoot => if At(text, p, FOOT) then Some(roots) else None
  }

  /** Everything but a well-formed store of the known version gives no roots at all. */
  function StoredRoots(text: string): seq<Name> {
    if text == "" || |text| > STORE_BUF || !At(text, 0, HEAD) then []
    else match Rest(text, |HEAD|, []) case None => [] case Some(roots) => roots
  }

  method ReadNode(text: string, p: nat) returns (node: Node)
    ensures match NodeAt(text, p)
      case Root(name, next) => node == Root(Cut(name), next)
      case other => node == other
  {
    var item := TagAt(text, p, ITEM);
    if !item {
      return NoRoot;
    }
    var name, q := ReadName(text, p + |ITEM|);
    var closed := TagAt(text, q, TAIL);
    return if closed then Root(name, q + |TAIL|) else Broken;
  }

  method LoadStore(text: string) returns (roots: seq<Name>)
    ensures roots == StoredRoots(text)
  {
    roots := [];
    if |text| == 0 || |text| > STORE_BUF {
      return;
    }
    var known := TagAt(text, 0, HEAD);
    if !known {
      return;
    }
    var p := |HEAD|;
    var node := ReadNode(text, p);
    while node.Root?
      invariant Rest(text, |HEAD|, []) == Rest(text, p, roots)
      invariant match NodeAt(text, p)
        case Root(name, next) => node == Root(Cut(name), next)
        case other => node == other
      decreases |text| - p
    {
      if |node.name| > 0 && |roots| < MAX_PACKAGES {
        roots := roots + [node.name];
      }
      p := node.next;
      node := ReadNode(text, p);
    }
    var ended := TagAt(text, p, FOOT);
    if node.Broken? || !ended {
      return [];
    }
  }

  // ---- what comes back ----------------------------------------------------

  /** A name the store format can carry. */
  predicate Storable(n: Name) {
    n != "" && |n| <= MAX_NAME && '"' !in n
  }

  predicate AllStorable(names: seq<Name>) {
    |names| <= MAX_PACKAGES && forall i :: 0 <= i < |names| ==> Storable(names[i])
  }

  lemma {:induction false} PrintRootsLength(names: seq<Name>)
    requires forall i :: 0 <= i < |names| ==> Storable(names[i])
    ensures |PrintRoots(names)| <= 78 * |names|
    decreases |names|
  {
    if names != [] {
      PrintRootsLength(names[1..]);
    }
  }

  /** A full table of names always fits the buffer. */
  lemma StoreFits(names: seq<Name>)
    requires AllStorable(names)
    ensures Fit(PrintStore(names)) == PrintStore(names) && |PrintStore(names)| <= 2545
  {
    PrintRootsLength(names);
  }

  lemma NodeExact(text: string, p: nat, name: Name)
    requires '"' !in name && At(text, p, PrintRoot(name))
    ensures NodeAt(text, p) == Root(name, p + |PrintRoot(name)|)
  {
    var n := p + |ITEM|;
    AtConcat(text, p, ITEM + name, TAIL);
    AtConcat(text, p, ITEM, name);
    assert TAIL == "\"" + "/>";
    AtConcat(text, n + |name|, "\"", "/>");
    AtChar(text, n + |name|, '"');
    QuoteRun(text, n, name);
  }

  lemma NotAnItem(text: string, p: nat)
    requires At(text, p, FOOT)
    ensures NodeAt(text, p) == NoRoot
  {
    AtSecond(text, p, FOOT);
    if At(text, p, ITEM) {
      AtSecond(text, p, ITEM);
    }
  }

  lemma AtSecond(text: string, p: nat, s: string)
    requires |s| > 1 && At(text, p, s)
    ensures text[p + 1] == s[1]
  {
  }

  lemma RestEnd(text: string, p: nat, roots: seq<Name>)
    requires At(text, p, FOOT)
    ensures Rest(text, p, roots) == Some(roots)
  {
    NotAnItem(text, p);
  }

  lemma {:induction false} RestExact(text: string, p: nat, roots: seq<Name>, names: seq<Name>, foot: string)
    requires foot == FOOT && At(text, p, PrintRoots(names) + foot)
    requires |roots| + |names| <= MAX_PACKAGES && forall i :: 0 <= i < |names| ==> Storable(names[i])
    ensures Rest(text, p, roots) == Some(roots + names)
    decreases |names|
  {
    if names == [] {
      assert PrintRoots(names) + foot == foot;
      assert roots + names == roots;
      RestEnd(text, p, roots);
    } else {
      var next := p + |PrintRoot(names[0])|;
      RestSplit(text, p, names, foot);
      assert NodeAt(text, p) == Root(names[0], next) by {
        NodeExact(text, p, names[0]);
      }
      RestExact(text, next, roots + [names[0]], names[1..], foot);
      assert roots + [names[0]] + names[1..] == roots + names;
    }
  }

  lemma RestSplit(text: string, p: nat, names: seq<Name>, foot: string)
    requires names != [] && At(text, p, PrintRoots(names) + foot)
    ensures At(text, p, PrintRoot(names[0])) && At(text, p + |PrintRoot(names[0])|, PrintRoots(names[1..]) + foot)
  {
    var tail := PrintRoots(names[1..]) + foot;
    assert PrintRoots(names) + foot == PrintRoot(names[0]) + tail;
    AtConcat(text, p, PrintRoot(names[0]), tail);
  }

  /** Reading back what was printed gives the names in the order printed. */
  lemma LoadExact(names: seq<Name>)
    requires AllStorable(names)
    ensures StoredRoots(Fit(PrintStore(names))) == names
  {
    StoreFits(names);
    var text, body := PrintStore(names), PrintRoots(names) + FOOT;
    assert text == HEAD + body;
    assert At(text, 0, text);
    AtConcat(text, 0, HEAD, body);
    RestExact(text, |HEAD|, [], names, FOOT);
  }

  /** An ascending list is determined by how often each name is in it. */
  lemma {:induction false} SortedUnique(a: seq<Name>, b: seq<Name>)
    requires Ascending(a) && Ascending(b) && multiset(a) == multiset(b)
    ensures a == b
    decreases |a|
  {
    assert |a| == |multiset(a)| == |multiset(b)| == |b|;
    if a != [] {
      var k := |a| - 1;
      LastAgrees(a, b);
      SortedUnique(a[..k], b[..k]);
      assert a == a[..k] + [a[k]] && b == b[..k] + [b[k]];
    }
  }

  lemma LastAgrees(a: seq<Name>, b: seq<Name>)
    requires Ascending(a) && Ascending(b) && multiset(a) == multiset(b) && |a| == |b| > 0
    ensures a[|a| - 1] == b[|b| - 1] && multiset(a[..|a| - 1]) == multiset(b[..|b| - 1])
  {
    DropLast(a);
    DropLast(b);
    NothingAboveLast(a, b[|b| - 1]);
    NothingAboveLast(b, a[|a| - 1]);
    LessTotal(a[|a| - 1], b[|b| - 1]);
  }

  lemma DropLast(a: seq<Name>)
    requires a != []
    ensures a == a[..|a| - 1] + [a[|a| - 1]] && a[|a| - 1] in multiset(a)
    ensures multiset(a[..|a| - 1]) == multiset(a) - multiset{a[|a| - 1]}
  {
    assert a == a[..|a| - 1] + [a[|a| - 1]];
  }

  lemma NothingAboveLast(a: seq<Name>, x: Name)
    requires a != [] && Ascending(a) && x in multiset(a)
    ensures !Less(a[|a| - 1], x)
  {
    assert x in a;
    var i :| 0 <= i < |a| && a[i] == x;
    LessTotal(x, x);
  }

  /** Loading what was saved gives the sorted roots, and saving them again writes the same bytes. */
  lemma SecondSave(roots: seq<Name>, first: string, second: string)
    requires AllStorable(roots) && Saves(roots, first) && Saves(StoredRoots(first), second)
    ensures Sorts(roots, StoredRoots(first)) && second == first
  {
    var sorted :| Sorts(roots, sorted) && first == Fit(PrintStore(sorted));
    var again :| Sorts(StoredRoots(first), again) && second == Fit(PrintStore(again));
    SortedStorable(roots, sorted);
    LoadExact(sorted);
    SortedUnique(sorted, again);
  }

  lemma SortedStorable(roots: seq<Name>, sorted: seq<Name>)
    requires AllStorable(roots) && Sorts(roots, sorted)
    ensures AllStorable(sorted) && forall n :: n in sorted <==> n in roots
  {
    assert |sorted| == |multiset(sorted)| == |multiset(roots)| == |roots|;
    forall n ensures n in sorted <==> n in roots {
      assert n in sorted <==> n in multiset(sorted);
      assert n in roots <==> n in multiset(roots);
    }
    forall i | 0 <= i < |sorted| ensures Storable(sorted[i]) {
      assert sorted[i] in roots;
    }
  }

  // ---- a reboot -----------------------------------------------------------

  /** The roots a start-up works with. */
  function StartRoots(stored: string, manifest: string): seq<Name> {
    var roots := StoredRoots(stored);
    if roots != [] then roots else Seed(manifest)
  }

  ghost predicate NothingSeeded(repo: Repo, manifest: string) {
    forall n :: n in Seed(manifest) ==> !Resolvable(repo, n)
  }

  /** After a reboot the installed names are the ones before it, if and only if some root was left
      to store or the manifest seeds nothing: a user who removes everything gets the baked packages
      back. What runs is what starts by itself. */
  lemma Reboot(repo: Repo, d: Daemon, stored: string, manifest: string)
    requires ValidRepo(repo) && Honest(repo) && Inv(repo, d) && AllStorable(d.roots) && Saves(d.roots, stored)
    ensures var e := Boot(repo, StartRoots(stored, manifest));
      && ((forall n :: n in NamesOf(e.installed) <==> n in NamesOf(d.installed))
          <==> d.roots != [] || NothingSeeded(repo, manifest))
      && (forall n :: n in e.running <==> Autostarts(e.installed, n))
  {
    var roots := StartRoots(stored, manifest);
    var sorted :| Sorts(d.roots, sorted) && stored == Fit(PrintStore(sorted));
    SortedStorable(d.roots, sorted);
    LoadExact(sorted);
    InstalledExact(repo, d);
    BootExact(repo, roots);
    if d.roots != [] {
      assert sorted != [];
      assert roots == sorted;
    } else {
      assert sorted == [] && roots == Seed(manifest);
      if n :| n in Seed(manifest) && Resolvable(repo, n) {
        ReachSelf(repo, n);
        assert Needs(repo, n, n) && Needed(repo, roots, n) && !Needed(repo, d.roots, n);
      }
    }
  }

  lemma BootExact(repo: Repo, roots: seq<Name>)
    requires ValidRepo(repo) && Honest(repo)
    ensures var e := Boot(repo, roots);
      && (forall n :: n in NamesOf(e.installed) <==> Needed(repo, roots, n))
      && (forall n :: n in e.running <==> Autostarts(e.installed, n))
  {
    var ps := Derive(repo, {}, roots);
    assert NameSet([]) == {};
    DeriveExact(repo, {}, roots);
    AddAutoExact(repo, [], ps, |ps|);
    assert ps[..|ps|] == ps;
    var r := AddAuto([], ps);
    assert r[0..] == r;
    assert Boot(repo, roots).running == r;
  }
}
