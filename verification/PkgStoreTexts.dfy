// Every text that the store may hold: which ones are read, and as what.

module PkgStoreTexts {
  import opened Wrappers
  import opened TextScan
  import opened PkgRepo
  import opened PkgBake
  import opened PkgStore

  predicate QuoteFree(names: seq<string>) {
    forall i :: 0 <= i < |names| ==> '"' !in names[i]
  }

  /** What the table takes of the names: no empty one, 32 at most, and 63 characters of each. */
  function Take(roots: seq<Name>, names: seq<string>): seq<Name>
    decreases names
  {
    if names == [] then roots
    else
      var n := names[0];
      Take(if n == "" || |roots| >= 32 then roots else roots + [if |n| <= 63 then n else n[..63]], names[1..])
  }

  /** The roots are printed at a place of the text, the end of the store behind them. */
  predicate Printed(text: string, p: nat, names: seq<string>, foot: string) {
    QuoteFree(names) && At(text, p, PrintRoots(names) + foot)
  }

  lemma PrintedFirst(text: string, p: nat, names: seq<string>, foot: string)
    requires names != [] && Printed(text, p, names, foot)
    ensures At(text, p, PrintRoot(names[0])) && Printed(text, p + |PrintRoot(names[0])|, names[1..], foot)
    ensures '"' !in names[0]
  {
    RestSplit(text, p, names, foot);
  }

  lemma PrintedMore(text: string, p: nat, name: string, names: seq<string>, foot: string)
    requires '"' !in name && At(text, p, PrintRoot(name)) && Printed(text, p + |PrintRoot(name)|, names, foot)
    ensures Printed(text, p, [name] + names, foot)
  {
    var tail := PrintRoots(names) + foot;
    AtConcat(text, p, PrintRoot(name), tail);
    assert ([name] + names)[1..] == names;
    assert PrintRoots([name] + names) + foot == PrintRoot(name) + tail;
  }

  lemma TakeFirst(roots: seq<Name>, names: seq<string>)
    requires names != []
    ensures Take(roots, names) == Take(AddSeed(roots, names[0]), names[1..])
  {
  }

  lemma PrintedNone(text: string, p: nat, roots: seq<Name>, foot: string)
    requires foot == FOOT && Printed(text, p, [], foot)
    ensures Rest(text, p, roots) == Some(Take(roots, []))
  {
    assert PrintRoots([]) + foot == foot;
    RestEnd(text, p, roots);
  }

  lemma RestFirst(text: string, p: nat, roots: seq<Name>, name: string)
    requires '"' !in name && At(text, p, PrintRoot(name))
    ensures Rest(text, p, roots) == Rest(text, p + |PrintRoot(name)|, AddSeed(roots, name))
  {
    NodeExact(text, p, name);
  }

  lemma {:induction false} PrintedRead(text: string, p: nat, roots: seq<Name>, names: seq<string>, foot: string)
    requires foot == FOOT && Printed(text, p, names, foot)
    ensures Rest(text, p, roots) == Some(Take(roots, names))
    decreases |names|
  {
    if names == [] {
      PrintedNone(text, p, roots, foot);
    } else {
      var next := p + |PrintRoot(names[0])|;
      PrintedFirst(text, p, names, foot);
      assert '"' !in names[0];
      PrintedRead(text, next, AddSeed(roots, names[0]), names[1..], foot);
      FirstRead(text, p, roots, names);
    }
  }

  /** Reading the first name goes on where taking it does. */
  lemma FirstRead(text: string, p: nat, roots: seq<Name>, names: seq<string>)
    requires names != [] && '"' !in names[0] && At(text, p, PrintRoot(names[0]))
    ensures Rest(text, p, roots) == Rest(text, p + |PrintRoot(names[0])|, AddSeed(roots, names[0]))
    ensures Take(roots, names) == Take(AddSeed(roots, names[0]), names[1..])
  {
    RestFirst(text, p, roots, names[0]);
    TakeFirst(roots, names);
  }

  /** A node that is read was printed. */
  lemma NodePrinted(text: string, p: nat)
    requires NodeAt(text, p).Root?
    ensures var node := NodeAt(text, p);
      '"' !in node.name && At(text, p, PrintRoot(node.name)) && node.next == p + |PrintRoot(node.name)|
  {
    var n := p + |ITEM|;
    var q := QuoteEnd(text, n);
    var name := text[n..q];
    QuoteEndClean(text, n);
    AtSlice(text, n, name);
    AtConcat(text, p, ITEM, name);
    AtConcat(text, p, ITEM + name, TAIL);
  }

  lemma {:induction false} QuoteEndClean(m: string, p: nat)
    requires p <= |m|
    ensures QuoteEnd(m, p) <= |m| && '"' !in m[p..QuoteEnd(m, p)]
    decreases |m| - p
  {
    if p < |m| && m[p] != '"' {
      QuoteEndClean(m, p + 1);
      assert m[p..QuoteEnd(m, p)] == [m[p]] + m[p + 1..QuoteEnd(m, p)];
    }
  }

  lemma {:induction false} ReadPrinted(text: string, p: nat, roots: seq<Name>, foot: string) returns (names: seq<string>)
    requires foot == FOOT && Rest(text, p, roots).Some?
    ensures Printed(text, p, names, foot)
    decreases |text| - p
  {
    if NodeAt(text, p).Root? {
      var node := NodeAt(text, p);
      NodePrinted(text, p);
      names := ReadPrinted(text, node.next, AddSeed(roots, node.name), foot);
      PrintedMore(text, p, node.name, names, foot);
      names := [node.name] + names;
    } else {
      names := [];
      assert PrintRoots(names) + foot == foot;
    }
  }

  /** The text starts with a printed store and fits the buffer. */
  predicate Holds(text: string, names: seq<string>) {
    QuoteFree(names) && |text| <= 4096 && At(text, 0, PrintStore(names))
  }

  lemma StoreParts(text: string, names: seq<string>)
    ensures At(text, 0, PrintStore(names)) <==> At(text, 0, HEAD) && At(text, |HEAD|, PrintRoots(names) + FOOT)
  {
    assert PrintStore(names) == HEAD + (PrintRoots(names) + FOOT);
    AtConcat(text, 0, HEAD, PrintRoots(names) + FOOT);
  }

  /** Of every text: one that starts with a printed store gives the names printed, as far as the table
      takes them; any other one, and one that is longer than the buffer, gives no roots at all. */
  lemma StoredExact(text: string)
    ensures forall names :: Holds(text, names) ==> StoredRoots(text) == Take([], names)
    ensures (forall names :: !Holds(text, names)) ==> StoredRoots(text) == []
  {
    var head, foot := HEAD, FOOT;
    forall names | Holds(text, names) ensures StoredRoots(text) == Take([], names) {
      StoreParts(text, names);
      PrintedRead(text, |head|, [], names, foot);
    }
    if StoredRoots(text) != [] {
      var names := ReadPrinted(text, |head|, [], foot);
      StoreParts(text, names);
      assert Holds(text, names);
    }
  }

  /** The layout, for one root. */
  lemma StoreLayout(name: Name)
    ensures PrintStore([name]) == "<sponge-installed version=\"1\">" + ("<root name=\"" + name + "\"/>") + "</sponge-installed>"
  {
    assert [name][1..] == [];
    assert PrintRoots([name]) == PrintRoot(name) + "" == PrintRoot(name);
  }
}
