// The package repository as the daemon sees it, and its dependency graph.

module PkgRepo {
  type Name = string

  const MAX_PACKAGES: nat := 32

  datatype Session = Session(service: string, route: string, readOnly: bool, tag: string)

  /** Parsed package metadata. `reused` is set during resolution. */
  datatype Package = Package(
    name: Name, deps: seq<Name>,
    binary: string, ram: string, caps: nat, config: string, sessions: seq<Session>,
    autostart: bool, driver: bool, group: string,
    reused: bool)

  /** What the metadata module of an indexed package holds. */
  datatype Meta = Valid(pkg: Package) | NoModule | NotAPackage | BadSyntax | MissingElement(element: string)

  /** The index is loaded once; modules never change. */
  datatype Repo = Repo(index: seq<Name>, meta: map<Name, Meta>)

  /** The index holds at most as many names as the tables. */
  predicate ValidRepo(repo: Repo) {
    |repo.index| <= MAX_PACKAGES
  }

  function MetaOf(repo: Repo, name: Name): Meta {
    if name in repo.meta then repo.meta[name] else NoModule
  }

  predicate Loadable(repo: Repo, name: Name) {
    name in repo.index && MetaOf(repo, name).Valid?
  }

  function PackageOf(repo: Repo, name: Name): Package
    requires Loadable(repo, name)
  {
    MetaOf(repo, name).pkg
  }

  // ---- the dependency graph -----------------------------------------------

  predicate Edge(repo: Repo, a: Name, b: Name) {
    Loadable(repo, a) && b in PackageOf(repo, a).deps
  }

  predicate IsPath(repo: Repo, p: seq<Name>) {
    p != [] && forall i :: 0 <= i < |p| - 1 ==> Edge(repo, p[i], p[i + 1])
  }

  predicate Leads(repo: Repo, p: seq<Name>, a: Name, b: Name) {
    IsPath(repo, p) && p[0] == a && p[|p| - 1] == b
  }

  ghost predicate Reach(repo: Repo, a: Name, b: Name) {
    exists p :: Leads(repo, p, a, b)
  }

  /** Some name that `a` reaches lies on a cycle. */
  ghost predicate ReachesCycle(repo: Repo, a: Name) {
    exists p :: |p| >= 2 && IsPath(repo, p) && p[0] == p[|p| - 1] && Reach(repo, a, p[0])
  }

  /** Everything the root needs exists, and nothing it needs needs itself. */
  ghost predicate Resolvable(repo: Repo, root: Name) {
    (forall b :: Reach(repo, root, b) ==> Loadable(repo, b)) && !ReachesCycle(repo, root)
  }

  lemma ReachSelf(repo: Repo, a: Name)
    ensures Reach(repo, a, a)
  {
    assert Leads(repo, [a], a, a);
  }

  lemma PathJoin(repo: Repo, p: seq<Name>, q: seq<Name>)
    requires IsPath(repo, p) && IsPath(repo, q) && p[|p| - 1] == q[0]
    ensures IsPath(repo, p + q[1..])
  {
    var r := p + q[1..];
    forall i | 0 <= i < |r| - 1 ensures Edge(repo, r[i], r[i + 1]) {
      if i >= |p| - 1 {
        assert r[i] == q[i - (|p| - 1)] && r[i + 1] == q[i - (|p| - 1) + 1];
      }
    }
  }

  lemma ReachTransitive(repo: Repo, a: Name, b: Name, c: Name)
    requires Reach(repo, a, b) && Reach(repo, b, c)
    ensures Reach(repo, a, c)
  {
    var p :| Leads(repo, p, a, b);
    var q :| Leads(repo, q, b, c);
    PathJoin(repo, p, q);
    assert Leads(repo, p + q[1..], a, c);
  }

  lemma ReachEdge(repo: Repo, a: Name, b: Name, c: Name)
    requires Reach(repo, a, b) && Edge(repo, b, c)
    ensures Reach(repo, a, c)
  {
    assert Leads(repo, [b, c], b, c);
    ReachTransitive(repo, a, b, c);
  }

  /** A part of a path is a path. */
  lemma PathPart(repo: Repo, p: seq<Name>, i: nat, j: nat)
    requires IsPath(repo, p) && i < j <= |p|
    ensures IsPath(repo, p[i..j])
  {
  }

  // ---- lists of names -----------------------------------------------------

  predicate Distinct<T(==)>(s: seq<T>) {
    forall i, j :: 0 <= i < j < |s| ==> s[i] != s[j]
  }

  lemma {:induction false} SetOfDistinct<T>(s: seq<T>)
    requires Distinct(s)
    ensures |(set x | x in s)| == |s|
  {
    if s != [] {
      var init, last := s[..|s| - 1], s[|s| - 1];
      SetOfDistinct(init);
      assert (set x | x in s) == (set x | x in init) + {last};
      assert last !in init;
    }
  }

  lemma {:induction false} SetSize<T>(s: seq<T>)
    ensures |(set x | x in s)| <= |s|
  {
    if s != [] {
      var init, last := s[..|s| - 1], s[|s| - 1];
      SetSize(init);
      assert (set x | x in s) == (set x | x in init) + {last};
    }
  }

  lemma SubsetSize<T>(a: set<T>, b: set<T>)
    requires a <= b
    ensures |a| <= |b|
    ensures a != b ==> |a| < |b|
  {
    assert b == a + (b - a);
    if a != b {
      var x :| x in b - a;
    }
  }

  /** Distinct names from the index never fill a table that a further indexed name must enter. */
  lemma Room(index: seq<Name>, s: seq<Name>)
    requires Distinct(s) && (forall x :: x in s ==> x in index)
    ensures |s| <= |index|
    ensures forall n :: n in index && n !in s ==> |s| < |index|
  {
    var all, some := set x | x in index, set x | x in s;
    SetOfDistinct(s);
    SetSize(index);
    SubsetSize(some, all);
    forall n | n in index && n !in s ensures |s| < |index| {
      assert n in all && n !in some;
    }
  }
}
