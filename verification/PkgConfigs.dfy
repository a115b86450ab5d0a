// The two generated sandbox configurations: which packages they start, in which
// order, and which services they offer.

module PkgConfigs {
  import opened Wrappers
  import opened PkgRepo
  import opened PkgResolver
  import opened PkgInstalled
  import opened PkgDaemon
  import opened PkgTheorems

  // ---- byte order of names ------------------------------------------------

  predicate Less(a: string, b: string) {
    if b == "" then false
    else if a == "" then true
    else if a[0] != b[0] then a[0] < b[0]
    else Less(a[1..], b[1..])
  }

  lemma {:induction false} LessTotal(a: string, b: string)
    ensures Less(a, b) || a == b || Less(b, a)
    ensures !(Less(a, b) && Less(b, a)) && !Less(a, a)
    decreases a
  {
    if a != "" {
      LessTotal(a[1..], a[1..]);
      if b != "" {
        LessTotal(a[1..], b[1..]);
        assert a == [a[0]] + a[1..] && b == [b[0]] + b[1..];
      }
    }
  }

  lemma {:induction false} LessTransitive(a: string, b: string, c: string)
    requires Less(a, b) && Less(b, c)
    ensures Less(a, c)
    decreases a
  {
    if a != "" && a[0] == b[0] == c[0] {
      LessTransitive(a[1..], b[1..], c[1..]);
    }
  }

  /** No name is below one that stands before it. */
  predicate Ascending(names: seq<string>) {
    forall i, j :: 0 <= i < j < |names| ==> !Less(names[j], names[i])
  }

  predicate StrictlyAscending(names: seq<string>) {
    forall i, j :: 0 <= i < j < |names| ==> Less(names[i], names[j])
  }

  lemma DistinctAscending(names: seq<string>)
    requires Distinct(names) && Ascending(names)
    ensures StrictlyAscending(names)
  {
    forall i, j | 0 <= i < j < |names| ensures Less(names[i], names[j]) {
      LessTotal(names[i], names[j]);
    }
  }

  // ---- the selection sort -------------------------------------------------

  /** A list of all the indices below `n`, each once. */
  predicate Permutation(order: seq<nat>, n: nat) {
    |order| == n && Distinct(order) && forall x :: x in order ==> x < n
  }

  function Pick(names: seq<string>, order: seq<nat>): seq<string>
    requires forall x :: x in order ==> x < |names|
  {
    seq(|order|, i requires 0 <= i < |order| => assert order[i] in order; names[order[i]])
  }

  /** The first `i` places hold the least names, in order. */
  predicate SortedTo(names: seq<string>, order: seq<nat>, i: nat)
    requires Permutation(order, |names|)
  {
    forall a, b :: 0 <= a < i && a < b < |order| ==> !Less(Pick(names, order)[b], Pick(names, order)[a])
  }

  lemma SwapKeeps(order: seq<nat>, n: nat, i: nat, j: nat)
    requires Permutation(order, n) && i < n && j < n
    ensures Permutation(order[i := order[j]][j := order[i]], n)
  {
    var swapped := order[i := order[j]][j := order[i]];
    forall k | 0 <= k < n ensures swapped[k] in order {
    }
  }

  lemma SwapSorts(names: seq<string>, order: seq<nat>, i: nat, best: nat)
    requires Permutation(order, |names|) && i <= best < |order| && SortedTo(names, order, i)
    requires forall b :: i <= b < |order| ==> !Less(Pick(names, order)[b], Pick(names, order)[best])
    ensures Permutation(order[i := order[best]][best := order[i]], |names|)
    ensures SortedTo(names, order[i := order[best]][best := order[i]], i + 1)
    ensures multiset(Pick(names, order[i := order[best]][best := order[i]])) == multiset(Pick(names, order))
  {
    var swapped := order[i := order[best]][best := order[i]];
    SwapKeeps(order, |names|, i, best);
    var p, q := Pick(names, order), Pick(names, swapped);
    assert q == p[i := p[best]][best := p[i]];
  }

  /** The place of a least name from place `i` on. */
  method Least(names: seq<string>, order: array<nat>, i: nat) returns (best: nat)
    requires Permutation(order[..], |names|) && i < order.Length
    ensures i <= best < order.Length
    ensures forall b :: i <= b < order.Length ==> !Less(Pick(names, order[..])[b], Pick(names, order[..])[best])
  {
    ghost var p := Pick(names, order[..]);
    best := i;
    LessTotal(p[i], p[i]);
    for j := i + 1 to order.Length
      invariant i <= best < j <= order.Length
      invariant forall b :: i <= b < j ==> !Less(p[b], p[best])
    {
      assert order[..][j] in order[..] && order[..][best] in order[..];
      assert p[j] == names[order[j]] && p[best] == names[order[best]];
      if Less(names[order[j]], names[order[best]]) {
        LeastStep(p, i, j, best);
        best := j;
      }
    }
  }

  lemma LeastStep(p: seq<string>, i: nat, j: nat, best: nat)
    requires i <= best < j < |p| && Less(p[j], p[best])
    requires forall b :: i <= b < j ==> !Less(p[b], p[best])
    ensures forall b :: i <= b <= j ==> !Less(p[b], p[j])
  {
    LessTotal(p[j], p[j]);
    forall b | i <= b < j ensures !Less(p[b], p[j]) {
      if Less(p[b], p[j]) {
        LessTransitive(p[b], p[j], p[best]);
      }
    }
  }

  method SortByName(names: seq<string>) returns (order: array<nat>)
    ensures fresh(order) && Permutation(order[..], |names|) && Ascending(Pick(names, order[..]))
    ensures multiset(Pick(names, order[..])) == multiset(names)
  {
    var n := |names|;
    order := new nat[n](i => i);
    assert Permutation(order[..], n) && Pick(names, order[..]) == names;
    for i := 0 to n
      invariant Permutation(order[..], n) && SortedTo(names, order[..], i)
      invariant multiset(Pick(names, order[..])) == multiset(names)
    {
      var best := Least(names, order, i);
      ghost var before := order[..];
      SwapSorts(names, before, i, best);
      if best != i {
        var tmp := order[i];
        order[i] := order[best];
        order[best] := tmp;
      }
      assert order[..] == before[i := before[best]][best := before[i]];
    }
  }

  // ---- start nodes --------------------------------------------------------

  /** `child` is None for a route to the parent. */
  datatype Route = Route(service: string, tag: string, child: Option<string>)

  datatype Start = Start(name: Name, caps: nat, binary: Option<string>, ram: string, config: string, routes: seq<Route>)

  const OUTER: seq<string> := ["parent", "nitpicker", "vfs", "event_filter", "wm", "report_rom", "timer", "input_drv"]

  function RouteOf(pkg: Name, s: Session): Route {
    Route(s.service,
          if s.tag != "" then s.tag else if s.readOnly && s.service == "File_system" then pkg + "-ro" else "",
          if s.route == "" || s.route in OUTER then None else Some(s.route))
  }

  function StartOf(prefix: string, p: Package): Start {
    Start(p.name, p.caps, if prefix + p.binary != p.name then Some(prefix + p.binary) else None, p.ram, p.config,
          seq(|p.sessions|, i requires 0 <= i < |p.sessions| => RouteOf(p.name, p.sessions[i])))
  }

  function StartNames(starts: seq<Start>): seq<Name> {
    seq(|starts|, i requires 0 <= i < |starts| => starts[i].name)
  }

  predicate Emits(p: Package, running: seq<Name>, drivers: bool) {
    p.driver == drivers && p.name in running
  }

  /** The start nodes of a sandbox: in strict name order, one for each running package of the kind. */
  ghost predicate IsStarts(prefix: string, ps: seq<Package>, running: seq<Name>, drivers: bool, starts: seq<Start>) {
    && StrictlyAscending(StartNames(starts))
    && (forall s :: s in starts ==> Emitted(prefix, ps, running, drivers, s))
    && (forall p :: p in ps && Emits(p, running, drivers) ==> StartOf(prefix, p) in starts)
  }

  ghost predicate Emitted(prefix: string, ps: seq<Package>, running: seq<Name>, drivers: bool, s: Start) {
    exists p :: p in ps && Emits(p, running, drivers) && s == StartOf(prefix, p)
  }

  function Select(prefix: string, ps: seq<Package>, running: seq<Name>, drivers: bool): seq<Start> {
    if ps == [] then [] else
      var init, last := Select(prefix, ps[..|ps| - 1], running, drivers), ps[|ps| - 1];
      if Emits(last, running, drivers) then init + [StartOf(prefix, last)] else init
  }

  lemma {:induction false} SelectExact(prefix: string, ps: seq<Package>, running: seq<Name>, drivers: bool)
    requires StrictlyAscending(NamesOf(ps))
    ensures IsStarts(prefix, ps, running, drivers, Select(prefix, ps, running, drivers))
    decreases |ps|
  {
    if ps != [] {
      var init, last := ps[..|ps| - 1], ps[|ps| - 1];
      assert NamesOf(init) == NamesOf(ps)[..|init|];
      SelectExact(prefix, init, running, drivers);
      assert ps == init + [last];
      var a, r := Select(prefix, init, running, drivers), Select(prefix, ps, running, drivers);
      forall s | s in a ensures Less(s.name, last.name) && Emitted(prefix, ps, running, drivers, s) {
        var p :| p in init && Emits(p, running, drivers) && s == StartOf(prefix, p);
        var i :| 0 <= i < |init| && init[i] == p;
        assert NamesOf(ps)[i] == p.name && NamesOf(ps)[|init|] == last.name;
      }
      assert last in ps;
      forall i, j | 0 <= i < j < |r| ensures Less(StartNames(r)[i], StartNames(r)[j]) {
        assert r[i] in a;
        if j < |a| {
          assert StartNames(a)[i] == r[i].name && StartNames(a)[j] == r[j].name;
        }
      }
    }
  }

  function PickPackages(ps: seq<Package>, order: seq<nat>): seq<Package>
    requires forall x :: x in order ==> x < |ps|
  {
    seq(|order|, i requires 0 <= i < |order| => assert order[i] in order; ps[order[i]])
  }

  lemma PickNames(ps: seq<Package>, order: seq<nat>)
    requires Permutation(order, |ps|)
    ensures NamesOf(PickPackages(ps, order)) == Pick(NamesOf(ps), order)
    ensures Distinct(NamesOf(ps)) ==> Distinct(Pick(NamesOf(ps), order))
  {
    var names := Pick(NamesOf(ps), order);
    forall i | 0 <= i < |order| ensures order[i] < |ps| {
      assert order[i] in order;
    }
    forall i | 0 <= i < |order| ensures names[i] == NamesOf(ps)[order[i]] == PickPackages(ps, order)[i].name {
      assert order[i] in order;
    }
    if Distinct(NamesOf(ps)) {
      forall i, j | 0 <= i < j < |names| ensures names[i] != names[j] {
        assert order[i] in order && order[j] in order;
        assert names[i] == NamesOf(ps)[order[i]] && names[j] == NamesOf(ps)[order[j]];
      }
    }
  }

  /** A permutation lists every package. */
  lemma PickAll(ps: seq<Package>, order: seq<nat>)
    requires Permutation(order, |ps|)
    ensures forall p :: p in PickPackages(ps, order) <==> p in ps
  {
    var sorted := PickPackages(ps, order);
    forall p | p in ps ensures p in sorted {
      var i :| 0 <= i < |ps| && ps[i] == p;
      PermutationCovers(order, |ps|, i);
      var k :| 0 <= k < |order| && order[k] == i;
      assert sorted[k] == p;
    }
    forall p | p in sorted ensures p in ps {
      var k :| 0 <= k < |sorted| && sorted[k] == p;
      assert order[k] in order;
    }
  }

  lemma PermutationCovers(order: seq<nat>, n: nat, i: nat)
    requires Permutation(order, n) && i < n
    ensures i in order
  {
    var some := set x | x in order;
    SetOfDistinct(order);
    BelowExact(n);
    SubsetSize(some, Below(n));
    assert i in Below(n);
  }

  function Below(n: nat): set<nat> {
    if n == 0 then {} else Below(n - 1) + {n - 1}
  }

  lemma {:induction false} BelowExact(n: nat)
    ensures |Below(n)| == n && forall x: nat :: x in Below(n) <==> x < n
    decreases n
  {
    if n > 0 {
      BelowExact(n - 1);
    }
  }

  /** Emitting one sandbox's start nodes from the installed list. */
  method EmitStarts(prefix: string, ps: seq<Package>, running: seq<Name>, drivers: bool) returns (starts: seq<Start>)
    requires Distinct(NamesOf(ps))
    ensures IsStarts(prefix, ps, running, drivers, starts)
  {
    var order := SortByName(NamesOf(ps));
    ghost var sorted := PickPackages(ps, order[..]);
    PickNames(ps, order[..]);
    PickAll(ps, order[..]);
    DistinctAscending(NamesOf(sorted));
    starts := [];
    for n := 0 to |ps|
      invariant starts == Select(prefix, sorted[..n], running, drivers)
    {
      assert order[n] in order[..];
      assert sorted[..n + 1][..n] == sorted[..n];
      var c := ps[order[n]];
      assert c == sorted[n];
      if c.driver != drivers {
        continue;
      }
      if c.name !in running {
        continue;
      }
      starts := starts + [StartOf(prefix, c)];
    }
    assert sorted[..|ps|] == sorted;
    SelectExact(prefix, sorted, running, drivers);
    SameStarts(prefix, sorted, ps, running, drivers, starts);
  }

  lemma SameStarts(prefix: string, a: seq<Package>, b: seq<Package>, running: seq<Name>, drivers: bool, starts: seq<Start>)
    requires IsStarts(prefix, a, running, drivers, starts) && forall p :: p in a <==> p in b
    ensures IsStarts(prefix, b, running, drivers, starts)
  {
    forall s | s in starts ensures Emitted(prefix, b, running, drivers, s) {
      assert Emitted(prefix, a, running, drivers, s);
    }
  }

  // ---- the configurations are canonical -----------------------------------

  lemma AscendingDrop(starts: seq<Start>)
    requires starts != [] && StrictlyAscending(StartNames(starts))
    ensures var init, last := starts[..|starts| - 1], starts[|starts| - 1];
      StrictlyAscending(StartNames(init)) && forall s :: s in init ==> Less(s.name, last.name)
  {
    var init, last := starts[..|starts| - 1], starts[|starts| - 1];
    assert StartNames(init) == StartNames(starts)[..|init|];
    forall s | s in init ensures Less(s.name, last.name) {
      var i :| 0 <= i < |init| && init[i] == s;
      assert StartNames(starts)[i] == s.name && StartNames(starts)[|init|] == last.name;
    }
  }

  /** A strictly ascending list is determined by its elements. */
  lemma {:induction false} AscendingUnique(a: seq<Start>, b: seq<Start>)
    requires StrictlyAscending(StartNames(a)) && StrictlyAscending(StartNames(b))
    requires forall s :: s in a <==> s in b
    ensures a == b
    decreases |a|
  {
    if a == [] {
      SomeMember(b);
    } else {
      assert a[0] in a;
      AscendingDrop(a);
      AscendingDrop(b);
      var x, y := a[|a| - 1], b[|b| - 1];
      assert x in b && y in a;
      LessTotal(x.name, y.name);
      var a0, b0 := a[..|a| - 1], b[..|b| - 1];
      assert a == a0 + [x] && b == b0 + [y];
      assert x == y;
      LessTotal(x.name, x.name);
      assert x !in a0 && x !in b0;
      forall s ensures s in a0 <==> s in b0 {
        assert s in a <==> s in a0 || s == x;
        assert s in b <==> s in b0 || s == x;
      }
      AscendingUnique(a0, b0);
    }
  }

  lemma EmittedAlike(repo: Repo, prefix: string, ps: seq<Package>, qs: seq<Package>, r: seq<Name>, t: seq<Name>, drivers: bool, s: Start)
    requires Sound(repo, ps) && Sound(repo, qs)
    requires (forall n :: n in NamesOf(ps) <==> n in NamesOf(qs)) && (forall n :: n in r <==> n in t)
    requires Emitted(prefix, ps, r, drivers, s)
    ensures Emitted(prefix, qs, t, drivers, s)
  {
    var p :| p in ps && Emits(p, r, drivers) && s == StartOf(prefix, p);
    var i :| 0 <= i < |ps| && ps[i] == p;
    assert NamesOf(ps)[i] == p.name;
    var q := Lookup(qs, p.name);
    SamePackage(repo, ps, qs, p, q);
    assert StartOf(prefix, Plain(p)) == StartOf(prefix, p) && StartOf(prefix, Plain(q)) == StartOf(prefix, q);
    assert Plain(p).driver == p.driver && Plain(q).driver == q.driver;
  }

  /** The start nodes depend only on which packages are installed and which are running, not on the
      order or the history that led there. */
  lemma StartsCanonical(repo: Repo, prefix: string, ps: seq<Package>, qs: seq<Package>, r: seq<Name>, t: seq<Name>, drivers: bool, a: seq<Start>, b: seq<Start>)
    requires Sound(repo, ps) && Sound(repo, qs)
    requires (forall n :: n in NamesOf(ps) <==> n in NamesOf(qs)) && (forall n :: n in r <==> n in t)
    requires IsStarts(prefix, ps, r, drivers, a) && IsStarts(prefix, qs, t, drivers, b)
    ensures a == b
  {
    forall s ensures s in a <==> s in b {
      if s in a {
        EmittedAlike(repo, prefix, ps, qs, r, t, drivers, s);
      }
      if s in b {
        EmittedAlike(repo, prefix, qs, ps, t, r, drivers, s);
      }
    }
    AscendingUnique(a, b);
  }

  /** Every running package is started in exactly one of the two configurations. */
  lemma StartedOnce(repo: Repo, prefix: string, d: Daemon, apps: seq<Start>, drivers: seq<Start>, n: Name)
    requires ValidRepo(repo) && Honest(repo) && Inv(repo, d)
    requires IsStarts(prefix, d.installed, d.running, false, apps) && IsStarts(prefix, d.installed, d.running, true, drivers)
    ensures n in d.running <==> n in StartNames(apps) || n in StartNames(drivers)
    ensures !(n in StartNames(apps) && n in StartNames(drivers))
  {
    InstalledExact(repo, d);
    if n in d.running {
      var p := Lookup(d.installed, n);
      var starts := if p.driver then drivers else apps;
      assert Emits(p, d.running, p.driver) && StartOf(prefix, p) in starts;
      var i :| 0 <= i < |starts| && starts[i] == StartOf(prefix, p);
      assert StartNames(starts)[i] == n;
    }
    if n in StartNames(apps) {
      var p := StartedPackage(prefix, d, false, apps, n);
      if n in StartNames(drivers) {
        var q := StartedPackage(prefix, d, true, drivers, n);
        SameKind(repo, d.installed, p, q);
      }
    } else if n in StartNames(drivers) {
      var q := StartedPackage(prefix, d, true, drivers, n);
    }
  }

  lemma SameKind(repo: Repo, ps: seq<Package>, p: Package, q: Package)
    requires Sound(repo, ps) && p in ps && q in ps && p.name == q.name
    ensures p.driver == q.driver
  {
    SamePackage(repo, ps, ps, p, q);
    assert Plain(p).driver == p.driver && Plain(q).driver == q.driver;
  }

  lemma StartedPackage(prefix: string, d: Daemon, drivers: bool, starts: seq<Start>, n: Name) returns (p: Package)
    requires IsStarts(prefix, d.installed, d.running, drivers, starts) && n in StartNames(starts)
    ensures p in d.installed && p.name == n && p.driver == drivers && n in d.running
  {
    var i :| 0 <= i < |starts| && starts[i].name == n;
    assert starts[i] in starts;
    p :| p in d.installed && Emits(p, d.running, drivers) && starts[i] == StartOf(prefix, p);
  }
}
