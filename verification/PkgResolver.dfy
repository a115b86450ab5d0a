// The depth-first dependency resolver: what it computes, and why that is right.

module PkgResolver {
  import opened Wrappers
  import opened PkgRepo

  datatype Error =
    | NotFound(name: Name)
    | NotInRepository(parent: Name, name: Name)
    | Malformed(name: Name, why: Meta)
    | Cycle(stack: seq<Name>, name: Name)

  datatype State = State(ok: bool, error: Option<Error>, plan: seq<Package>, visiting: seq<Name>, done: seq<Name>)

  datatype Loaded = Loaded(pkg: Package) | Failed(error: Error)

  function Load(repo: Repo, visiting: seq<Name>, name: Name): Loaded {
    if name !in repo.index then
      Failed(if visiting == [] then NotFound(name) else NotInRepository(visiting[|visiting| - 1], name))
    else
      match MetaOf(repo, name)
      case Valid(pkg) => Loaded(pkg)
      case NoModule => Failed(NotFound(name))
      case m => Failed(Malformed(name, m))
  }

  /** Appending to a table of fixed size: a full table stays as it is. */
  function Push<T>(s: seq<T>, x: T): seq<T> {
    if |s| < MAX_PACKAGES then s + [x] else s
  }

  function Pop<T>(s: seq<T>): seq<T> {
    if |s| > 0 then s[..|s| - 1] else s
  }

  predicate Bounded(repo: Repo, s: State) {
    && ValidRepo(repo)
    && Distinct(s.visiting) && (forall x :: x in s.visiting ==> x in repo.index)
    && Distinct(s.done) && (forall x :: x in s.done ==> x in repo.index)
    && (forall x :: x in s.visiting ==> x !in s.done)
    && |s.plan| == |s.done|
  }

  function Unvisited(repo: Repo, visiting: seq<Name>): set<Name> {
    set x | x in repo.index && x !in visiting
  }

  lemma EnterBounded(repo: Repo, s: State, name: Name)
    requires Bounded(repo, s) && name in repo.index && name !in s.visiting && name !in s.done
    ensures |s.visiting| < MAX_PACKAGES && Bounded(repo, s.(visiting := s.visiting + [name]))
    ensures |Unvisited(repo, s.visiting + [name])| < |Unvisited(repo, s.visiting)|
  {
    Room(repo.index, s.visiting);
    SubsetSize(Unvisited(repo, s.visiting + [name]), Unvisited(repo, s.visiting));
    assert name in Unvisited(repo, s.visiting) && name !in Unvisited(repo, s.visiting + [name]);
  }

  lemma LeaveBounded(repo: Repo, s: State, visiting: seq<Name>, name: Name, p: Package)
    requires Bounded(repo, s) && s.visiting == visiting + [name]
    ensures Pop(s.visiting) == visiting && Push(s.done, name) == s.done + [name] && Push(s.plan, p) == s.plan + [p]
    ensures Bounded(repo, s.(visiting := visiting, done := s.done + [name], plan := s.plan + [p]))
  {
    assert name in s.visiting;
    Room(repo.index, s.done);
    forall x | x in visiting ensures x in s.visiting && x != name {
      var i :| 0 <= i < |visiting| && visiting[i] == x;
      assert s.visiting[i] == x && s.visiting[|visiting|] == name;
    }
    forall i, j | 0 <= i < j < |visiting| ensures visiting[i] != visiting[j] {
      assert s.visiting[i] == visiting[i] && s.visiting[j] == visiting[j];
    }
  }

  function Leave(s: State, name: Name, p: Package): State {
    s.(visiting := Pop(s.visiting), done := Push(s.done, name), plan := Push(s.plan, p))
  }

  /** Visiting a name; `installed` only decides the reuse flag. */
  function Visit(repo: Repo, installed: set<Name>, s: State, name: Name): (r: State)
    requires Bounded(repo, s)
    ensures Bounded(repo, r) && r.visiting == s.visiting
    decreases |Unvisited(repo, s.visiting)|, 0
  {
    if !s.ok || name in s.done then s
    else if name in s.visiting then s.(ok := false, error := Some(Cycle(s.visiting, name)))
    else
      match Load(repo, s.visiting, name)
      case Failed(e) => s.(ok := false, error := Some(e))
      case Loaded(pkg) =>
        var p := pkg.(reused := name in installed);
        EnterBounded(repo, s, name);
        var inner := VisitAll(repo, installed, s.(visiting := Push(s.visiting, name)), p.deps, 0);
        LeaveBounded(repo, inner, s.visiting, name, p);
        Leave(inner, name, p)
  }

  function VisitAll(repo: Repo, installed: set<Name>, s: State, deps: seq<Name>, i: nat): (r: State)
    requires Bounded(repo, s) && i <= |deps|
    ensures Bounded(repo, r) && r.visiting == s.visiting
    decreases |Unvisited(repo, s.visiting)|, 1 + |deps| - i
  {
    if i == |deps| || !s.ok then s
    else VisitAll(repo, installed, Visit(repo, installed, s, deps[i]), deps, i + 1)
  }

  const FRESH: State := State(true, None, [], [], [])

  function Resolve(repo: Repo, installed: set<Name>, root: Name): (r: State)
    requires ValidRepo(repo)
    ensures Bounded(repo, r) && r.visiting == []
  {
    Visit(repo, installed, FRESH, root)
  }

  // ---- soundness of one visit ---------------------------------------------

  /** Every listed name is loadable and comes after all it depends on. */
  predicate Closed(repo: Repo, done: seq<Name>) {
    forall i :: 0 <= i < |done| ==> Placed(repo, done, i)
  }

  predicate Placed(repo: Repo, done: seq<Name>, i: nat)
    requires i < |done|
  {
    Loadable(repo, done[i]) && forall d :: d in PackageOf(repo, done[i]).deps ==> d in done[..i]
  }

  /** The plan lists, in the same order, the packages of the names that are done. */
  predicate Planned(repo: Repo, installed: set<Name>, s: State) {
    && |s.plan| == |s.done|
    && forall i :: 0 <= i < |s.done| ==>
      (Loadable(repo, s.done[i]) && s.plan[i] == PackageOf(repo, s.done[i]).(reused := s.done[i] in installed))
  }

  /** The visiting stack, with the name on top, is a dependency path from the root. */
  predicate OnStack(repo: Repo, root: Name, visiting: seq<Name>, name: Name) {
    Leads(repo, visiting + [name], root, name)
  }

  ghost predicate Partial(repo: Repo, installed: set<Name>, root: Name, s: State) {
    && Bounded(repo, s) && s.ok && s.error == None
    && Closed(repo, s.done) && Planned(repo, installed, s)
    && forall x :: x in s.done ==> Reach(repo, root, x)
  }

  /** The error names something the root really reaches. */
  ghost predicate Genuine(repo: Repo, root: Name, e: Error) {
    match e
    case NotFound(n) => if n in repo.index then Reach(repo, root, n) && MetaOf(repo, n) == NoModule else n == root
    case NotInRepository(parent, n) => Reach(repo, root, parent) && Edge(repo, parent, n) && n !in repo.index
    case Malformed(n, why) => Reach(repo, root, n) && n in repo.index && MetaOf(repo, n) == why && !why.Valid? && !why.NoModule?
    case Cycle(stack, n) => n in stack && Leads(repo, stack + [n], root, n)
  }

  /** What a visit does to a partial resolution. */
  ghost predicate Visited(repo: Repo, installed: set<Name>, root: Name, s: State, r: State) {
    if r.ok then Partial(repo, installed, root, r) && s.done <= r.done
    else r.error.Some? && Genuine(repo, root, r.error.value)
  }

  lemma VisitedThen(repo: Repo, installed: set<Name>, root: Name, s: State, mid: State, r: State)
    requires mid.ok && Visited(repo, installed, root, s, mid) && Visited(repo, installed, root, mid, r)
    ensures Visited(repo, installed, root, s, r)
  {
  }

  lemma LoadFails(repo: Repo, root: Name, visiting: seq<Name>, name: Name)
    requires OnStack(repo, root, visiting, name) && Load(repo, visiting, name).Failed?
    ensures Genuine(repo, root, Load(repo, visiting, name).error)
  {
    assert Reach(repo, root, name);
    if name !in repo.index && visiting != [] {
      var path := visiting + [name];
      var parent := visiting[|visiting| - 1];
      assert path[|visiting| - 1] == parent && path[|visiting|] == name;
      PathPart(repo, path, 0, |visiting|);
      assert path[0..|visiting|] == visiting;
      assert Leads(repo, visiting, root, parent);
    }
  }

  lemma PushOnStack(repo: Repo, root: Name, visiting: seq<Name>, name: Name, dep: Name)
    requires OnStack(repo, root, visiting, name) && Edge(repo, name, dep)
    ensures OnStack(repo, root, visiting + [name], dep)
  {
    var path := visiting + [name];
    var longer := path + [dep];
    forall i | 0 <= i < |longer| - 1 ensures Edge(repo, longer[i], longer[i + 1]) {
      if i < |path| - 1 {
        assert longer[i] == path[i] && longer[i + 1] == path[i + 1];
      }
    }
  }

  lemma {:induction false} VisitSound(repo: Repo, installed: set<Name>, root: Name, s: State, name: Name)
    requires Partial(repo, installed, root, s) && OnStack(repo, root, s.visiting, name)
    ensures var r := Visit(repo, installed, s, name);
      Visited(repo, installed, root, s, r) && (r.ok ==> name in r.done)
    decreases |Unvisited(repo, s.visiting)|, 0
  {
    if name in s.done {
    } else if name in s.visiting {
    } else if Load(repo, s.visiting, name).Failed? {
      LoadFails(repo, root, s.visiting, name);
    } else {
      var p := PackageOf(repo, name).(reused := name in installed);
      EnterBounded(repo, s, name);
      var entered := s.(visiting := s.visiting + [name]);
      VisitAllSound(repo, installed, root, s.visiting, name, entered, 0);
      var inner := VisitAll(repo, installed, entered, p.deps, 0);
      LeaveBounded(repo, inner, s.visiting, name, p);
      if inner.ok {
        LeaveSound(repo, installed, root, inner, s.visiting, name);
      }
    }
  }

  /** The dependencies of `name` from the i-th on, the earlier ones being done. */
  lemma {:induction false} VisitAllSound(repo: Repo, installed: set<Name>, root: Name, below: seq<Name>, name: Name, s: State, i: nat)
    requires Loadable(repo, name) && i <= |PackageOf(repo, name).deps|
    requires Partial(repo, installed, root, s) && s.visiting == below + [name] && OnStack(repo, root, below, name)
    requires forall j :: 0 <= j < i ==> PackageOf(repo, name).deps[j] in s.done
    ensures var deps := PackageOf(repo, name).deps;
      var r := VisitAll(repo, installed, s, deps, i);
      Visited(repo, installed, root, s, r) && (r.ok ==> forall d :: d in deps ==> d in r.done)
    decreases |Unvisited(repo, s.visiting)|, 1 + |PackageOf(repo, name).deps| - i
  {
    var deps := PackageOf(repo, name).deps;
    if i < |deps| {
      PushOnStack(repo, root, below, name, deps[i]);
      VisitSound(repo, installed, root, s, deps[i]);
      var mid := Visit(repo, installed, s, deps[i]);
      if mid.ok {
        VisitAllSound(repo, installed, root, below, name, mid, i + 1);
        VisitedThen(repo, installed, root, s, mid, VisitAll(repo, installed, mid, deps, i + 1));
      }
    }
  }

  lemma LeaveSound(repo: Repo, installed: set<Name>, root: Name, inner: State, below: seq<Name>, name: Name)
    requires Partial(repo, installed, root, inner) && inner.visiting == below + [name]
    requires OnStack(repo, root, below, name) && Loadable(repo, name)
    requires forall d :: d in PackageOf(repo, name).deps ==> d in inner.done
    ensures Partial(repo, installed, root, Leave(inner, name, PackageOf(repo, name).(reused := name in installed)))
    ensures inner.done + [name] == Leave(inner, name, PackageOf(repo, name).(reused := name in installed)).done
  {
    var p := PackageOf(repo, name).(reused := name in installed);
    LeaveBounded(repo, inner, below, name, p);
    var done := inner.done + [name];
    assert Reach(repo, root, name);
    forall i | 0 <= i < |done| ensures Placed(repo, done, i) {
      if i < |inner.done| {
        assert Placed(repo, inner.done, i) && done[..i] == inner.done[..i];
      } else {
        assert done[..i] == inner.done;
      }
    }
  }

  // ---- the main results about resolution ----------------------------------

  lemma ResolveSound(repo: Repo, installed: set<Name>, root: Name)
    requires ValidRepo(repo)
    ensures var r := Resolve(repo, installed, root);
      Visited(repo, installed, root, FRESH, r) && (r.ok ==> root in r.done)
  {
    assert Leads(repo, [] + [root], root, root);
    VisitSound(repo, installed, root, FRESH, root);
  }

  /** A closed list holds everything its members lead to. */
  lemma {:induction false} ClosedHolds(repo: Repo, done: seq<Name>, p: seq<Name>, a: Name, b: Name)
    requires Closed(repo, done) && a in done && Leads(repo, p, a, b)
    ensures b in done
    decreases |p|
  {
    if |p| > 1 {
      var init := p[..|p| - 1];
      assert Edge(repo, p[|p| - 2], p[|p| - 2 + 1]);
      assert Leads(repo, init, a, init[|init| - 1]);
      ClosedHolds(repo, done, init, a, init[|init| - 1]);
      var i :| 0 <= i < |done| && done[i] == p[|p| - 2];
      assert Placed(repo, done, i);
    }
  }

  /** Along a path, positions in a closed list of distinct names go down. */
  lemma {:induction false} ClosedDescends(repo: Repo, done: seq<Name>, p: seq<Name>, i: nat, j: nat)
    requires Closed(repo, done) && Distinct(done) && IsPath(repo, p)
    requires i < |done| && j < |done| && done[i] == p[0] && done[j] == p[|p| - 1]
    ensures j <= i && (|p| > 1 ==> j < i)
    decreases |p|
  {
    if |p| == 1 {
      assert done[i] == done[j];
    } else {
      assert Edge(repo, p[0], p[0 + 1]);
      assert Placed(repo, done, i);
      assert p[1] in done[..i];
      var k :| 0 <= k < i && done[..i][k] == p[1];
      PathPart(repo, p, 1, |p|);
      assert p[1..][|p| - 2] == p[|p| - 1];
      ClosedDescends(repo, done, p[1..], k, j);
    }
  }

  lemma ClosedResolvable(repo: Repo, done: seq<Name>, root: Name)
    requires Closed(repo, done) && Distinct(done) && root in done
    ensures Resolvable(repo, root)
    ensures forall b :: Reach(repo, root, b) ==> b in done
  {
    forall b | Reach(repo, root, b) ensures b in done && Loadable(repo, b) {
      var p :| Leads(repo, p, root, b);
      ClosedHolds(repo, done, p, root, b);
      var i :| 0 <= i < |done| && done[i] == b;
      assert Placed(repo, done, i);
    }
    forall p | |p| >= 2 && IsPath(repo, p) && p[0] == p[|p| - 1] ensures !Reach(repo, root, p[0]) {
      if p[0] in done {
        var i :| 0 <= i < |done| && done[i] == p[0];
        ClosedNotCyclic(repo, done, p, i);
      }
    }
  }

  lemma ClosedNotCyclic(repo: Repo, done: seq<Name>, p: seq<Name>, i: nat)
    requires Closed(repo, done) && Distinct(done) && IsPath(repo, p) && i < |done| && done[i] == p[0] && |p| >= 2
    ensures p[0] != p[|p| - 1]
  {
    if p[0] == p[|p| - 1] {
      ClosedDescends(repo, done, p, i, i);
      assert false;
    }
  }

  /** A genuine error is a reason why the root cannot be resolved. */
  lemma GenuineUnresolvable(repo: Repo, root: Name, e: Error)
    requires Genuine(repo, root, e)
    ensures !Resolvable(repo, root)
  {
    match e
    case NotFound(n) => ReachSelf(repo, root);
    case NotInRepository(parent, n) => ReachEdge(repo, root, parent, n);
    case Malformed(n, _) =>
    case Cycle(stack, n) =>
      var path := stack + [n];
      var i :| 0 <= i < |stack| && stack[i] == n;
      var loop := path[i..];
      PathPart(repo, path, i, |path|);
      PathPart(repo, path, 0, i + 1);
      assert path[i..|path|] == loop;
      assert Leads(repo, path[0..i + 1], root, n);
      assert |loop| >= 2 && IsPath(repo, loop) && loop[0] == loop[|loop| - 1] && Reach(repo, root, loop[0]);
  }

  /** Resolution succeeds exactly when everything the root reaches can be loaded and no cycle is
      reached; when it fails, the error is a real reason, a cycle error a real path that closes. */
  lemma ResolveExact(repo: Repo, installed: set<Name>, root: Name)
    requires ValidRepo(repo)
    ensures var r := Resolve(repo, installed, root);
      && (r.ok <==> Resolvable(repo, root))
      && (!r.ok ==> r.error.Some? && Genuine(repo, root, r.error.value))
  {
    var r := Resolve(repo, installed, root);
    ResolveSound(repo, installed, root);
    if r.ok {
      ClosedResolvable(repo, r.done, root);
    } else {
      GenuineUnresolvable(repo, root, r.error.value);
    }
  }

  /** On success the plan lists exactly what the root reaches, each name once, every dependency
      before its dependents and the root last, with the package each name stands for. */
  lemma PlanExact(repo: Repo, installed: set<Name>, root: Name)
    requires ValidRepo(repo) && Resolve(repo, installed, root).ok
    ensures var r := Resolve(repo, installed, root);
      && (forall b :: b in r.done <==> Reach(repo, root, b))
      && Distinct(r.done) && Closed(repo, r.done) && Planned(repo, installed, r)
      && r.done != [] && r.done[|r.done| - 1] == root && |r.plan| <= MAX_PACKAGES
  {
    var r := Resolve(repo, installed, root);
    ResolveSound(repo, installed, root);
    ClosedResolvable(repo, r.done, root);
    Room(repo.index, r.done);
    RootLast(repo, installed, root);
  }

  lemma RootLast(repo: Repo, installed: set<Name>, root: Name)
    requires ValidRepo(repo) && Resolve(repo, installed, root).ok
    ensures var r := Resolve(repo, installed, root); r.done != [] && r.done[|r.done| - 1] == root
  {
    var p := PackageOf(repo, root).(reused := root in installed);
    EnterBounded(repo, FRESH, root);
    var entered := FRESH.(visiting := [] + [root]);
    var inner := VisitAll(repo, installed, entered, p.deps, 0);
    assert entered.visiting == Push(FRESH.visiting, root);
    LeaveBounded(repo, inner, [], root, p);
  }

  // ---- the reuse flag is the only trace of what is installed --------------

  function Plain(p: Package): Package { p.(reused := false) }

  function PlainAll(ps: seq<Package>): seq<Package> {
    seq(|ps|, i requires 0 <= i < |ps| => Plain(ps[i]))
  }

  predicate Alike(s: State, t: State) {
    && s.ok == t.ok && s.error == t.error && s.visiting == t.visiting && s.done == t.done
    && PlainAll(s.plan) == PlainAll(t.plan)
  }

  lemma PlainPush(ps: seq<Package>, p: Package)
    ensures PlainAll(ps + [p]) == PlainAll(ps) + [Plain(p)]
  {
  }

  lemma {:induction false} VisitAlike(repo: Repo, a: set<Name>, b: set<Name>, s: State, t: State, name: Name)
    requires Bounded(repo, s) && Bounded(repo, t) && Alike(s, t)
    ensures Alike(Visit(repo, a, s, name), Visit(repo, b, t, name))
    decreases |Unvisited(repo, s.visiting)|, 0
  {
    if s.ok && name !in s.done && name !in s.visiting && Load(repo, s.visiting, name).Loaded? {
      var pkg := PackageOf(repo, name);
      EnterBounded(repo, s, name);
      EnterBounded(repo, t, name);
      var s1, t1 := s.(visiting := s.visiting + [name]), t.(visiting := t.visiting + [name]);
      VisitAllAlike(repo, a, b, s1, t1, pkg.deps, 0);
      var s2, t2 := VisitAll(repo, a, s1, pkg.deps, 0), VisitAll(repo, b, t1, pkg.deps, 0);
      LeaveBounded(repo, s2, s.visiting, name, pkg.(reused := name in a));
      LeaveBounded(repo, t2, t.visiting, name, pkg.(reused := name in b));
      PlainPush(s2.plan, pkg.(reused := name in a));
      PlainPush(t2.plan, pkg.(reused := name in b));
    }
  }

  lemma {:induction false} VisitAllAlike(repo: Repo, a: set<Name>, b: set<Name>, s: State, t: State, deps: seq<Name>, i: nat)
    requires Bounded(repo, s) && Bounded(repo, t) && Alike(s, t) && i <= |deps|
    ensures Alike(VisitAll(repo, a, s, deps, i), VisitAll(repo, b, t, deps, i))
    decreases |Unvisited(repo, s.visiting)|, 1 + |deps| - i
  {
    if i < |deps| && s.ok {
      VisitAlike(repo, a, b, s, t, deps[i]);
      VisitAllAlike(repo, a, b, Visit(repo, a, s, deps[i]), Visit(repo, b, t, deps[i]), deps, i + 1);
    }
  }

  lemma ResolveAlike(repo: Repo, a: set<Name>, b: set<Name>, root: Name)
    requires ValidRepo(repo)
    ensures Alike(Resolve(repo, a, root), Resolve(repo, b, root))
  {
    VisitAlike(repo, a, b, FRESH, FRESH, root);
  }
}
