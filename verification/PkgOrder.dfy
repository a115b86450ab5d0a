// The order of plans and of the installed list: a package comes after the plans of its dependencies,
// in the order in which it declares them.

module PkgOrder {
  import opened Wrappers
  import opened PkgRepo
  import opened PkgResolver
  import opened PkgInstalled
  import opened PkgDaemon

  // ---- lists of names without those of another ----------------------------

  lemma {:induction false} MinusConcat(a: seq<Name>, b: seq<Name>, c: seq<Name>)
    ensures Minus(a + b, c) == Minus(a, c) + Minus(b, c)
    decreases |b|
  {
    if b == [] {
      assert a + b == a;
    } else {
      var whole := a + b;
      assert whole[..|whole| - 1] == a + b[..|b| - 1];
      MinusConcat(a, b[..|b| - 1], c);
    }
  }

  lemma {:induction false} MinusTwice(a: seq<Name>, b: seq<Name>, c: seq<Name>, d: seq<Name>)
    requires forall n :: n in d <==> n in b || n in c
    ensures Minus(Minus(a, b), c) == Minus(a, d)
    decreases |a|
  {
    if a != [] {
      MinusTwice(a[..|a| - 1], b, c, d);
      var n := a[|a| - 1];
      if n !in b {
        var longer := Minus(a[..|a| - 1], b) + [n];
        assert longer[..|longer| - 1] == Minus(a[..|a| - 1], b);
      }
    }
  }

  lemma {:induction false} MinusAll(a: seq<Name>, b: seq<Name>)
    requires forall n :: n in a ==> n in b
    ensures Minus(a, b) == []
    decreases |a|
  {
    if a != [] {
      MinusAll(a[..|a| - 1], b);
    }
  }

  lemma {:induction false} MinusNone(a: seq<Name>, b: seq<Name>)
    requires forall n :: n in a ==> n !in b
    ensures Minus(a, b) == a
    decreases |a|
  {
    if a != [] {
      MinusNone(a[..|a| - 1], b);
    }
  }

  lemma {:induction false} MinusMembers(a: seq<Name>, b: seq<Name>)
    ensures forall n :: n in Minus(a, b) <==> n in a && n !in b
    decreases |a|
  {
    if a != [] {
      MinusMembers(a[..|a| - 1], b);
      assert a == a[..|a| - 1] + [a[|a| - 1]];
    }
  }

  /** Adding what is new of `more` to `base`, on top of a list that it holds already. */
  lemma Rebase(base: seq<Name>, e: seq<Name>, more: seq<Name>)
    ensures var s := base + Minus(e, base); s + Minus(more, s) == base + Minus(e + Minus(more, e), base)
  {
    var s := base + Minus(e, base);
    MinusMembers(e, base);
    MinusConcat(e, Minus(more, e), base);
    MinusTwice(more, e, base, s);
  }

  // ---- the order of a plan ------------------------------------------------

  /** The names of the plan for a package, in order. */
  function PlanNames(repo: Repo, n: Name): seq<Name>
    requires ValidRepo(repo)
  {
    Resolve(repo, {}, n).done
  }

  /** The plans of the first dependencies one after the other, each without what came before. */
  function Gather(repo: Repo, deps: seq<Name>, k: nat): seq<Name>
    requires ValidRepo(repo) && k <= |deps|
  {
    if k == 0 then [] else
      var before := Gather(repo, deps, k - 1);
      before + Minus(PlanNames(repo, deps[k - 1]), before)
  }

  predicate Resolves(repo: Repo, n: Name)
    requires ValidRepo(repo)
  {
    Resolve(repo, {}, n).ok
  }

  lemma PlanReach(repo: Repo, n: Name)
    requires ValidRepo(repo) && Resolvable(repo, n)
    ensures Loadable(repo, n) && Distinct(PlanNames(repo, n)) && forall b :: b in PlanNames(repo, n) <==> Reach(repo, n, b)
  {
    ResolveExact(repo, {}, n);
    PlanExact(repo, {}, n);
    ReachSelf(repo, n);
  }

  lemma DepResolvable(repo: Repo, n: Name, d: Name)
    requires Resolvable(repo, n) && Edge(repo, n, d)
    ensures Resolvable(repo, d) && !Reach(repo, d, n)
  {
    ReachSelf(repo, n);
    ReachEdge(repo, n, n, d);
    forall b | Reach(repo, d, b) ensures Reach(repo, n, b) {
      ReachTransitive(repo, n, d, b);
    }
    if Reach(repo, d, n) {
      BackEdge(repo, n, d);
    }
  }

  lemma BackEdge(repo: Repo, n: Name, d: Name)
    requires Edge(repo, n, d) && Reach(repo, d, n)
    ensures ReachesCycle(repo, n)
  {
    ReachSelf(repo, n);
    var p :| Leads(repo, p, d, n);
    var loop := [n] + p;
    forall i | 0 <= i < |loop| - 1 ensures Edge(repo, loop[i], loop[i + 1]) {
      if i > 0 {
        assert loop[i] == p[i - 1] && loop[i + 1] == p[i - 1 + 1];
      }
    }
    assert |loop| >= 2 && IsPath(repo, loop) && loop[0] == loop[|loop| - 1];
  }

  /** A dependency has a shorter plan. */
  lemma PlanShorter(repo: Repo, n: Name, d: Name)
    requires ValidRepo(repo) && Resolves(repo, n) && Edge(repo, n, d)
    ensures Resolves(repo, d) && |PlanNames(repo, d)| < |PlanNames(repo, n)|
  {
    ResolveExact(repo, {}, n);
    ResolveExact(repo, {}, d);
    DepResolvable(repo, n, d);
    PlanReach(repo, n);
    PlanReach(repo, d);
    ReachSelf(repo, n);
    ReachEdge(repo, n, n, d);
    var some, all := set b | b in PlanNames(repo, d), set b | b in PlanNames(repo, n);
    forall b | b in some ensures b in all {
      ReachTransitive(repo, n, d, b);
    }
    assert n in all && n !in some;
    SubsetSize(some, all);
    SetOfDistinct(PlanNames(repo, d));
    SetOfDistinct(PlanNames(repo, n));
  }

  /** A visit that goes in: the dependencies are visited with the name on the stack, then it is done. */
  lemma VisitEnters(repo: Repo, installed: set<Name>, s: State, name: Name)
    requires Bounded(repo, s) && s.ok && name !in s.done && name !in s.visiting && Loadable(repo, name)
    ensures Bounded(repo, s.(visiting := s.visiting + [name]))
    ensures var r := Visit(repo, installed, s, name);
      var inner := VisitAll(repo, installed, s.(visiting := s.visiting + [name]), PackageOf(repo, name).deps, 0);
      r.ok == inner.ok && r.done == inner.done + [name]
  {
    var p := PackageOf(repo, name).(reused := name in installed);
    EnterBounded(repo, s, name);
    LeaveBounded(repo, VisitAll(repo, installed, s.(visiting := s.visiting + [name]), p.deps, 0), s.visiting, name, p);
  }

  /** What is done has its whole plan done. */
  lemma DoneAlready(repo: Repo, done: seq<Name>, name: Name)
    requires ValidRepo(repo) && Closed(repo, done) && Distinct(done) && name in done
    ensures Minus(PlanNames(repo, name), done) == []
  {
    ClosedResolvable(repo, done, name);
    PlanReach(repo, name);
    MinusAll(PlanNames(repo, name), done);
  }

  lemma VisitFails(repo: Repo, installed: set<Name>, s: State, name: Name)
    requires Bounded(repo, s) && s.ok && name !in s.done && name in s.visiting
    ensures !Visit(repo, installed, s, name).ok
  {
  }

  /** The plan of a package: those of its dependencies, as declared, and then the package. */
  predicate InOrder(repo: Repo, name: Name)
    requires ValidRepo(repo) && Loadable(repo, name)
  {
    var deps := PackageOf(repo, name).deps; PlanNames(repo, name) == Gather(repo, deps, |deps|) + [name]
  }

  /** A list with what is new of another one behind it. */
  function Joined(base: seq<Name>, more: seq<Name>): seq<Name> {
    base + Minus(more, base)
  }

  /** The dependencies before the i-th are done, on top of `base`. */
  predicate Midway(repo: Repo, deps: seq<Name>, done: seq<Name>, i: nat, base: seq<Name>)
    requires ValidRepo(repo) && i <= |deps|
  {
    done == Joined(base, Gather(repo, deps, i))
  }

  lemma MidwayStep(repo: Repo, deps: seq<Name>, done: seq<Name>, i: nat, base: seq<Name>, mid: seq<Name>)
    requires ValidRepo(repo) && i < |deps|
    requires Midway(repo, deps, done, i, base) && mid == Joined(done, PlanNames(repo, deps[i]))
    ensures Midway(repo, deps, mid, i + 1, base)
  {
    Rebase(base, Gather(repo, deps, i), PlanNames(repo, deps[i]));
  }

  lemma MidwayStart(repo: Repo, deps: seq<Name>, base: seq<Name>)
    requires ValidRepo(repo)
    ensures Midway(repo, deps, base, 0, base)
  {
  }

  lemma JoinedLast(base: seq<Name>, g: seq<Name>, name: Name)
    requires name !in base
    ensures Joined(base, g) + [name] == Joined(base, g + [name])
  {
    MinusConcat(g, [name], base);
    MinusNone([name], base);
    assert base + Minus(g, base) + [name] == base + (Minus(g, base) + [name]);
  }

  lemma JoinedFresh(g: seq<Name>)
    ensures Joined([], g) == g
  {
    MinusNone(g, []);
  }

  /** Visiting adds the plan of the name, without what is done already. */
  lemma {:induction false} VisitOrder(repo: Repo, installed: set<Name>, root: Name, s: State, name: Name)
    requires Partial(repo, installed, root, s) && OnStack(repo, root, s.visiting, name)
    requires Visit(repo, installed, s, name).ok && Resolves(repo, name)
    ensures Visit(repo, installed, s, name).done == Joined(s.done, PlanNames(repo, name))
    decreases |PlanNames(repo, name)|, 1, 0, 0
  {
    if name in s.done {
      DoneAlready(repo, s.done, name);
    } else {
      assert Loadable(repo, name) by {
        ResolveExact(repo, {}, name);
        ReachSelf(repo, name);
      }
      if name in s.visiting {
        VisitFails(repo, installed, s, name);
      }
      var deps := PackageOf(repo, name).deps;
      VisitEnters(repo, installed, s, name);
      MidwayStart(repo, deps, s.done);
      var entered := s.(visiting := s.visiting + [name]);
      VisitAllOrder(repo, installed, root, s.visiting, name, deps, entered, 0, VisitAll(repo, installed, entered, deps, 0), s.done);
      PlanIs(repo, name);
      JoinedLast(s.done, Gather(repo, deps, |deps|), name);
    }
  }

  lemma {:induction false} PlanIs(repo: Repo, name: Name)
    requires ValidRepo(repo) && Resolves(repo, name) && Loadable(repo, name)
    ensures InOrder(repo, name)
    decreases |PlanNames(repo, name)|, 0, 1 + |PackageOf(repo, name).deps|, 0
  {
    var deps := PackageOf(repo, name).deps;
    FreshStart(repo, name);
    FreshPartial(repo, name);
    MidwayStart(repo, deps, []);
    VisitAllOrder(repo, {}, name, [], name, deps, Entered(name), 0, VisitAll(repo, {}, Entered(name), deps, 0), []);
    JoinedFresh(Gather(repo, deps, |deps|));
  }

  /** A resolution that has entered its root. */
  function Entered(name: Name): State {
    FRESH.(visiting := [] + [name])
  }

  lemma FreshStart(repo: Repo, name: Name)
    requires ValidRepo(repo) && Resolves(repo, name) && Loadable(repo, name)
    ensures var inner := VisitAll(repo, {}, Entered(name), PackageOf(repo, name).deps, 0);
      inner.ok && PlanNames(repo, name) == inner.done + [name]
  {
    VisitEnters(repo, {}, FRESH, name);
    assert FRESH.(visiting := FRESH.visiting + [name]) == Entered(name);
  }

  lemma FreshPartial(repo: Repo, name: Name)
    requires ValidRepo(repo) && Loadable(repo, name)
    ensures Partial(repo, {}, name, Entered(name)) && OnStack(repo, name, [], name)
  {
    assert Leads(repo, [] + [name], name, name);
  }

  /** The visits of a name's dependencies, from the i-th on, with the name on the stack. */
  ghost predicate Inside(repo: Repo, installed: set<Name>, root: Name, below: seq<Name>, name: Name, deps: seq<Name>, s: State, i: nat,
                         end: State) {
    && Loadable(repo, name) && deps == PackageOf(repo, name).deps && i <= |deps|
    && Partial(repo, installed, root, s) && s.visiting == below + [name] && OnStack(repo, root, below, name)
    && VisitAll(repo, installed, s, deps, i) == end && end.ok
  }

  /** One of them. */
  lemma NextDep(repo: Repo, installed: set<Name>, root: Name, below: seq<Name>, name: Name, deps: seq<Name>, s: State, i: nat,
                end: State)
    requires Inside(repo, installed, root, below, name, deps, s, i, end) && i < |deps|
    ensures var mid := Visit(repo, installed, s, deps[i]);
      && OnStack(repo, root, s.visiting, deps[i])
      && mid.ok && Inside(repo, installed, root, below, name, deps, mid, i + 1, end)
  {
    PushOnStack(repo, root, below, name, deps[i]);
    VisitSound(repo, installed, root, s, deps[i]);
    var mid := Visit(repo, installed, s, deps[i]);
    assert VisitAll(repo, installed, s, deps, i) == VisitAll(repo, installed, mid, deps, i + 1);
    NotOkStays(repo, installed, mid, deps, i + 1);
  }

  lemma NotOkStays(repo: Repo, installed: set<Name>, s: State, deps: seq<Name>, i: nat)
    requires Bounded(repo, s) && i <= |deps|
    ensures VisitAll(repo, installed, s, deps, i).ok ==> s.ok
  {
    if !s.ok {
      assert VisitAll(repo, installed, s, deps, i) == s;
    }
  }

  lemma {:induction false} DepOrder(repo: Repo, installed: set<Name>, root: Name, below: seq<Name>, name: Name, deps: seq<Name>,
                                    s: State, i: nat, end: State, base: seq<Name>)
    requires Inside(repo, installed, root, below, name, deps, s, i, end) && i < |deps| && Resolves(repo, name)
    requires Midway(repo, deps, s.done, i, base)
    ensures var mid := Visit(repo, installed, s, deps[i]);
      Inside(repo, installed, root, below, name, deps, mid, i + 1, end) && Midway(repo, deps, mid.done, i + 1, base)
    decreases |PlanNames(repo, name)|, 0, |deps| - i, 0
  {
    NextDep(repo, installed, root, below, name, deps, s, i, end);
    PlanShorter(repo, name, deps[i]);
    VisitOrder(repo, installed, root, s, deps[i]);
    MidwayStep(repo, deps, s.done, i, base, Visit(repo, installed, s, deps[i]).done);
  }

  lemma {:induction false} VisitAllOrder(repo: Repo, installed: set<Name>, root: Name, below: seq<Name>, name: Name, deps: seq<Name>,
                                         s: State, i: nat, end: State, base: seq<Name>)
    requires Inside(repo, installed, root, below, name, deps, s, i, end) && Resolves(repo, name)
    requires Midway(repo, deps, s.done, i, base)
    ensures Midway(repo, deps, end.done, |deps|, base)
    decreases |PlanNames(repo, name)|, 0, |deps| - i, 1
  {
    if i < |deps| {
      DepOrder(repo, installed, root, below, name, deps, s, i, end, base);
      VisitAllOrder(repo, installed, root, below, name, deps, Visit(repo, installed, s, deps[i]), i + 1, end, base);
    }
  }

  lemma PlanDone(repo: Repo, installed: set<Name>, root: Name)
    requires ValidRepo(repo) && Honest(repo) && Resolvable(repo, root)
    ensures NamesOf(Resolve(repo, installed, root).plan) == PlanNames(repo, root)
  {
    ResolveAlike(repo, installed, {}, root);
    ResolvedPlan(repo, installed, root);
    ResolveExact(repo, installed, root);
    var r := Resolve(repo, installed, root);
    assert NamesOf(r.plan) == r.done;
  }

  /** Whatever is installed, the plan of a package that resolves is made of the plans of its
      dependencies, in the order in which it declares them and each without what came before, and ends
      in the package itself. */
  lemma PlanOrder(repo: Repo, installed: set<Name>, root: Name)
    requires ValidRepo(repo) && Honest(repo) && Resolvable(repo, root)
    ensures Loadable(repo, root)
    ensures var deps := PackageOf(repo, root).deps;
      NamesOf(Resolve(repo, installed, root).plan) == Gather(repo, deps, |deps|) + [root]
  {
    assert Loadable(repo, root) by {
      ReachSelf(repo, root);
    }
    ResolveExact(repo, {}, root);
    PlanIs(repo, root);
    PlanDone(repo, installed, root);
  }

  // ---- the order of the installed list ------------------------------------

  /** The plans of the roots that resolve, one after the other, each without what came before. */
  ghost function GatherRoots(repo: Repo, roots: seq<Name>): seq<Name>
    requires ValidRepo(repo)
  {
    if roots == [] then [] else
      var before, last := GatherRoots(repo, roots[..|roots| - 1]), roots[|roots| - 1];
      if Resolvable(repo, last) then before + Minus(PlanNames(repo, last), before) else before
  }

  lemma {:induction false} AddNewOrder(repo: Repo, ps: seq<Package>, done: seq<Name>, plan: seq<Package>)
    requires ValidRepo(repo) && Honest(repo) && Sound(repo, ps) && PlanOf(repo, done, plan) && Distinct(done)
    ensures NamesOf(AddNew(ps, plan)) == NamesOf(ps) + Minus(done, NamesOf(ps))
    decreases |plan|
  {
    if plan != [] {
      var k := |plan| - 1;
      PlanPrefix(repo, done, plan, k);
      AddNewOrder(repo, ps, done[..k], plan[..k]);
      var mid := AddNew(ps, plan[..k]);
      assert done[k] in NamesOf(mid) <==> done[k] in NamesOf(ps) by {
        InAddNew(repo, ps, done[..k], plan[..k], done[k]);
      }
      assert |mid| < MAX_PACKAGES || done[k] in NamesOf(mid) by {
        AddNewSound(repo, ps, done[..k], plan[..k]);
        SoundFits(repo, mid);
      }
      NamesPush(mid, plan[k]);
      AddNewLast(ps, plan);
      MinusLast(done, NamesOf(ps));
    }
  }

  lemma AddNewLast(ps: seq<Package>, plan: seq<Package>)
    requires plan != []
    ensures AddNew(ps, plan) == AddOne(AddNew(ps, plan[..|plan| - 1]), plan[|plan| - 1])
  {
  }

  lemma MinusLast(a: seq<Name>, b: seq<Name>)
    requires a != []
    ensures Minus(a, b) == if a[|a| - 1] in b then Minus(a[..|a| - 1], b) else Minus(a[..|a| - 1], b) + [a[|a| - 1]]
  {
  }

  /** The installed list holds the roots' plans in the order of the roots. */
  lemma {:induction false} InstalledOrder(repo: Repo, installed: set<Name>, roots: seq<Name>)
    requires ValidRepo(repo) && Honest(repo)
    ensures NamesOf(Derive(repo, installed, roots)) == GatherRoots(repo, roots)
    decreases |roots|
  {
    if roots != [] {
      var init, last := roots[..|roots| - 1], roots[|roots| - 1];
      InstalledOrder(repo, installed, init);
      DeriveExact(repo, installed, init);
      ResolveExact(repo, installed, last);
      ResolvedPlan(repo, installed, last);
      if Resolvable(repo, last) {
        var r := Resolve(repo, installed, last);
        ResolveAlike(repo, installed, {}, last);
        PlanExact(repo, installed, last);
        AddNewOrder(repo, Derive(repo, installed, init), r.done, r.plan);
      }
    }
  }
}
