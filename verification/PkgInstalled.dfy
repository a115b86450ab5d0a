// The installed set: re-derived from the roots as the union of their resolutions.

module PkgInstalled {
  import opened PkgRepo
  import opened PkgResolver

  /** Metadata names its package as the index does. */
  ghost predicate Honest(repo: Repo) {
    forall n :: Loadable(repo, n) ==> PackageOf(repo, n).name == n
  }

  function NamesOf(ps: seq<Package>): seq<Name> {
    seq(|ps|, i requires 0 <= i < |ps| => ps[i].name)
  }

  function NameSet(ps: seq<Package>): set<Name> {
    set n | n in NamesOf(ps)
  }

  /** Adds a package unless one of its name is there or the table is full. */
  function AddOne(ps: seq<Package>, p: Package): seq<Package> {
    if p.name in NamesOf(ps) then ps else Push(ps, p)
  }

  function AddNew(ps: seq<Package>, plan: seq<Package>): seq<Package> {
    if plan == [] then ps else AddOne(AddNew(ps, plan[..|plan| - 1]), plan[|plan| - 1])
  }

  function AddResolved(repo: Repo, installed: set<Name>, ps: seq<Package>, root: Name): seq<Package>
    requires ValidRepo(repo)
  {
    var r := Resolve(repo, installed, root);
    if r.ok then AddNew(ps, r.plan) else ps
  }

  /** The installed packages for a list of roots; roots that do not resolve are passed over. */
  function Derive(repo: Repo, installed: set<Name>, roots: seq<Name>): seq<Package>
    requires ValidRepo(repo)
  {
    if roots == [] then []
    else AddResolved(repo, installed, Derive(repo, installed, roots[..|roots| - 1]), roots[|roots| - 1])
  }

  // ---- what is derived ----------------------------------------------------

  /** Distinct, dependency-closed, and made of the packages the names stand for. */
  predicate Sound(repo: Repo, ps: seq<Package>) {
    && Distinct(NamesOf(ps)) && Closed(repo, NamesOf(ps))
    && forall i :: 0 <= i < |ps| ==> (Loadable(repo, ps[i].name) && Plain(ps[i]) == Plain(PackageOf(repo, ps[i].name)))
  }

  lemma SoundFits(repo: Repo, ps: seq<Package>)
    requires ValidRepo(repo) && Sound(repo, ps)
    ensures |ps| <= MAX_PACKAGES
    ensures forall n :: n in repo.index && n !in NamesOf(ps) ==> |ps| < MAX_PACKAGES
  {
    forall n | n in NamesOf(ps) ensures n in repo.index {
      var i :| 0 <= i < |ps| && ps[i].name == n;
    }
    Room(repo.index, NamesOf(ps));
  }

  lemma NamesPush(ps: seq<Package>, p: Package)
    ensures NamesOf(ps + [p]) == NamesOf(ps) + [p.name]
  {
  }

  lemma ClosedPush(repo: Repo, done: seq<Name>, n: Name)
    requires Closed(repo, done) && Loadable(repo, n)
    requires forall d :: d in PackageOf(repo, n).deps ==> d in done
    ensures Closed(repo, done + [n])
  {
    var longer := done + [n];
    forall i | 0 <= i < |longer| ensures Placed(repo, longer, i) {
      if i < |done| {
        assert Placed(repo, done, i) && longer[..i] == done[..i];
      } else {
        assert longer[..i] == done;
      }
    }
  }

  /** Adding a package whose dependencies are there: nothing is dropped for want of room. */
  lemma AddOneSound(repo: Repo, ps: seq<Package>, p: Package)
    requires ValidRepo(repo) && Honest(repo) && Sound(repo, ps)
    requires Loadable(repo, p.name) && Plain(p) == Plain(PackageOf(repo, p.name))
    requires forall d :: d in PackageOf(repo, p.name).deps ==> d in NamesOf(ps)
    ensures Sound(repo, AddOne(ps, p))
    ensures NameSet(AddOne(ps, p)) == NameSet(ps) + {p.name}
  {
    if p.name !in NamesOf(ps) {
      SoundFits(repo, ps);
      NamesPush(ps, p);
      ClosedPush(repo, NamesOf(ps), p.name);
    }
  }

  /** The plan of a resolution, in terms of names. */
  predicate PlanOf(repo: Repo, done: seq<Name>, plan: seq<Package>) {
    && |plan| == |done| && Closed(repo, done)
    && forall i :: 0 <= i < |done| ==>
      (Loadable(repo, done[i]) && plan[i].name == done[i] && Plain(plan[i]) == Plain(PackageOf(repo, done[i])))
  }

  lemma PlanPrefix(repo: Repo, done: seq<Name>, plan: seq<Package>, k: nat)
    requires PlanOf(repo, done, plan) && k < |plan|
    ensures PlanOf(repo, done[..k], plan[..k])
    ensures Loadable(repo, done[k]) && plan[k].name == done[k] && Plain(plan[k]) == Plain(PackageOf(repo, done[k]))
    ensures forall d :: d in PackageOf(repo, done[k]).deps ==> d in done[..k]
  {
    assert Placed(repo, done, k);
    forall i | 0 <= i < k ensures Placed(repo, done[..k], i) {
      assert Placed(repo, done, i) && done[..k][..i] == done[..i];
    }
  }

  lemma {:induction false} AddNewSound(repo: Repo, ps: seq<Package>, done: seq<Name>, plan: seq<Package>)
    requires ValidRepo(repo) && Honest(repo) && Sound(repo, ps) && PlanOf(repo, done, plan)
    ensures Sound(repo, AddNew(ps, plan))
    ensures NameSet(AddNew(ps, plan)) == NameSet(ps) + set n | n in done
    decreases |plan|
  {
    if plan != [] {
      var k := |plan| - 1;
      PlanPrefix(repo, done, plan, k);
      AddNewSound(repo, ps, done[..k], plan[..k]);
      var mid := AddNew(ps, plan[..k]);
      forall d | d in PackageOf(repo, done[k]).deps ensures d in NamesOf(mid) {
        assert d in NameSet(mid);
      }
      AddOneSound(repo, mid, plan[k]);
      assert done == done[..k] + [done[k]];
    }
  }

  /** Some root that resolves reaches the name. */
  ghost predicate Needed(repo: Repo, roots: seq<Name>, n: Name) {
    exists r :: r in roots && Needs(repo, r, n)
  }

  ghost predicate Needs(repo: Repo, root: Name, n: Name) {
    Resolvable(repo, root) && Reach(repo, root, n)
  }

  lemma ResolvedPlan(repo: Repo, installed: set<Name>, root: Name)
    requires ValidRepo(repo) && Honest(repo)
    ensures var r := Resolve(repo, installed, root);
      if r.ok then PlanOf(repo, r.done, r.plan) && forall n :: n in r.done <==> Needs(repo, root, n)
      else forall n :: !Needs(repo, root, n)
  {
    ResolveExact(repo, installed, root);
    if Resolve(repo, installed, root).ok {
      PlanExact(repo, installed, root);
      PlannedIsPlan(repo, installed, Resolve(repo, installed, root));
    }
  }

  lemma PlannedIsPlan(repo: Repo, installed: set<Name>, r: State)
    requires Honest(repo) && Closed(repo, r.done) && Planned(repo, installed, r)
    ensures PlanOf(repo, r.done, r.plan)
  {
  }

  lemma InAddNew(repo: Repo, ps: seq<Package>, done: seq<Name>, plan: seq<Package>, n: Name)
    requires ValidRepo(repo) && Honest(repo) && Sound(repo, ps) && PlanOf(repo, done, plan)
    ensures n in NamesOf(AddNew(ps, plan)) <==> n in NamesOf(ps) || n in done
  {
    AddNewSound(repo, ps, done, plan);
    assert n in NamesOf(AddNew(ps, plan)) <==> n in NameSet(AddNew(ps, plan));
    assert n in NamesOf(ps) <==> n in NameSet(ps);
  }

  lemma AddResolvedSound(repo: Repo, installed: set<Name>, ps: seq<Package>, root: Name)
    requires ValidRepo(repo) && Honest(repo) && Sound(repo, ps)
    ensures Sound(repo, AddResolved(repo, installed, ps, root))
    ensures forall n :: n in NamesOf(AddResolved(repo, installed, ps, root)) <==> n in NamesOf(ps) || Needs(repo, root, n)
  {
    var r := Resolve(repo, installed, root);
    ResolvedPlan(repo, installed, root);
    if r.ok {
      AddNewSound(repo, ps, r.done, r.plan);
      forall n ensures n in NamesOf(AddNew(ps, r.plan)) <==> n in NamesOf(ps) || Needs(repo, root, n) {
        InAddNew(repo, ps, r.done, r.plan, n);
      }
    }
  }

  /** The derived list is duplicate-free, dependency-closed, within the table, and holds exactly
      what the resolvable roots reach. */
  lemma {:induction false} DeriveExact(repo: Repo, installed: set<Name>, roots: seq<Name>)
    requires ValidRepo(repo) && Honest(repo)
    ensures Sound(repo, Derive(repo, installed, roots)) && |Derive(repo, installed, roots)| <= MAX_PACKAGES
    ensures forall n :: n in NamesOf(Derive(repo, installed, roots)) <==> Needed(repo, roots, n)
    decreases |roots|
  {
    if roots != [] {
      var init, last := roots[..|roots| - 1], roots[|roots| - 1];
      DeriveExact(repo, installed, init);
      var ps := Derive(repo, installed, init);
      AddResolvedSound(repo, installed, ps, last);
      forall n ensures n in NamesOf(Derive(repo, installed, roots)) <==> Needed(repo, roots, n) {
        NeededPush(repo, init, last, n);
        assert roots == init + [last];
      }
    }
    SoundFits(repo, Derive(repo, installed, roots));
  }

  lemma NeededPush(repo: Repo, roots: seq<Name>, last: Name, n: Name)
    ensures Needed(repo, roots + [last], n) <==> Needed(repo, roots, n) || Needs(repo, last, n)
  {
    if Needed(repo, roots, n) {
      var r :| r in roots && Needs(repo, r, n);
      assert r in roots + [last];
    }
    if Needs(repo, last, n) {
      assert last in roots + [last];
    }
  }

  // ---- the old installed set leaves no trace but the reuse flag -----------

  lemma {:induction false} AddNewAlike(a: seq<Package>, b: seq<Package>, p: seq<Package>, q: seq<Package>)
    requires PlainAll(a) == PlainAll(b) && PlainAll(p) == PlainAll(q)
    ensures PlainAll(AddNew(a, p)) == PlainAll(AddNew(b, q))
    decreases |p|
  {
    assert |p| == |PlainAll(p)| == |q| == |PlainAll(q)|;
    if p != [] {
      var k := |p| - 1;
      assert PlainAll(p[..k]) == PlainAll(p)[..k] == PlainAll(q)[..k] == PlainAll(q[..k]);
      AddNewAlike(a, b, p[..k], q[..k]);
      var x, y := AddNew(a, p[..k]), AddNew(b, q[..k]);
      assert Plain(p[k]) == PlainAll(p)[k] == PlainAll(q)[k] == Plain(q[k]);
      NamesAlike(x, y);
      PlainPush(x, p[k]);
      PlainPush(y, q[k]);
    }
  }

  lemma NamesAlike(x: seq<Package>, y: seq<Package>)
    requires PlainAll(x) == PlainAll(y)
    ensures |x| == |y| && NamesOf(x) == NamesOf(y)
  {
    assert |x| == |PlainAll(x)| == |PlainAll(y)| == |y|;
    forall i | 0 <= i < |x| ensures x[i].name == y[i].name {
      assert Plain(x[i]) == PlainAll(x)[i] == PlainAll(y)[i] == Plain(y[i]);
    }
  }

  lemma {:induction false} DeriveAlike(repo: Repo, a: set<Name>, b: set<Name>, roots: seq<Name>)
    requires ValidRepo(repo)
    ensures PlainAll(Derive(repo, a, roots)) == PlainAll(Derive(repo, b, roots))
    decreases |roots|
  {
    if roots != [] {
      var init, last := roots[..|roots| - 1], roots[|roots| - 1];
      DeriveAlike(repo, a, b, init);
      ResolveAlike(repo, a, b, last);
      if Resolve(repo, a, last).ok {
        AddNewAlike(Derive(repo, a, init), Derive(repo, b, init), Resolve(repo, a, last).plan, Resolve(repo, b, last).plan);
      }
    }
  }
}
