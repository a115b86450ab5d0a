// What install, remove and launch promise, for every reachable state.

module PkgTheorems {
  import opened Wrappers
  import opened PkgRepo
  import opened PkgResolver
  import opened PkgInstalled
  import opened PkgDaemon

  lemma {:induction false} MinusExact(a: seq<Name>, b: seq<Name>)
    requires Distinct(a)
    ensures Distinct(Minus(a, b)) && forall n :: n in Minus(a, b) <==> n in a && n !in b
    decreases |a|
  {
    if a != [] {
      var init, last := a[..|a| - 1], a[|a| - 1];
      MinusExact(init, b);
      assert a == init + [last];
      assert last !in init;
    }
  }

  lemma SyncedExact(repo: Repo, d: Daemon, roots: seq<Name>)
    requires ValidRepo(repo) && Honest(repo) && Inv(repo, d) && |roots| <= MAX_PACKAGES
    ensures var e := Sync(repo, d, roots);
      && Inv(repo, e) && e.roots == roots
      && forall n :: n in NamesOf(e.installed) <==> Needed(repo, roots, n)
  {
    SyncInv(repo, d, roots);
    InstalledExact(repo, Sync(repo, d, roots));
  }

  // ---- remove -------------------------------------------------------------

  lemma NeededSubset(repo: Repo, a: seq<Name>, b: seq<Name>, n: Name)
    requires (forall x :: x in a ==> x in b) && Needed(repo, a, n)
    ensures Needed(repo, b, n)
  {
    var r :| r in a && Needs(repo, r, n);
    assert r in b;
  }

  /** Removing drops exactly the packages that no surviving root reaches, reports exactly those,
      and brings nothing in. */
  lemma RemoveExact(repo: Repo, d: Daemon, n: Name)
    requires ValidRepo(repo) && Honest(repo) && Inv(repo, d) && n in NamesOf(d.installed)
    ensures var (e, a) := Remove(repo, d, n);
      var surviving := RemoveRoot(d.roots, n);
      && a.Removed? && e.roots == surviving
      && (forall x :: x in NamesOf(e.installed) <==> x in NamesOf(d.installed) && Needed(repo, surviving, x))
      && (forall x :: x in a.removed <==> x in NamesOf(d.installed) && !Needed(repo, surviving, x))
      && Distinct(a.removed)
  {
    var surviving := RemoveRoot(d.roots, n);
    InstalledExact(repo, d);
    RemoveRootExact(d.roots, n);
    SyncedExact(repo, d, surviving);
    forall x | Needed(repo, surviving, x) ensures x in NamesOf(d.installed) {
      NeededSubset(repo, surviving, d.roots, x);
    }
    MinusExact(NamesOf(d.installed), NamesOf(Sync(repo, d, surviving).installed));
  }

  /** The removed package itself goes exactly when no surviving root needs it; with a root listed
      twice it stays although the answer says it was removed. */
  lemma RemoveTakesEffect(repo: Repo, d: Daemon, n: Name)
    requires ValidRepo(repo) && Honest(repo) && Inv(repo, d) && n in NamesOf(d.installed)
    ensures var e := Remove(repo, d, n).0;
      n in NamesOf(e.installed) <==>
        || (multiset(d.roots)[n] > 1 && Resolvable(repo, n))
        || (exists r :: r in d.roots && r != n && Needs(repo, r, n))
  {
    RemoveExact(repo, d, n);
    RemoveRootExact(d.roots, n);
    var surviving := RemoveRoot(d.roots, n);
    ReachSelf(repo, n);
    assert multiset(d.roots)[n] > 1 && Resolvable(repo, n) ==> n in surviving && Needs(repo, n, n);
    if exists r :: r in d.roots && r != n && Needs(repo, r, n) {
      var r :| r in d.roots && r != n && Needs(repo, r, n);
      assert r in surviving;
    }
    if Needed(repo, surviving, n) {
      var r :| r in surviving && Needs(repo, r, n);
      assert r in multiset(surviving);
    }
  }

  /** Removing a package that is installed but no root is answered as a removal and removes nothing. */
  lemma RemoveDependency(repo: Repo, d: Daemon, n: Name)
    requires ValidRepo(repo) && Honest(repo) && Inv(repo, d) && n in NamesOf(d.installed) && n !in d.roots
    ensures var (e, a) := Remove(repo, d, n);
      && a == Removed([]) && e.roots == d.roots && e.running == d.running
      && PlainAll(e.installed) == PlainAll(d.installed)
  {
    assert RemoveRoot(d.roots, n) == d.roots;
    ResyncSame(repo, d, d);
    RemoveExact(repo, d, n);
    InstalledExact(repo, d);
    SomeMember(Remove(repo, d, n).1.removed);
  }

  // ---- install ------------------------------------------------------------

  /** Installing never drops a package, and what comes in is what the package reaches. */
  lemma InstallExact(repo: Repo, d: Daemon, n: Name)
    requires ValidRepo(repo) && Honest(repo) && Inv(repo, d) && Resolvable(repo, n)
    ensures var (e, a) := Install(repo, d, n, true);
      && a.Installed?
      && (forall x :: x in NamesOf(d.installed) ==> x in NamesOf(e.installed))
      && (n in e.roots ==> forall x :: x in NamesOf(e.installed) <==> x in NamesOf(d.installed) || Reach(repo, n, x))
      && (n !in e.roots ==> e.roots == d.roots)
      && (forall x :: x in a.added <==> x in NamesOf(e.installed) && x !in NamesOf(d.installed))
  {
    ResolveExact(repo, NameSet(d.installed), n);
    InstalledExact(repo, d);
    var roots := AddRoot(d.roots, n);
    SyncedExact(repo, d, roots);
    var e := Sync(repo, d, roots);
    InstalledExact(repo, e);
    MinusExact(NamesOf(e.installed), NamesOf(d.installed));
    forall x ensures Needed(repo, roots, x) <==> Needed(repo, d.roots, x) || (n in roots && Reach(repo, n, x)) {
      NeededPush(repo, d.roots, n, x);
    }
  }

  /** An accepted install puts the package in, except when the root table is full and nothing
      installed needed the package before: exactly then the answer claims what did not happen. */
  lemma InstallTakesEffect(repo: Repo, d: Daemon, n: Name)
    requires ValidRepo(repo) && Honest(repo) && Inv(repo, d) && Resolvable(repo, n)
    ensures n in NamesOf(Install(repo, d, n, true).0.installed) <==>
      n in d.roots || |d.roots| < 32 || n in NamesOf(d.installed)
  {
    InstallExact(repo, d, n);
    ReachSelf(repo, n);
    InstallIsSync(repo, d, n);
    if n !in d.roots && |d.roots| == MAX_PACKAGES {
      InstalledExact(repo, d);
      SyncedExact(repo, d, d.roots);
    }
  }

  // ---- install, then remove -----------------------------------------------

  lemma {:induction false} KeepAll(running: seq<Name>, names: set<Name>)
    requires forall n :: n in running ==> n in names
    ensures Keep(running, names) == running
    decreases |running|
  {
    if running != [] {
      KeepAll(running[..|running| - 1], names);
    }
  }

  /** Keeping drops a tail of strangers. */
  lemma {:induction false} KeepFront(running: seq<Name>, more: seq<Name>, names: set<Name>)
    requires (forall n :: n in running ==> n in names) && (forall n :: n in more ==> n !in names)
    ensures Keep(running + more, names) == running
    decreases |more|
  {
    if more == [] {
      assert running + more == running;
      KeepAll(running, names);
    } else {
      var whole := running + more;
      assert whole[..|whole| - 1] == running + more[..|more| - 1];
      KeepFront(running, more[..|more| - 1], names);
    }
  }

  lemma {:induction false} AddAutoNone(running: seq<Name>, ps: seq<Package>)
    requires forall p :: p in ps && p.autostart ==> p.name in running
    ensures AddAuto(running, ps) == running
    decreases |ps|
  {
    if ps != [] {
      AddAutoNone(running, ps[..|ps| - 1]);
    }
  }

  /** Re-deriving from the same roots, with additions to the running set that are not installed,
      gives the old state back. */
  lemma ResyncSame(repo: Repo, d: Daemon, mid: Daemon)
    requires ValidRepo(repo) && Honest(repo) && Inv(repo, d)
    requires d.running <= mid.running
    requires forall n :: n in mid.running[|d.running|..] ==> n !in NamesOf(d.installed)
    ensures var e := Sync(repo, mid, d.roots);
      && e.roots == d.roots && e.running == d.running && PlainAll(e.installed) == PlainAll(d.installed)
      && e.writes == mid.writes + 1
  {
    var ps := Derive(repo, NameSet(mid.installed), d.roots);
    DeriveAlike(repo, NameSet(mid.installed), {}, d.roots);
    NamesAlike(ps, d.installed);
    assert NameSet(ps) == NameSet(d.installed);
    var more := mid.running[|d.running|..];
    assert mid.running == d.running + more;
    KeepFront(d.running, more, NameSet(ps));
    forall p | p in ps && p.autostart ensures p.name in d.running {
      var i :| 0 <= i < |ps| && ps[i] == p;
      assert PlainAll(ps)[i] == Plain(ps[i]) && PlainAll(d.installed)[i] == Plain(d.installed[i]);
      assert d.installed[i] in d.installed;
    }
    AddAutoNone(d.running, ps);
  }

  lemma SamePackage(repo: Repo, a: seq<Package>, b: seq<Package>, p: Package, q: Package)
    requires Sound(repo, a) && Sound(repo, b) && p in a && q in b && p.name == q.name
    ensures Plain(p) == Plain(q)
  {
  }

  lemma AutostartKnown(repo: Repo, d: Daemon, ps: seq<Package>, n: Name)
    requires RunningOk(d.running, d.installed) && Sound(repo, d.installed) && Sound(repo, ps)
    requires Autostarts(ps, n) && n in NamesOf(d.installed)
    ensures n in d.running
  {
    var p :| p in ps && p.name == n && p.autostart;
    var q := Lookup(d.installed, n);
    SamePackage(repo, ps, d.installed, p, q);
    assert p.autostart == Plain(p).autostart == Plain(q).autostart == q.autostart;
  }

  /** What a growing installed list adds to the running set was not installed before. */
  lemma RunningGrows(repo: Repo, d: Daemon, ps: seq<Package>)
    requires ValidRepo(repo) && RunningOk(d.running, d.installed) && Sound(repo, d.installed) && Sound(repo, ps)
    requires forall n :: n in NamesOf(d.installed) ==> n in NamesOf(ps)
    ensures var r := SyncRunning(d.running, ps);
      && d.running <= r
      && forall n :: n in r[|d.running|..] ==> n !in NamesOf(d.installed) && Autostarts(ps, n)
  {
    KeepAll(d.running, NameSet(ps));
    AddAutoExact(repo, d.running, ps, |ps|);
    assert ps[..|ps|] == ps;
    var r := SyncRunning(d.running, ps);
    forall n | n in r[|d.running|..] ensures n !in NamesOf(d.installed) {
      if n in NamesOf(d.installed) {
        AutostartKnown(repo, d, ps, n);
      }
    }
  }

  lemma InstallRunning(repo: Repo, d: Daemon, roots: seq<Name>)
    requires ValidRepo(repo) && Honest(repo) && Inv(repo, d) && |roots| <= MAX_PACKAGES
    requires forall x :: x in d.roots ==> x in roots
    ensures var e := Sync(repo, d, roots);
      && d.running <= e.running
      && forall n :: n in e.running[|d.running|..] ==> n !in NamesOf(d.installed) && Autostarts(e.installed, n)
  {
    var ps := Derive(repo, NameSet(d.installed), roots);
    DeriveExact(repo, NameSet(d.installed), roots);
    InstalledExact(repo, d);
    forall n | n in NamesOf(d.installed) ensures n in NamesOf(ps) {
      NeededSubset(repo, d.roots, roots, n);
    }
    RunningGrows(repo, d, ps);
  }

  /** Installing a package that is no root and removing it again gives the roots, the installed list
      (but for the reuse flags) and the running set back; the removal is carried out unless the
      installation had no effect. */
  lemma InstallThenRemove(repo: Repo, d: Daemon, n: Name)
    requires ValidRepo(repo) && Honest(repo) && Inv(repo, d) && Resolvable(repo, n) && n !in d.roots
    ensures var mid := Install(repo, d, n, true).0;
      var (e, a) := Remove(repo, mid, n);
      && (a.Removed? <==> |d.roots| < 32 || n in NamesOf(d.installed))
      && e.roots == d.roots && e.running == d.running && PlainAll(e.installed) == PlainAll(d.installed)
  {
    var roots := AddRoot(d.roots, n);
    var mid := Sync(repo, d, roots);
    InstallIsSync(repo, d, n);
    InstallTakesEffect(repo, d, n);
    if |d.roots| < MAX_PACKAGES {
      InstallRunning(repo, d, roots);
      RemoveLastRoot(d.roots, n);
      ResyncSame(repo, d, mid);
    } else {
      ResyncSame(repo, d, d);
      if n in NamesOf(d.installed) {
        assert RemoveRoot(d.roots, n) == d.roots;
        ResyncSame(repo, d, mid);
      }
    }
  }

  lemma InstallIsSync(repo: Repo, d: Daemon, n: Name)
    requires ValidRepo(repo) && Resolvable(repo, n)
    ensures Install(repo, d, n, true).0 == Sync(repo, d, AddRoot(d.roots, n))
  {
    ResolveExact(repo, NameSet(d.installed), n);
  }

  lemma RemoveLastRoot(roots: seq<Name>, n: Name)
    requires n !in roots
    ensures RemoveRoot(roots + [n], n) == roots
  {
    var longer := roots + [n];
    assert longer[|roots|] == n && n in longer;
    assert forall j :: 0 <= j < |roots| ==> longer[j] == roots[j] != n;
  }
}
