// Exclusive groups: at most one running package of a group, and where that holds.

module PkgGroups {
  import opened PkgRepo
  import opened PkgResolver
  import opened PkgInstalled
  import opened PkgDaemon
  import opened PkgTheorems

  function Group(repo: Repo, n: Name): string {
    if Loadable(repo, n) then PackageOf(repo, n).group else ""
  }

  predicate Autostart(repo: Repo, n: Name) {
    Loadable(repo, n) && PackageOf(repo, n).autostart
  }

  predicate Clash(repo: Repo, a: Name, b: Name) {
    a != b && Group(repo, a) != "" && Group(repo, a) == Group(repo, b)
  }

  predicate Exclusive(repo: Repo, running: seq<Name>) {
    forall a, b :: a in running && b in running ==> !Clash(repo, a, b)
  }

  lemma InstalledGroup(repo: Repo, ps: seq<Package>, o: Package)
    requires Sound(repo, ps) && o in ps
    ensures o.group == Group(repo, o.name) && o.autostart == Autostart(repo, o.name) && o.name in NamesOf(ps)
  {
    var i :| 0 <= i < |ps| && ps[i] == o;
    assert NamesOf(ps)[i] == o.name;
    assert Plain(o).group == o.group && Plain(o).autostart == o.autostart;
  }

  // ---- launch -------------------------------------------------------------

  lemma {:induction false} PeerInExact(d: Daemon, ps: seq<Package>, p: Package, self: Name)
    requires forall o :: o in ps ==> o.name != ""
    ensures PeerIn(d, ps, p, self) == "" <==> forall o :: o in ps ==> !Holds(d, o, p, self)
    ensures PeerIn(d, ps, p, self) != "" ==> exists o :: o in ps && Holds(d, o, p, self) && o.name == PeerIn(d, ps, p, self)
    decreases ps
  {
    if ps != [] {
      PeerInExact(d, ps[1..], p, self);
      assert forall o :: o in ps <==> o == ps[0] || o in ps[1..];
    }
  }

  /** A launch is refused for its group exactly when a running package already holds the group. */
  lemma LaunchConflict(repo: Repo, d: Daemon, n: Name, staged: bool, admitted: bool)
    requires ValidRepo(repo) && Honest(repo) && Inv(repo, d) && "" !in repo.index
    requires n in NamesOf(d.installed) && n !in d.running
    ensures var a := Launch(d, n, staged, admitted).1;
      && (a.Conflict? <==> exists o :: o in d.running && Clash(repo, n, o))
      && (a.Conflict? ==> a.peer in d.running && Clash(repo, n, a.peer))
  {
    InstalledExact(repo, d);
    var p := Lookup(d.installed, n);
    InstalledGroup(repo, d.installed, p);
    forall o | o in d.installed ensures o.name != "" {
      InstalledGroup(repo, d.installed, o);
      assert Loadable(repo, o.name);
    }
    PeerInExact(d, d.installed, p, n);
    if o :| o in d.running && Clash(repo, n, o) {
      var q := Lookup(d.installed, o);
      InstalledGroup(repo, d.installed, q);
      assert Holds(d, q, p, n);
    }
    if Launch(d, n, staged, admitted).1.Conflict? {
      var o :| o in d.installed && Holds(d, o, p, n) && o.name == PeerIn(d, d.installed, p, n);
      InstalledGroup(repo, d.installed, o);
      assert o.name in d.running && Clash(repo, n, o.name);
    }
  }

  lemma LaunchExclusive(repo: Repo, d: Daemon, n: Name, staged: bool, admitted: bool)
    requires ValidRepo(repo) && Honest(repo) && Inv(repo, d) && "" !in repo.index && Exclusive(repo, d.running)
    ensures Exclusive(repo, Launch(d, n, staged, admitted).0.running)
  {
    if n in NamesOf(d.installed) && n !in d.running {
      LaunchConflict(repo, d, n, staged, admitted);
      LaunchInv(repo, d, n, staged, admitted);
    }
  }

  // ---- install ------------------------------------------------------------

  lemma StartedBy(repo: Repo, d: Daemon, e: Daemon, n: Name)
    requires ValidRepo(repo) && Sound(repo, e.installed) && RunningOk(e.running, e.installed)
    requires d.running <= e.running
    requires forall x :: x in e.running[|d.running|..] ==> x !in NamesOf(d.installed) && Autostarts(e.installed, x)
    requires forall x :: x in NamesOf(e.installed) <==> x in NamesOf(d.installed) || Reach(repo, n, x)
    ensures forall x :: x in e.running <==> x in d.running || (Reach(repo, n, x) && Autostart(repo, x))
  {
    var more := e.running[|d.running|..];
    assert e.running == d.running + more;
    forall x | x in more ensures Reach(repo, n, x) && Autostart(repo, x) {
      var p :| p in e.installed && p.name == x && p.autostart;
      InstalledGroup(repo, e.installed, p);
    }
    forall x | Reach(repo, n, x) && Autostart(repo, x) ensures x in e.running {
      var p := Lookup(e.installed, x);
      InstalledGroup(repo, e.installed, p);
    }
  }

  /** Which packages run after an installation that took its root. */
  lemma RunningAfterInstall(repo: Repo, d: Daemon, n: Name)
    requires ValidRepo(repo) && Honest(repo) && Inv(repo, d) && Resolvable(repo, n)
    requires n in AddRoot(d.roots, n)
    ensures forall x :: x in Install(repo, d, n, true).0.running <==> x in d.running || (Reach(repo, n, x) && Autostart(repo, x))
  {
    var roots := AddRoot(d.roots, n);
    var e := Install(repo, d, n, true).0;
    assert e == Sync(repo, d, roots) by { InstallIsSync(repo, d, n); }
    assert forall x :: x in NamesOf(e.installed) <==> x in NamesOf(d.installed) || Reach(repo, n, x) by {
      InstallExact(repo, d, n);
    }
    assert Inv(repo, e) by { SyncInv(repo, d, roots); }
    assert Sound(repo, e.installed) by { InstalledExact(repo, e); }
    InstallRunning(repo, d, roots);
    StartedBy(repo, d, e, n);
  }

  /** Among what an installation would start, something claims a group that is taken or claimed twice. */
  ghost predicate WouldClash(repo: Repo, d: Daemon, n: Name) {
    exists c, o :: Starts(repo, d, n, c) && (o in d.running || Starts(repo, d, n, o)) && Clash(repo, c, o)
  }

  ghost predicate Starts(repo: Repo, d: Daemon, n: Name, c: Name) {
    Reach(repo, n, c) && Autostart(repo, c) && c !in d.running
  }

  /** The documentation promises that an installation never puts a second claimant of a group into
      the running set. The install path has no such check: the promise is kept if and only if the
      root table has no room for the package, or nothing that the installation starts claims a group
      held by a running package or by another package that it starts. */
  lemma InstallExclusive(repo: Repo, d: Daemon, n: Name)
    requires ValidRepo(repo) && Honest(repo) && Inv(repo, d) && Exclusive(repo, d.running)
    requires Resolvable(repo, n)
    ensures Exclusive(repo, Install(repo, d, n, true).0.running) <==> n !in AddRoot(d.roots, n) || !WouldClash(repo, d, n)
  {
    var running := Install(repo, d, n, true).0.running;
    if n !in AddRoot(d.roots, n) {
      InstallIsSync(repo, d, n);
      ResyncSame(repo, d, d);
      return;
    }
    RunningAfterInstall(repo, d, n);
    if WouldClash(repo, d, n) {
      var c, o :| Starts(repo, d, n, c) && (o in d.running || Starts(repo, d, n, o)) && Clash(repo, c, o);
      assert c in running && o in running;
    }
    if !Exclusive(repo, running) {
      var a, b :| a in running && b in running && Clash(repo, a, b);
      if a in d.running {
        assert Starts(repo, d, n, b) && Clash(repo, b, a);
      } else {
        assert Starts(repo, d, n, a);
      }
    }
  }

  lemma NoDepsPath(repo: Repo, p: seq<Name>)
    requires IsPath(repo, p) && Loadable(repo, p[0]) && PackageOf(repo, p[0]).deps == []
    ensures |p| == 1
  {
    assert |p| > 1 ==> Edge(repo, p[0], p[0 + 1]);
  }

  lemma NoDepsReach(repo: Repo, n: Name, x: Name)
    requires Loadable(repo, n) && PackageOf(repo, n).deps == []
    ensures Reach(repo, n, x) <==> x == n
  {
    ReachSelf(repo, n);
    forall p | Leads(repo, p, n, x) ensures x == n {
      NoDepsPath(repo, p);
    }
  }

  lemma NoDepsResolvable(repo: Repo, n: Name)
    requires Loadable(repo, n) && PackageOf(repo, n).deps == []
    ensures Resolvable(repo, n)
  {
    forall b | Reach(repo, n, b) ensures Loadable(repo, b) {
      NoDepsReach(repo, n, b);
    }
    forall p | IsPath(repo, p) && Reach(repo, n, p[0]) ensures |p| == 1 {
      NoDepsReach(repo, n, p[0]);
      NoDepsPath(repo, p);
    }
  }

  function Framebuffer(n: Name): Package {
    Package(n, [], n, "32M", 512, "", [], true, true, "fb", false)
  }

  const TWO_FRAMEBUFFERS: Repo :=
    Repo(["fb_boot", "fb_vesa"], map["fb_boot" := Valid(Framebuffer("fb_boot")), "fb_vesa" := Valid(Framebuffer("fb_vesa"))])

  /** Installing the second framebuffer driver while the first one runs leaves both running. */
  lemma SecondFramebuffer(repo: Repo, d: Daemon)
    requires repo == TWO_FRAMEBUFFERS && ValidRepo(repo) && d == Boot(repo, ["fb_vesa"])
    ensures var (e, a) := Install(repo, d, "fb_boot", true);
      Exclusive(repo, d.running) && a.Installed? && !Exclusive(repo, e.running)
  {
    FramebufferFacts(repo);
    FirstFramebuffer(repo, d);
    OneFramebuffer(repo, d.running);
    SecondClaimant(repo, d, "fb_boot", "fb_vesa");
  }

  lemma FramebufferFacts(repo: Repo)
    requires repo == TWO_FRAMEBUFFERS
    ensures Honest(repo) && Autostart(repo, "fb_boot") && PackageOf(repo, "fb_boot").deps == []
    ensures Clash(repo, "fb_boot", "fb_vesa")
  {
  }

  lemma OneFramebuffer(repo: Repo, running: seq<Name>)
    requires forall x :: x in running <==> x == "fb_vesa"
    ensures Exclusive(repo, running)
  {
  }

  /** A lone autostart package that claims a group held by a running one is installed all the same. */
  lemma SecondClaimant(repo: Repo, d: Daemon, n: Name, holder: Name)
    requires ValidRepo(repo) && Honest(repo) && Inv(repo, d) && Exclusive(repo, d.running)
    requires Autostart(repo, n) && PackageOf(repo, n).deps == []
    requires holder in d.running && n !in d.running && Clash(repo, n, holder) && n in AddRoot(d.roots, n)
    ensures var (e, a) := Install(repo, d, n, true);
      a.Installed? && !Exclusive(repo, e.running)
  {
    NoDepsResolvable(repo, n);
    NoDepsReach(repo, n, n);
    assert Starts(repo, d, n, n);
    InstallExclusive(repo, d, n);
    InstallExact(repo, d, n);
  }

  lemma FirstFramebuffer(repo: Repo, d: Daemon)
    requires repo == TWO_FRAMEBUFFERS && ValidRepo(repo) && d == Boot(repo, ["fb_vesa"])
    ensures Inv(repo, d) && d.roots == ["fb_vesa"] && forall x :: x in d.running <==> x == "fb_vesa"
  {
    var empty := Daemon([], [], [], 0);
    FramebufferFacts(repo);
    NoDepsResolvable(repo, "fb_vesa");
    assert AddRoot([], "fb_vesa") == ["fb_vesa"];
    InstallIsSync(repo, empty, "fb_vesa");
    SyncInv(repo, empty, ["fb_vesa"]);
    RunningAfterInstall(repo, empty, "fb_vesa");
    forall x ensures x in d.running <==> x == "fb_vesa" {
      NoDepsReach(repo, "fb_vesa", x);
    }
  }

  // ---- where groups are never broken --------------------------------------

  /** No autostart package claims a group, and no package is nameless. */
  predicate Modest(repo: Repo) {
    "" !in repo.index && forall n :: n in repo.index && Autostart(repo, n) ==> Group(repo, n) == ""
  }

  lemma SyncExclusive(repo: Repo, d: Daemon, roots: seq<Name>)
    requires ValidRepo(repo) && Honest(repo) && Distinct(d.running) && |roots| <= MAX_PACKAGES
    requires Modest(repo) && Exclusive(repo, d.running)
    ensures Exclusive(repo, Sync(repo, d, roots).running)
  {
    var ps := Derive(repo, NameSet(d.installed), roots);
    DeriveExact(repo, NameSet(d.installed), roots);
    forall n | n in SyncRunning(d.running, ps) && n !in d.running ensures Group(repo, n) == "" {
      SyncRunningNew(repo, d.running, ps, n);
      var p :| p in ps && p.name == n && p.autostart;
      InstalledGroup(repo, ps, p);
    }
  }

  lemma SyncRunningNew(repo: Repo, running: seq<Name>, ps: seq<Package>, n: Name)
    requires ValidRepo(repo) && Sound(repo, ps) && Distinct(running)
    requires n in SyncRunning(running, ps) && n !in running
    ensures Autostarts(ps, n)
  {
    var kept := Keep(running, NameSet(ps));
    KeepExact(running, NameSet(ps));
    AddAutoExact(repo, kept, ps, |ps|);
    assert ps[..|ps|] == ps;
    var r := SyncRunning(running, ps);
    assert r == kept + r[|kept|..];
  }

  lemma ServeExclusive(repo: Repo, d: Daemon, q: Request)
    requires ValidRepo(repo) && Honest(repo) && Inv(repo, d) && Modest(repo) && Exclusive(repo, d.running)
    ensures Exclusive(repo, Serve(repo, d, q).0.running)
  {
    match q
    case InstallReq(n, admitted) => SyncExclusive(repo, d, AddRoot(d.roots, n));
    case RemoveReq(n) =>
      RemoveRootExact(d.roots, n);
      SyncExclusive(repo, d, RemoveRoot(d.roots, n));
    case LaunchReq(n, staged, admitted) => LaunchExclusive(repo, d, n, staged, admitted);
    case ExplainReq(_) =>
    case Other =>
  }

  /** Where no autostart package claims a group, every reachable state runs at most one package of
      each group. */
  lemma {:induction false} HistoryExclusive(repo: Repo, roots: seq<Name>, reqs: seq<Request>)
    requires ValidRepo(repo) && Honest(repo) && Modest(repo) && |roots| <= MAX_PACKAGES
    ensures Exclusive(repo, History(repo, roots, reqs).running)
    decreases |reqs|
  {
    if reqs == [] {
      SyncExclusive(repo, Daemon([], [], [], 0), roots);
    } else {
      var before := reqs[..|reqs| - 1];
      HistoryInv(repo, roots, before);
      HistoryExclusive(repo, roots, before);
      ServeExclusive(repo, History(repo, roots, before), reqs[|reqs| - 1]);
    }
  }
}
