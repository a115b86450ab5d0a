// Roots that are distinct and indexed: there every answer is true. And the states in which an answer
// is not.

module PkgRoots {
  import opened TextScan
  import opened PkgRepo
  import opened PkgResolver
  import opened PkgInstalled
  import opened PkgDaemon
  import opened PkgTheorems
  import opened PkgGroups
  import opened PkgBake
  import opened PkgStore

  predicate RootsOk(repo: Repo, roots: seq<Name>) {
    Distinct(roots) && forall n :: n in roots ==> n in repo.index
  }

  lemma AddRootOk(repo: Repo, roots: seq<Name>, n: Name)
    requires RootsOk(repo, roots) && n in repo.index
    ensures RootsOk(repo, AddRoot(roots, n))
  {
  }

  lemma {:induction false} CountDistinct(s: seq<Name>)
    requires forall n :: multiset(s)[n] <= 1
    ensures Distinct(s)
    decreases |s|
  {
    if s != [] {
      var init, last := s[..|s| - 1], s[|s| - 1];
      assert s == init + [last];
      forall n ensures multiset(init)[n] <= 1 {
        assert multiset(s)[n] == multiset(init)[n] + multiset{last}[n];
      }
      assert multiset(s)[last] == multiset(init)[last] + 1;
      assert last in init ==> multiset(init)[last] > 0;
      CountDistinct(init);
    }
  }

  lemma RemoveRootOk(repo: Repo, roots: seq<Name>, n: Name)
    requires RootsOk(repo, roots)
    ensures RootsOk(repo, RemoveRoot(roots, n))
  {
    var left := RemoveRoot(roots, n);
    RemoveRootExact(roots, n);
    forall x ensures multiset(left)[x] <= 1 {
      DistinctCount(roots, x);
    }
    CountDistinct(left);
    forall x | x in left ensures x in repo.index {
      assert x in multiset(left) && x in multiset(roots);
    }
  }

  lemma ServeRootsOk(repo: Repo, d: Daemon, q: Request)
    requires ValidRepo(repo) && RootsOk(repo, d.roots)
    ensures RootsOk(repo, Serve(repo, d, q).0.roots)
  {
    match q
    case InstallReq(n, _) =>
      if Resolve(repo, NameSet(d.installed), n).ok {
        ResolveExact(repo, NameSet(d.installed), n);
        ReachSelf(repo, n);
        AddRootOk(repo, d.roots, n);
      }
    case RemoveReq(n) => RemoveRootOk(repo, d.roots, n);
    case LaunchReq(_, _, _) =>
    case ExplainReq(_) =>
    case Other =>
  }

  /** Every request keeps the roots distinct and indexed; only what is restored or seeded can be
      otherwise. */
  lemma {:induction false} HistoryRootsOk(repo: Repo, roots: seq<Name>, reqs: seq<Request>)
    requires ValidRepo(repo) && RootsOk(repo, roots)
    ensures RootsOk(repo, History(repo, roots, reqs).roots)
    decreases |reqs|
  {
    if reqs != [] {
      var before := reqs[..|reqs| - 1];
      HistoryRootsOk(repo, roots, before);
      ServeRootsOk(repo, History(repo, roots, before), reqs[|reqs| - 1]);
    }
  }

  /** In such a state every accepted installation takes effect: the package is a root and installed. */
  lemma InstallAlways(repo: Repo, d: Daemon, n: Name)
    requires ValidRepo(repo) && Honest(repo) && Inv(repo, d) && RootsOk(repo, d.roots) && Resolvable(repo, n)
    ensures var (e, a) := Install(repo, d, n, true);
      a.Installed? && n in e.roots && n in NamesOf(e.installed)
  {
    ReachSelf(repo, n);
    Room(repo.index, d.roots);
    InstallTakesEffect(repo, d, n);
    InstallExact(repo, d, n);
    InstallIsSync(repo, d, n);
  }

  /** And every removal does: the package stays only where another root needs it. */
  lemma RemoveAlways(repo: Repo, d: Daemon, n: Name)
    requires ValidRepo(repo) && Honest(repo) && Inv(repo, d) && RootsOk(repo, d.roots) && n in NamesOf(d.installed)
    ensures var (e, a) := Remove(repo, d, n);
      && a.Removed? && n !in e.roots
      && (n in NamesOf(e.installed) <==> exists r :: r in d.roots && r != n && Needs(repo, r, n))
  {
    DistinctCount(d.roots, n);
    RemoveTakesEffect(repo, d, n);
    RemoveExact(repo, d, n);
    RemoveRootExact(d.roots, n);
  }

  /** In every history from such roots, therefore. */
  lemma AnswersTrue(repo: Repo, roots: seq<Name>, reqs: seq<Request>, n: Name)
    requires ValidRepo(repo) && Honest(repo) && RootsOk(repo, roots)
    ensures var d := History(repo, roots, reqs);
      && (Install(repo, d, n, true).1.Installed? ==> n in NamesOf(Install(repo, d, n, true).0.installed))
      && (Remove(repo, d, n).1.Removed? ==> n !in Remove(repo, d, n).0.roots)
  {
    var d := History(repo, roots, reqs);
    Room(repo.index, roots);
    HistoryInv(repo, roots, reqs);
    HistoryRootsOk(repo, roots, reqs);
    if Install(repo, d, n, true).1.Installed? {
      ResolveExact(repo, NameSet(d.installed), n);
      InstallAlways(repo, d, n);
    }
    if Remove(repo, d, n).1.Removed? {
      RemoveAlways(repo, d, n);
    }
  }

  // ---- states in which an answer is not true ------------------------------

  function Lone(n: Name): Package {
    Package(n, [], n, "1M", 100, "", [], false, false, "", false)
  }

  const ONE_PACKAGE: Repo := Repo(["clock"], map["clock" := Valid(Lone("clock"))])

  lemma LoneFacts(repo: Repo)
    requires repo == ONE_PACKAGE
    ensures ValidRepo(repo) && Honest(repo) && Resolvable(repo, "clock") && Needs(repo, "clock", "clock")
    ensures forall n :: n != "clock" ==> !Resolvable(repo, n)
  {
    NoDepsResolvable(repo, "clock");
    ReachSelf(repo, "clock");
    forall n | n != "clock" ensures !Resolvable(repo, n) {
      ReachSelf(repo, n);
    }
  }

  lemma BootInv(repo: Repo, roots: seq<Name>)
    requires ValidRepo(repo) && Honest(repo) && |roots| <= MAX_PACKAGES
    ensures Inv(repo, Boot(repo, roots)) && Boot(repo, roots).roots == roots
  {
    SyncInv(repo, Daemon([], [], [], 0), roots);
  }

  /** A store full of a root that is no longer in the repository: an installation is answered with
      success and has no effect. */
  lemma InstallLost(repo: Repo, d: Daemon)
    requires repo == ONE_PACKAGE && ValidRepo(repo) && d == Boot(repo, seq(MAX_PACKAGES, _ => "gone"))
    ensures var (e, a) := Install(repo, d, "clock", true);
      a.Installed? && "clock" !in NamesOf(e.installed) && e.roots == d.roots
  {
    var roots: seq<Name> := seq(MAX_PACKAGES, _ => "gone");
    LoneFacts(repo);
    BootInv(repo, roots);
    InstalledExact(repo, d);
    assert forall r :: r in d.roots ==> r == "gone";
    assert !Needed(repo, d.roots, "clock");
    InstallTakesEffect(repo, d, "clock");
    InstallExact(repo, d, "clock");
    InstallIsSync(repo, d, "clock");
  }

  /** A root that the manifest lists twice: a removal is answered as carried out, and the package
      stays. */
  lemma RemoveLost(repo: Repo, d: Daemon)
    requires repo == ONE_PACKAGE && ValidRepo(repo) && d == Boot(repo, ["clock", "clock"])
    ensures var (e, a) := Remove(repo, d, "clock");
      a.Removed? && "clock" in NamesOf(e.installed)
  {
    LoneFacts(repo);
    BootInv(repo, ["clock", "clock"]);
    InstalledExact(repo, d);
    assert "clock" in d.roots && Needed(repo, d.roots, "clock");
    assert multiset(["clock", "clock"])["clock"] == 2;
    RemoveTakesEffect(repo, d, "clock");
    RemoveExact(repo, d, "clock");
  }

  /** A manifest that stages the one package. */
  function Manifest(): string {
    PrintManifest(KEY, "{", "", " ", [Entry("", "clock", "")], "", "}")
  }

  lemma ManifestSeeds()
    ensures Seed(Manifest()) == ["clock"]
  {
    var es := [Entry("", "clock", "")];
    var m, key := Manifest(), KEY;
    assert m[0] == '{' && key[0] == '"';
    AtFirst(m, key);
    SeedExact("{", "", " ", es, "", "}");
    ListedAll(es);
    assert Listed(es) == ["clock"];
  }

  lemma AtFirst(m: string, key: string)
    requires m != "" && key != "" && m[0] != key[0]
    ensures !At(m, 0, key)
  {
    FirstChar(m, key);
  }

  lemma FirstChar(m: string, s: string)
    ensures At(m, 0, s) && s != "" ==> m != "" && m[0] == s[0]
  {
    assert At(m, 0, s) && s != "" ==> m[0 + 0] == s[0];
  }

  /** Staged, removed by the user, and back after the reboot. */
  lemma RemovedComesBack(repo: Repo, d: Daemon, stored: string)
    requires repo == ONE_PACKAGE && ValidRepo(repo) && d == Remove(repo, Boot(repo, ["clock"]), "clock").0
    requires Saves(d.roots, stored)
    ensures "clock" !in NamesOf(d.installed) && "clock" in NamesOf(Boot(repo, StartRoots(stored, Manifest())).installed)
  {
    var first := Boot(repo, ["clock"]);
    LoneFacts(repo);
    BootInv(repo, ["clock"]);
    InstalledExact(repo, first);
    assert "clock" in first.roots && Needed(repo, first.roots, "clock");
    RemoveInv(repo, first, "clock");
    assert d.roots == RemoveRoot(["clock"], "clock") == [];
    InstalledExact(repo, d);
    ManifestSeeds();
    StoredNothing(stored);
    BootExact(repo, ["clock"]);
  }

  lemma StoredNothing(stored: string)
    requires Saves([], stored)
    ensures StoredRoots(stored) == []
  {
    var sorted :| Sorts([], sorted) && stored == Fit(PrintStore(sorted));
    assert |sorted| == |multiset(sorted)| == 0;
    LoadExact([]);
  }
}
