// The daemon itself: the resolver's tables, the installed list, the running table and the
// request handler, each method proved equal to the function that specifies it.

module PkgMain {
  import opened Wrappers
  import opened PkgRepo
  import opened PkgResolver
  import opened PkgInstalled
  import opened PkgDaemon
  import opened PkgRequests
  import PkgBake
  import PkgStore
  import PkgGenerated

  method Contains(names: seq<Name>, n: Name) returns (found: bool)
    ensures found <==> n in names
  {
    for i := 0 to |names|
      invariant n !in names[..i]
    {
      if names[i] == n {
        return true;
      }
    }
    assert names[..|names|] == names;
    return false;
  }

  method HasPackage(ps: seq<Package>, n: Name) returns (found: bool)
    ensures found <==> n in NamesOf(ps)
  {
    for i := 0 to |ps|
      invariant n !in NamesOf(ps)[..i]
    {
      assert NamesOf(ps)[i] == ps[i].name;
      if ps[i].name == n {
        return true;
      }
    }
    assert NamesOf(ps)[..|ps|] == NamesOf(ps);
    return false;
  }

  method FindPackage(ps: seq<Package>, n: Name) returns (i: nat)
    ensures i == FirstIndex(NamesOf(ps), n)
  {
    i := 0;
    while i < |ps|
      invariant i <= |ps| && n !in NamesOf(ps)[..i]
    {
      assert NamesOf(ps)[i] == ps[i].name;
      if ps[i].name == n {
        FirstIndexIs(NamesOf(ps), n, i);
        return;
      }
      i := i + 1;
    }
    assert NamesOf(ps)[..i] == NamesOf(ps);
  }

  /** The roots that the store holds, or else those that the manifest lists, which are then stored. */
  method RestoreRoots(stored: string, manifest: string) returns (roots: seq<Name>, text: string)
    ensures roots == PkgStore.StartRoots(stored, manifest)
    ensures if PkgStore.StoredRoots(stored) != [] || roots == [] then text == stored else PkgStore.Saves(roots, text)
  {
    var restored := PkgStore.LoadStore(stored);
    var seeded: bool;
    roots, seeded := PkgBake.SeedRootsFromBake(manifest, restored);
    text := stored;
    if seeded {
      text := PkgStore.SaveStore(roots);
    }
  }

  class Main {
    const repo: Repo
    const prefix: string

    // resolution
    var ok: bool
    var error: Option<Error>
    var plan: seq<Package>
    var visiting: seq<Name>
    var done: seq<Name>

    // state
    var roots: seq<Name>
    var installed: seq<Package>
    const running: array<Name>
    var numRunning: nat
    var writes: nat
    var lastSig: string

    // what has been written
    var stored: string
    var configs: PkgGenerated.Configs

    ghost predicate Valid()
      reads this`numRunning
    {
      ValidRepo(repo) && running.Length == MAX_PACKAGES && numRunning <= MAX_PACKAGES
    }

    ghost function Resolution(): State
      reads this`ok, this`error, this`plan, this`visiting, this`done
    {
      State(ok, error, plan, visiting, done)
    }

    ghost function Running(): seq<Name>
      requires Valid()
      reads this`numRunning, running
    {
      running[..numRunning]
    }

    ghost function View(): Daemon
      requires Valid()
      reads this`roots, this`installed, this`numRunning, this`writes, running
    {
      Daemon(roots, installed, Running(), writes)
    }

    /** The configurations last written are those of the present state. */
    ghost predicate Current()
      requires Valid()
      reads this`roots, this`installed, this`numRunning, this`writes, this`configs, running
    {
      Distinct(NamesOf(installed)) && PkgGenerated.Written(prefix, View(), configs)
    }

    /** An installation or a removal has stored the roots; nothing else changes either. */
    ghost predicate Kept(a: Answer, before: seq<Name>, text: string)
      reads this`roots, this`stored
    {
      if a.Installed? || a.Removed? then PkgStore.Saves(roots, stored) else roots == before && stored == text
    }

    /** Start-up: the roots are restored from the store, or seeded from the manifest and then stored. */
    constructor (repo: Repo, prefix: string, stored: string, manifest: string)
      requires ValidRepo(repo)
      ensures Valid() && fresh(running) && this.repo == repo && this.prefix == prefix && lastSig == ""
      ensures View() == Boot(repo, PkgStore.StartRoots(stored, manifest)) && Current()
      ensures if PkgStore.StoredRoots(stored) != [] || roots == [] then this.stored == stored else PkgStore.Saves(roots, this.stored)
    {
      var start, text := RestoreRoots(stored, manifest);
      this.repo, this.prefix, this.stored := repo, prefix, text;
      ok, error, plan, visiting, done := false, None, [], [], [];
      roots, installed, writes, lastSig := start, [], 0, "";
      running := new Name[MAX_PACKAGES](_ => "");
      numRunning := 0;
      configs := PkgGenerated.Configs([], [], [], []);
      new;
      StartUp();
    }

    method StartUp()
      requires Valid() && installed == [] && numRunning == 0 && writes == 0
      modifies this`ok, this`error, this`plan, this`visiting, this`done, this`installed, this`numRunning, running
      modifies this`configs, this`writes
      ensures Valid() && Current() && View() == Boot(repo, roots)
    {
      assert Running() == [];
      BootIs(repo, roots, View());
      Resync(View());
      GenerateRuntimeConfig();
    }

    /** The installed list and the running table are derived anew. */
    method Resync(ghost was: Daemon)
      requires Valid() && was == Daemon(was.roots, installed, Running(), writes)
      modifies this`ok, this`error, this`plan, this`visiting, this`done, this`installed, this`numRunning, running
      ensures Valid() && View().(writes := writes + 1) == Sync(repo, was, roots) && Distinct(NamesOf(installed))
    {
      SyncInstalled();
      SyncRunningState();
    }

    // ---- resolution -------------------------------------------------------

    method LoadPackage(n: Name) returns (p: Package)
      modifies this`ok, this`error
      ensures match Load(repo, visiting, n)
        case Loaded(pkg) => p == pkg && ok == old(ok) && error == old(error)
        case Failed(e) => !ok && error == Some(e)
    {
      p := Package(n, [], "", "", 0, "", [], false, false, "", false);
      var known := Contains(repo.index, n);
      if !known {
        error := Some(if |visiting| == 0 then NotFound(n) else NotInRepository(visiting[|visiting| - 1], n));
        ok := false;
        return;
      }
      match MetaOf(repo, n) {
        case Valid(pkg) => p := pkg;
        case NoModule => error, ok := Some(NotFound(n)), false;
        case m => error, ok := Some(Malformed(n, m)), false;
      }
    }

    method Visit(n: Name)
      requires Bounded(repo, Resolution())
      modifies this`ok, this`error, this`plan, this`visiting, this`done
      ensures Resolution() == PkgResolver.Visit(repo, NameSet(installed), old(Resolution()), n)
      decreases |Unvisited(repo, visiting)|, 0
    {
      ghost var s := Resolution();
      if !ok {
        return;
      }
      var isDone := Contains(done, n);
      if isDone {
        return;
      }
      var reused := HasPackage(installed, n);
      var again := Contains(visiting, n);
      if again {
        error, ok := Some(Cycle(visiting, n)), false;
        return;
      }
      var p := LoadPackage(n);
      if !ok {
        return;
      }
      p := p.(reused := reused);
      EnterBounded(repo, s, n);
      if |visiting| < MAX_PACKAGES {
        visiting := visiting + [n];
      }
      VisitDeps(p.deps);
      LeavePackage(n, p);
    }

    method VisitDeps(deps: seq<Name>)
      requires Bounded(repo, Resolution())
      modifies this`ok, this`error, this`plan, this`visiting, this`done
      ensures Resolution() == VisitAll(repo, NameSet(installed), old(Resolution()), deps, 0)
      decreases |Unvisited(repo, visiting)|, 1
    {
      ghost var entered := Resolution();
      var i := 0;
      while i < |deps| && ok
        invariant i <= |deps| && visiting == entered.visiting && Bounded(repo, Resolution())
        invariant VisitAll(repo, NameSet(installed), Resolution(), deps, i)
               == VisitAll(repo, NameSet(installed), entered, deps, 0)
        decreases |deps| - i
      {
        Visit(deps[i]);
        i := i + 1;
      }
    }

    method LeavePackage(n: Name, p: Package)
      modifies this`plan, this`visiting, this`done
      ensures Resolution() == Leave(old(Resolution()), n, p)
    {
      if |visiting| > 0 {
        visiting := visiting[..|visiting| - 1];
      }
      if |done| < MAX_PACKAGES {
        done := done + [n];
      }
      if |plan| < MAX_PACKAGES {
        plan := plan + [p];
      }
    }

    method Resolve(root: Name)
      requires ValidRepo(repo)
      modifies this`ok, this`error, this`plan, this`visiting, this`done
      ensures Resolution() == PkgResolver.Resolve(repo, NameSet(installed), root)
    {
      ok, error, plan, visiting, done := true, None, [], [], [];
      Visit(root);
    }

    // ---- roots, installed packages ----------------------------------------

    method AddRoot(n: Name)
      modifies this`roots
      ensures roots == PkgDaemon.AddRoot(old(roots), n)
    {
      var present := Contains(roots, n);
      if present {
        return;
      }
      if |roots| < MAX_PACKAGES {
        roots := roots + [n];
      }
    }

    /** The last root takes the place of the removed one. */
    method DropRoot(n: Name)
      modifies this`roots
      ensures roots == RemoveRoot(old(roots), n)
    {
      var i := 0;
      while i < |roots|
        invariant i <= |roots| && n !in roots[..i] && roots == old(roots)
      {
        if roots[i] == n {
          FirstIndexIs(roots, n, i);
          roots := roots[i := roots[|roots| - 1]];
          roots := roots[..|roots| - 1];
          return;
        }
        i := i + 1;
      }
      assert roots[..i] == roots;
    }

    method AddPlan(now: seq<Package>) returns (more: seq<Package>)
      ensures more == AddNew(now, plan)
    {
      more := now;
      for j := 0 to |plan|
        invariant more == AddNew(now, plan[..j])
      {
        assert plan[..j + 1][..j] == plan[..j];
        var present := HasPackage(more, plan[j].name);
        if !present && |more| < MAX_PACKAGES {
          more := more + [plan[j]];
        }
      }
      assert plan[..|plan|] == plan;
    }

    method SyncInstalled()
      requires ValidRepo(repo)
      modifies this`ok, this`error, this`plan, this`visiting, this`done, this`installed
      ensures installed == Derive(repo, NameSet(old(installed)), roots) && Distinct(NamesOf(installed))
    {
      var now: seq<Package> := [];
      ghost var before := NameSet(installed);
      for r := 0 to |roots|
        invariant installed == old(installed) && now == Derive(repo, before, roots[..r])
      {
        assert roots[..r + 1][..r] == roots[..r];
        Resolve(roots[r]);
        if !ok {
          continue;
        }
        now := AddPlan(now);
      }
      assert roots[..|roots|] == roots;
      PkgGenerated.DeriveDistinct(repo, before, roots);
      installed := now;
    }

    // ---- the running table ------------------------------------------------

    method IsRunning(n: Name) returns (found: bool)
      requires Valid()
      ensures found <==> n in Running()
    {
      for i := 0 to numRunning
        invariant n !in running[..i]
      {
        if running[i] == n {
          return true;
        }
      }
      return false;
    }

    method AddRunning(n: Name)
      requires Valid()
      modifies this`numRunning, running
      ensures Valid() && Running() == PkgDaemon.AddRunning(old(Running()), n)
    {
      var present := IsRunning(n);
      if present {
        return;
      }
      if numRunning < MAX_PACKAGES {
        running[numRunning] := n;
        numRunning := numRunning + 1;
      }
    }

    /** In-place compaction: the names that stay installed move to the front, in order. */
    method DropUninstalled()
      requires Valid()
      modifies this`numRunning, running
      ensures Valid() && Running() == Keep(old(Running()), NameSet(installed))
    {
      ghost var was := Running();
      var w := 0;
      for i := 0 to numRunning
        invariant w <= i && numRunning == old(numRunning)
        invariant forall k :: i <= k < numRunning ==> running[k] == was[k]
        invariant running[..w] == Keep(was[..i], NameSet(installed))
      {
        assert was[..i + 1][..i] == was[..i];
        var stays := HasPackage(installed, running[i]);
        if stays {
          running[w] := running[i];
          w := w + 1;
        }
      }
      assert was[..numRunning] == was;
      numRunning := w;
    }

    method SyncRunningState()
      requires Valid()
      modifies this`numRunning, running
      ensures Valid() && Running() == SyncRunning(old(Running()), installed)
    {
      DropUninstalled();
      ghost var kept := Running();
      for i := 0 to |installed|
        invariant Valid() && Running() == AddAuto(kept, installed[..i])
      {
        assert installed[..i + 1][..i] == installed[..i];
        if installed[i].autostart {
          AddRunning(installed[i].name);
        }
      }
      assert installed[..|installed|] == installed;
    }

    /** The running peer that holds the package's exclusive group; the empty name for none. */
    method ExclusivePeer(p: Package, self: Name) returns (peer: Name)
      requires Valid()
      ensures peer == Peer(View(), p, self)
    {
      if p.group == "" {
        return "";
      }
      for i := 0 to |installed|
        invariant PeerIn(View(), installed, p, self) == PeerIn(View(), installed[i..], p, self)
      {
        var o := installed[i];
        assert installed[i..][0] == o && installed[i..][1..] == installed[i + 1..];
        var isRunning := IsRunning(o.name);
        if o.group == "" || !isRunning {
          continue;
        }
        if o.group != p.group {
          continue;
        }
        if o.name == self {
          continue;
        }
        return o.name;
      }
      return "";
    }

    // ---- the operations ---------------------------------------------------

    method GenerateRuntimeConfig()
      requires Valid() && Distinct(NamesOf(installed))
      modifies this`configs, this`writes
      ensures Valid() && Current() && writes == old(writes) + 1
    {
      configs := PkgGenerated.Generate(prefix, installed, running[..numRunning]);
      writes := writes + 1;
    }

    /** What both operations on the roots do once the roots are changed. */
    method SyncAll(ghost was: Daemon)
      requires Valid() && was == Daemon(was.roots, installed, Running(), writes)
      modifies this`ok, this`error, this`plan, this`visiting, this`done, this`installed, this`numRunning, this`writes, running
      modifies this`stored, this`configs
      ensures Valid() && View() == Sync(repo, was, roots)
      ensures Current() && PkgStore.Saves(roots, stored)
    {
      Resync(was);
      stored := PkgStore.SaveStore(roots);
      GenerateRuntimeConfig();
    }

    method Difference(a: seq<Package>, b: seq<Package>) returns (names: seq<Name>)
      ensures names == Minus(NamesOf(a), NamesOf(b))
    {
      names := [];
      for i := 0 to |a|
        invariant names == Minus(NamesOf(a)[..i], NamesOf(b))
      {
        assert NamesOf(a)[..i + 1][..i] == NamesOf(a)[..i] && NamesOf(a)[i] == a[i].name;
        var was := HasPackage(b, a[i].name);
        if !was {
          names := names + [a[i].name];
        }
      }
      assert NamesOf(a)[..|a|] == NamesOf(a);
    }

    /** What an accepted installation does. */
    method CommitInstall(n: Name) returns (added: seq<Name>)
      requires Valid()
      modifies this, running
      ensures Valid() && Current() && lastSig == old(lastSig) && PkgStore.Saves(roots, stored)
      ensures View() == Sync(repo, old(View()), PkgDaemon.AddRoot(old(roots), n))
      ensures added == Minus(NamesOf(installed), NamesOf(old(installed)))
    {
      ghost var was := View();
      var before := installed;
      AddRoot(n);
      SyncAll(was);
      added := Difference(installed, before);
    }

    method DoInstall(n: Name, admitted: bool) returns (answer: Answer)
      requires Valid() && Current()
      modifies this, running
      ensures Valid() && Current() && lastSig == old(lastSig) && Kept(answer, old(roots), old(stored))
      ensures (View(), answer) == Install(repo, old(View()), n, admitted)
    {
      ghost var was := View();
      Resolve(n);
      InstallCases(repo, was, n, admitted, Resolution());
      if !ok {
        return Unresolved(if error.Some? then error.value else NotFound(n));
      }
      if !admitted {
        return Insufficient;
      }
      var added := CommitInstall(n);
      return Installed(added);
    }

    /** What the removal of an installed package does. */
    method CommitRemove(n: Name) returns (removed: seq<Name>)
      requires Valid()
      modifies this, running
      ensures Valid() && Current() && lastSig == old(lastSig) && PkgStore.Saves(roots, stored)
      ensures View() == Sync(repo, old(View()), RemoveRoot(old(roots), n))
      ensures removed == Minus(NamesOf(old(installed)), NamesOf(installed))
    {
      var before := installed;
      SyncWithout(n);
      removed := Difference(before, installed);
    }

    method SyncWithout(n: Name)
      requires Valid()
      modifies this, running
      ensures Valid() && Current() && lastSig == old(lastSig) && PkgStore.Saves(roots, stored)
      ensures View() == Sync(repo, old(View()), RemoveRoot(old(roots), n))
    {
      ghost var was := View();
      DropRoot(n);
      SyncAll(was);
    }

    method DoRemove(n: Name) returns (answer: Answer)
      requires Valid() && Current()
      modifies this, running
      ensures Valid() && Current() && lastSig == old(lastSig) && Kept(answer, old(roots), old(stored))
      ensures (View(), answer) == Remove(repo, old(View()), n)
    {
      RemoveCases(repo, View(), n);
      var present := HasPackage(installed, n);
      if !present {
        return NotInstalled;
      }
      var removed := CommitRemove(n);
      return Removed(removed);
    }

    /** What an accepted launch does. */
    method CommitLaunch(n: Name)
      requires Valid() && Current()
      modifies this`numRunning, this`configs, this`writes, running
      ensures Valid() && Current()
      ensures View() == old(View()).(running := PkgDaemon.AddRunning(old(Running()), n), writes := old(writes) + 1)
    {
      AddRunning(n);
      GenerateRuntimeConfig();
    }

    method DoLaunch(n: Name, staged: bool, admitted: bool) returns (answer: Answer)
      requires Valid() && Current()
      modifies this, running
      ensures Valid() && Current() && lastSig == old(lastSig) && Kept(answer, old(roots), old(stored))
      ensures (View(), answer) == Launch(old(View()), n, staged, admitted)
    {
      var present := HasPackage(installed, n);
      if !present {
        return NotInstalled;
      }
      var already := IsRunning(n);
      if already {
        return AlreadyRunning;
      }
      var i := FindPackage(installed, n);
      var peer := ExclusivePeer(installed[i], n);
      LaunchCases(View(), n, i, peer, staged, admitted);
      if peer != "" {
        return Conflict(peer, installed[i].group);
      }
      if !staged {
        return BinaryMissing;
      }
      if !admitted {
        return Insufficient;
      }
      CommitLaunch(n);
      return Launched;
    }

    /** A request with the signature of the one before it changes nothing; its answer is a replay. */
    method HandleRequest(q: Raw) returns (answer: Option<Answer>)
      requires Valid() && Current()
      modifies this, running
      ensures Valid() && Current()
      ensures if answer.Some? then Kept(answer.value, old(roots), old(stored)) else stored == old(stored)
      ensures (View(), lastSig) == Receive(repo, (old(View()), old(lastSig)), q)
      ensures answer == Reply(repo, (old(View()), old(lastSig)), q)
    {
      var sig := Signature(q);
      if sig == lastSig {
        return None;
      }
      var done := Perform(q);
      lastSig := sig;
      return Some(done);
    }

    method Perform(q: Raw) returns (answer: Answer)
      requires Valid() && Current()
      modifies this, running
      ensures Valid() && Current() && lastSig == old(lastSig) && Kept(answer, old(roots), old(stored))
      ensures (View(), answer) == Serve(repo, old(View()), Parse(q))
    {
      if q.op == "list" || q.pkg == "" {
        return Unchanged;
      }
      if q.op == "explain" {
        Resolve(q.pkg);
        return if ok then Explained(plan) else Unresolved(if error.Some? then error.value else NotFound(q.pkg));
      }
      answer := Unchanged;
      if q.op == "install" {
        answer := DoInstall(q.pkg, q.admitted);
      } else if q.op == "remove" {
        answer := DoRemove(q.pkg);
      } else if q.op == "launch" {
        answer := DoLaunch(q.pkg, q.staged, q.admitted);
      }
    }
  }

  lemma InstallCases(repo: Repo, d: Daemon, n: Name, admitted: bool, r: State)
    requires ValidRepo(repo) && r == PkgResolver.Resolve(repo, NameSet(d.installed), n)
    ensures Install(repo, d, n, admitted) ==
      if !r.ok then (d, Unresolved(if r.error.Some? then r.error.value else NotFound(n)))
      else if !admitted then (d, Insufficient)
      else
        var e := Sync(repo, d, PkgDaemon.AddRoot(d.roots, n));
        (e, Installed(Minus(NamesOf(e.installed), NamesOf(d.installed))))
  {
  }

  lemma RemoveCases(repo: Repo, d: Daemon, n: Name)
    requires ValidRepo(repo)
    ensures Remove(repo, d, n) ==
      if n !in NamesOf(d.installed) then (d, NotInstalled)
      else
        var e := Sync(repo, d, RemoveRoot(d.roots, n));
        (e, Removed(Minus(NamesOf(d.installed), NamesOf(e.installed))))
  {
  }

  lemma LaunchCases(d: Daemon, n: Name, i: nat, peer: Name, staged: bool, admitted: bool)
    requires n in NamesOf(d.installed) && n !in d.running && i == FirstIndex(NamesOf(d.installed), n)
    requires peer == Peer(d, d.installed[i], n)
    ensures Launch(d, n, staged, admitted) ==
      if peer != "" then (d, Conflict(peer, d.installed[i].group))
      else if !staged then (d, BinaryMissing)
      else if !admitted then (d, Insufficient)
      else (d.(running := PkgDaemon.AddRunning(d.running, n), writes := d.writes + 1), Launched)
  {
  }

  lemma BootIs(repo: Repo, roots: seq<Name>, was: Daemon)
    requires ValidRepo(repo) && was == Daemon(roots, [], [], 0)
    ensures Sync(repo, was, roots) == Boot(repo, roots)
  {
  }

  lemma {:induction false} FirstIndexIs(s: seq<Name>, n: Name, i: nat)
    requires i < |s| && s[i] == n && n !in s[..i]
    ensures FirstIndex(s, n) == i
  {
    if i > 0 {
      assert s[..i] == [s[0]] + s[1..][..i - 1];
      FirstIndexIs(s[1..], n, i - 1);
    }
  }
}
