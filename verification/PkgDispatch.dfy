// What each operation of a request does to the daemon, from the words of the request on.

module PkgDispatch {
  import opened Wrappers
  import opened PkgRepo
  import opened PkgResolver
  import opened PkgInstalled
  import opened PkgDaemon
  import opened PkgTheorems
  import opened PkgGroups
  import opened PkgRoots
  import opened PkgRequests

  /** A daemon in a reachable state, and a request with a package that does not repeat the last one. */
  ghost predicate Serving(repo: Repo, s: (Daemon, string), q: Raw) {
    && ValidRepo(repo) && Honest(repo) && Inv(repo, s.0) && RootsOk(repo, s.0.roots)
    && Signature(q) != s.1 && q.pkg != ""
  }

  /** Nothing changes but the signature remembered. */
  predicate Refused(repo: Repo, s: (Daemon, string), q: Raw, a: Answer)
    requires ValidRepo(repo)
  {
    Receive(repo, s, q) == (s.0, Signature(q)) && Reply(repo, s, q) == Some(a)
  }

  // ---- install ------------------------------------------------------------

  /** The package is a root and installed with all it reaches; nothing installed or running is lost,
      and what is new starts if it is meant to start by itself. */
  ghost predicate Added(repo: Repo, d: Daemon, e: Daemon, n: Name) {
    && e.roots == (if n in d.roots then d.roots else d.roots + [n])
    && e.writes == d.writes + 1
    && (forall x :: x in NamesOf(e.installed) <==> x in NamesOf(d.installed) || Reach(repo, n, x))
    && (forall x :: x in e.running <==> x in d.running || (Reach(repo, n, x) && Autostart(repo, x)))
  }

  lemma InstallAdds(repo: Repo, d: Daemon, n: Name)
    requires ValidRepo(repo) && Honest(repo) && Inv(repo, d) && RootsOk(repo, d.roots) && Resolvable(repo, n)
    ensures Added(repo, d, Install(repo, d, n, true).0, n)
  {
    ReachSelf(repo, n);
    Room(repo.index, d.roots);
    InstallAlways(repo, d, n);
    InstallExact(repo, d, n);
    InstallIsSync(repo, d, n);
    RunningAfterInstall(repo, d, n);
  }

  /** `install` of a package that resolves and is admitted puts it in, and the answer lists what came
      with it; any other is refused for its reason and changes nothing. */
  lemma InstallServed(repo: Repo, s: (Daemon, string), q: Raw)
    requires Serving(repo, s, q) && q.op == "install"
    ensures
      if !Resolvable(repo, q.pkg) then exists e :: Genuine(repo, q.pkg, e) && Refused(repo, s, q, Unresolved(e))
      else if !q.admitted then Refused(repo, s, q, Insufficient)
      else
        var d, e, a := s.0, Receive(repo, s, q).0, Reply(repo, s, q);
        && Added(repo, d, e, q.pkg) && q.pkg in e.roots && q.pkg in NamesOf(e.installed)
        && a.Some? && a.value.Installed?
        && forall x :: x in a.value.added <==> x in NamesOf(e.installed) && x !in NamesOf(d.installed)
  {
    assert Parse(q) == InstallReq(q.pkg, q.admitted);
    ResolveExact(repo, NameSet(s.0.installed), q.pkg);
    if !Resolvable(repo, q.pkg) {
      var e := Resolve(repo, NameSet(s.0.installed), q.pkg).error.value;
      assert Genuine(repo, q.pkg, e) && Refused(repo, s, q, Unresolved(e));
    } else if q.admitted {
      InstallAdds(repo, s.0, q.pkg);
      InstallExact(repo, s.0, q.pkg);
      ReachSelf(repo, q.pkg);
    }
  }

  // ---- remove -------------------------------------------------------------

  /** One root goes, and with it exactly what no other root needs. */
  ghost predicate Taken(repo: Repo, d: Daemon, e: Daemon, n: Name) {
    && e.writes == d.writes + 1
    && (forall r :: r in e.roots <==> r in d.roots && r != n)
    && (forall x :: x in NamesOf(e.installed) <==> exists r :: r in d.roots && r != n && Needs(repo, r, x))
    && (forall x :: x in e.running <==> x in d.running && x in NamesOf(e.installed))
  }

  lemma RunningAfterRemove(repo: Repo, d: Daemon, n: Name)
    requires ValidRepo(repo) && Honest(repo) && Inv(repo, d) && n in NamesOf(d.installed)
    ensures var e := Remove(repo, d, n).0;
      forall x :: x in e.running <==> x in d.running && x in NamesOf(e.installed)
  {
    var e := Remove(repo, d, n).0;
    RemoveExact(repo, d, n);
    RemoveInv(repo, d, n);
    InstalledExact(repo, d);
    InstalledExact(repo, e);
    KeepExact(d.running, NameSet(e.installed));
    var kept := Keep(d.running, NameSet(e.installed));
    forall p | p in e.installed && p.autostart ensures p.name in kept {
      InstalledGroup(repo, e.installed, p);
      assert Autostarts(e.installed, p.name);
      AutostartKnown(repo, d, e.installed, p.name);
    }
    AddAutoNone(kept, e.installed);
  }

  lemma RemoveTakes(repo: Repo, d: Daemon, n: Name)
    requires ValidRepo(repo) && Honest(repo) && Inv(repo, d) && RootsOk(repo, d.roots) && n in NamesOf(d.installed)
    ensures Taken(repo, d, Remove(repo, d, n).0, n)
  {
    var e := Remove(repo, d, n).0;
    RemoveExact(repo, d, n);
    RemoveRootExact(d.roots, n);
    DistinctCount(d.roots, n);
    RunningAfterRemove(repo, d, n);
    RemoveInv(repo, d, n);
    forall x ensures Needed(repo, e.roots, x) <==> exists r :: r in d.roots && r != n && Needs(repo, r, x) {
    }
    InstalledExact(repo, e);
  }

  /** `remove` of an installed package takes its root; the package stays, like any other, exactly
      where another root needs it, and the answer lists what went. */
  lemma RemoveServed(repo: Repo, s: (Daemon, string), q: Raw)
    requires Serving(repo, s, q) && q.op == "remove"
    ensures
      if q.pkg !in NamesOf(s.0.installed) then Refused(repo, s, q, NotInstalled)
      else
        var d, e, a := s.0, Receive(repo, s, q).0, Reply(repo, s, q);
        && Taken(repo, d, e, q.pkg)
        && a.Some? && a.value.Removed?
        && forall x :: x in a.value.removed <==> x in NamesOf(d.installed) && x !in NamesOf(e.installed)
  {
    assert Parse(q) == RemoveReq(q.pkg);
    if q.pkg in NamesOf(s.0.installed) {
      RemoveTakes(repo, s.0, q.pkg);
      RemoveExact(repo, s.0, q.pkg);
    }
  }

  // ---- launch -------------------------------------------------------------

  lemma LaunchOutcome(repo: Repo, d: Daemon, n: Name, staged: bool, admitted: bool)
    requires ValidRepo(repo) && Honest(repo) && Inv(repo, d) && "" !in repo.index
    requires n in NamesOf(d.installed) && n !in d.running
    ensures var r := Launch(d, n, staged, admitted);
      if exists o :: o in d.running && Clash(repo, n, o) then
        exists o :: o in d.running && Clash(repo, n, o) && r == (d, Conflict(o, Group(repo, n)))
      else if !staged then r == (d, BinaryMissing)
      else if !admitted then r == (d, Insufficient)
      else r == (d.(running := d.running + [n], writes := d.writes + 1), Launched)
  {
    LaunchConflict(repo, d, n, staged, admitted);
    LaunchInv(repo, d, n, staged, admitted);
    assert Lookup(d.installed, n).group == Group(repo, n) by {
      InstalledExact(repo, d);
      InstalledGroup(repo, d.installed, Lookup(d.installed, n));
    }
  }

  lemma LaunchAsked(repo: Repo, s: (Daemon, string), q: Raw)
    requires ValidRepo(repo) && q.op == "launch" && q.pkg != "" && Signature(q) != s.1
    ensures var r := Launch(s.0, q.pkg, q.staged, q.admitted);
      Receive(repo, s, q) == (r.0, Signature(q)) && Reply(repo, s, q) == Some(r.1)
  {
    assert Parse(q) == LaunchReq(q.pkg, q.staged, q.admitted);
  }

  /** `launch` starts an installed package that is not running, clashes with nothing that runs, is in
      the image and is admitted, and changes nothing else; every other one is refused, for the first
      reason in that order. */
  lemma LaunchServed(repo: Repo, s: (Daemon, string), q: Raw)
    requires Serving(repo, s, q) && q.op == "launch" && "" !in repo.index
    ensures var d := s.0;
      if q.pkg !in NamesOf(d.installed) then Refused(repo, s, q, NotInstalled)
      else if q.pkg in d.running then Refused(repo, s, q, AlreadyRunning)
      else if exists o :: o in d.running && Clash(repo, q.pkg, o) then
        exists o :: o in d.running && Clash(repo, q.pkg, o) && Refused(repo, s, q, Conflict(o, Group(repo, q.pkg)))
      else if !q.staged then Refused(repo, s, q, BinaryMissing)
      else if !q.admitted then Refused(repo, s, q, Insufficient)
      else
        && Receive(repo, s, q) == (d.(running := d.running + [q.pkg], writes := d.writes + 1), Signature(q))
        && Reply(repo, s, q) == Some(Launched)
  {
    var d, n := s.0, q.pkg;
    LaunchAsked(repo, s, q);
    if n in NamesOf(d.installed) && n !in d.running {
      LaunchOutcome(repo, d, n, q.staged, q.admitted);
      if exists o :: o in d.running && Clash(repo, n, o) {
        var o :| o in d.running && Clash(repo, n, o) && Launch(d, n, q.staged, q.admitted) == (d, Conflict(o, Group(repo, n)));
        assert Refused(repo, s, q, Conflict(o, Group(repo, n)));
      }
    }
  }

  // ---- the requests that change nothing -----------------------------------

  /** `explain` answers with what the package reaches, dependencies first, or with the reason why it
      does not resolve. */
  lemma ExplainServed(repo: Repo, s: (Daemon, string), q: Raw)
    requires Serving(repo, s, q) && q.op == "explain"
    ensures
      if Resolvable(repo, q.pkg) then
        exists plan ::
          && Refused(repo, s, q, Explained(plan))
          && (forall x :: x in NamesOf(plan) <==> Reach(repo, q.pkg, x)) && Closed(repo, NamesOf(plan)) && Distinct(NamesOf(plan))
      else exists e :: Genuine(repo, q.pkg, e) && Refused(repo, s, q, Unresolved(e))
  {
    assert Parse(q) == ExplainReq(q.pkg);
    var installed := NameSet(s.0.installed);
    ResolveExact(repo, installed, q.pkg);
    var r := Resolve(repo, installed, q.pkg);
    if r.ok {
      PlanExact(repo, installed, q.pkg);
      assert NamesOf(r.plan) == r.done;
      assert Refused(repo, s, q, Explained(r.plan));
    } else {
      assert Genuine(repo, q.pkg, r.error.value) && Refused(repo, s, q, Unresolved(r.error.value));
    }
  }

  /** Everything else is answered without a change: a listing, a request without a package, an
      operation that there is not, and a repetition. */
  lemma OthersServed(repo: Repo, s: (Daemon, string), q: Raw)
    requires ValidRepo(repo)
    requires q.pkg == "" || q.op !in {"install", "remove", "launch", "explain"}
    ensures if Signature(q) == s.1 then Receive(repo, s, q) == s && Reply(repo, s, q) == None
      else Refused(repo, s, q, Unchanged)
  {
  }

  lemma RepeatServed(repo: Repo, s: (Daemon, string), q: Raw)
    requires ValidRepo(repo) && Signature(q) == s.1
    ensures Receive(repo, s, q) == s && Reply(repo, s, q) == None
  {
  }
}
