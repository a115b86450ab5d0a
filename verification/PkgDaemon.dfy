// The package daemon's state and its three operations, as functions.

module PkgDaemon {
  import opened Wrappers
  import opened PkgRepo
  import opened PkgResolver
  import opened PkgInstalled

  /** `running` is a subset of the installed names; `writes` counts the generated configurations. */
  datatype Daemon = Daemon(roots: seq<Name>, installed: seq<Package>, running: seq<Name>, writes: nat)

  datatype Answer =
    | Unresolved(error: Error)
    | NotInstalled
    | Insufficient
    | Installed(added: seq<Name>)
    | Removed(removed: seq<Name>)
    | AlreadyRunning
    | Conflict(peer: Name, group: string)
    | BinaryMissing
    | Launched
    | Explained(plan: seq<Package>)
    | Unchanged

  // ---- roots --------------------------------------------------------------

  function AddRoot(roots: seq<Name>, n: Name): seq<Name> {
    if n in roots then roots else Push(roots, n)
  }

  function FirstIndex(s: seq<Name>, n: Name): (i: nat)
    ensures i <= |s| && n !in s[..i] && (i < |s| ==> s[i] == n)
    ensures i == |s| <==> n !in s
  {
    if s == [] || s[0] == n then 0 else
      var i := 1 + FirstIndex(s[1..], n);
      assert s[..i] == [s[0]] + s[1..][..i - 1];
      i
  }

  /** The first occurrence is overwritten by the last root, and the last place given up. */
  function RemoveRoot(roots: seq<Name>, n: Name): seq<Name> {
    var i := FirstIndex(roots, n);
    if i == |roots| then roots else roots[i := roots[|roots| - 1]][..|roots| - 1]
  }

  lemma RemoveRootCount(roots: seq<Name>, n: Name)
    ensures multiset(RemoveRoot(roots, n)) == multiset(roots) - multiset{n}
  {
    var i := FirstIndex(roots, n);
    if i < |roots| {
      OverwriteCount(roots, i);
    } else {
      assert n !in multiset(roots);
    }
  }

  lemma OverwriteCount(roots: seq<Name>, i: nat)
    requires i < |roots|
    ensures multiset(roots[i := roots[|roots| - 1]][..|roots| - 1]) == multiset(roots) - multiset{roots[i]}
  {
    var last := |roots| - 1;
    var moved := roots[i := roots[last]];
    assert moved == moved[..last] + [roots[last]];
    assert multiset(moved[..last]) == multiset(moved) - multiset{roots[last]};
  }

  /** One occurrence goes, and no more. */
  lemma RemoveRootExact(roots: seq<Name>, n: Name)
    ensures multiset(RemoveRoot(roots, n)) == multiset(roots) - multiset{n}
    ensures |RemoveRoot(roots, n)| <= |roots|
    ensures forall x :: x != n ==> (x in RemoveRoot(roots, n) <==> x in roots)
    ensures n in RemoveRoot(roots, n) <==> multiset(roots)[n] > 1
  {
    RemoveRootCount(roots, n);
    var left := RemoveRoot(roots, n);
    forall x ensures x in left <==> multiset(left)[x] > 0 {
      assert x in left <==> x in multiset(left);
    }
    forall x ensures x in roots <==> multiset(roots)[x] > 0 {
      assert x in roots <==> x in multiset(roots);
    }
  }

  lemma {:induction false} DistinctCount(s: seq<Name>, n: Name)
    requires Distinct(s)
    ensures multiset(s)[n] <= 1
  {
    if s != [] {
      var init, last := s[..|s| - 1], s[|s| - 1];
      DistinctCount(init, n);
      assert s == init + [last];
      assert last !in init;
      assert last !in multiset(init);
    }
  }

  // ---- the running set ----------------------------------------------------

  function Keep(running: seq<Name>, names: set<Name>): seq<Name> {
    if running == [] then [] else
      var init, last := Keep(running[..|running| - 1], names), running[|running| - 1];
      if last in names then init + [last] else init
  }

  function AddRunning(running: seq<Name>, n: Name): seq<Name> {
    if n in running then running else Push(running, n)
  }

  function AddAuto(running: seq<Name>, ps: seq<Package>): seq<Name> {
    if ps == [] then running else
      var before, p := AddAuto(running, ps[..|ps| - 1]), ps[|ps| - 1];
      if p.autostart then AddRunning(before, p.name) else before
  }

  /** Running entries that are no longer installed go, installed autostart packages come. */
  function SyncRunning(running: seq<Name>, ps: seq<Package>): seq<Name> {
    AddAuto(Keep(running, NameSet(ps)), ps)
  }

  // ---- operations ---------------------------------------------------------

  function Sync(repo: Repo, d: Daemon, roots: seq<Name>): Daemon
    requires ValidRepo(repo)
  {
    var ps := Derive(repo, NameSet(d.installed), roots);
    Daemon(roots, ps, SyncRunning(d.running, ps), d.writes + 1)
  }

  /** The names of `a` that are not in `b`, in order. */
  function Minus(a: seq<Name>, b: seq<Name>): seq<Name> {
    if a == [] then [] else
      var init := Minus(a[..|a| - 1], b);
      if a[|a| - 1] in b then init else init + [a[|a| - 1]]
  }

  /** `admitted` is the budget's verdict, taken before anything changes. */
  function Install(repo: Repo, d: Daemon, n: Name, admitted: bool): (Daemon, Answer)
    requires ValidRepo(repo)
  {
    var r := Resolve(repo, NameSet(d.installed), n);
    if !r.ok then (d, Unresolved(if r.error.Some? then r.error.value else NotFound(n)))
    else if !admitted then (d, Insufficient)
    else
      var e := Sync(repo, d, AddRoot(d.roots, n));
      (e, Installed(Minus(NamesOf(e.installed), NamesOf(d.installed))))
  }

  function Remove(repo: Repo, d: Daemon, n: Name): (Daemon, Answer)
    requires ValidRepo(repo)
  {
    if n !in NamesOf(d.installed) then (d, NotInstalled)
    else
      var e := Sync(repo, d, RemoveRoot(d.roots, n));
      (e, Removed(Minus(NamesOf(d.installed), NamesOf(e.installed))))
  }

  /** The first installed package of a name. */
  function Lookup(ps: seq<Package>, n: Name): (p: Package)
    requires n in NamesOf(ps)
    ensures p in ps && p.name == n
  {
    ps[FirstIndex(NamesOf(ps), n)]
  }

  predicate Holds(d: Daemon, o: Package, p: Package, self: Name) {
    o.group != "" && o.name in d.running && o.group == p.group && o.name != self
  }

  /** The running peer that holds the package's exclusive group; the empty name for none. */
  function PeerIn(d: Daemon, ps: seq<Package>, p: Package, self: Name): Name {
    if ps == [] then "" else if Holds(d, ps[0], p, self) then ps[0].name else PeerIn(d, ps[1..], p, self)
  }

  function Peer(d: Daemon, p: Package, self: Name): Name {
    if p.group == "" then "" else PeerIn(d, d.installed, p, self)
  }

  /** `staged`: the package's binary is in the image. */
  function Launch(d: Daemon, n: Name, staged: bool, admitted: bool): (Daemon, Answer) {
    if n !in NamesOf(d.installed) then (d, NotInstalled)
    else if n in d.running then (d, AlreadyRunning)
    else
      var p := Lookup(d.installed, n);
      var peer := Peer(d, p, n);
      if peer != "" then (d, Conflict(peer, p.group))
      else if !staged then (d, BinaryMissing)
      else if !admitted then (d, Insufficient)
      else (d.(running := AddRunning(d.running, n), writes := d.writes + 1), Launched)
  }

  function Explain(repo: Repo, d: Daemon, n: Name): Answer
    requires ValidRepo(repo)
  {
    var r := Resolve(repo, NameSet(d.installed), n);
    if r.ok then Explained(r.plan) else Unresolved(if r.error.Some? then r.error.value else NotFound(n))
  }

  // ---- requests and histories ---------------------------------------------

  datatype Request =
    | InstallReq(pkg: Name, admitted: bool)
    | RemoveReq(pkg: Name)
    | LaunchReq(pkg: Name, staged: bool, admitted: bool)
    | ExplainReq(pkg: Name)
    | Other  // list, and requests without a package or a known operation

  function Serve(repo: Repo, d: Daemon, q: Request): (Daemon, Answer)
    requires ValidRepo(repo)
  {
    match q
    case InstallReq(n, admitted) => Install(repo, d, n, admitted)
    case RemoveReq(n) => Remove(repo, d, n)
    case LaunchReq(n, staged, admitted) => Launch(d, n, staged, admitted)
    case ExplainReq(n) => (d, Explain(repo, d, n))
    case Other => (d, Unchanged)
  }

  predicate Changes(a: Answer) {
    a.Installed? || a.Removed? || a.Launched?
  }

  /** Start-up with the roots restored from the store or seeded from the manifest. */
  function Boot(repo: Repo, roots: seq<Name>): Daemon
    requires ValidRepo(repo)
  {
    Sync(repo, Daemon([], [], [], 0), roots)
  }

  function History(repo: Repo, roots: seq<Name>, reqs: seq<Request>): Daemon
    requires ValidRepo(repo)
  {
    if reqs == [] then Boot(repo, roots)
    else Serve(repo, History(repo, roots, reqs[..|reqs| - 1]), reqs[|reqs| - 1]).0
  }

  /** How many requests of a history were carried out. */
  function CarriedOut(repo: Repo, roots: seq<Name>, reqs: seq<Request>): nat
    requires ValidRepo(repo)
  {
    if reqs == [] then 0
    else
      var before := reqs[..|reqs| - 1];
      CarriedOut(repo, roots, before)
      + if Changes(Serve(repo, History(repo, roots, before), reqs[|reqs| - 1]).1) then 1 else 0
  }

  // ---- the invariant ------------------------------------------------------

  predicate RunningOk(running: seq<Name>, ps: seq<Package>) {
    && Distinct(running)
    && (forall n :: n in running ==> n in NamesOf(ps))
    && (forall p :: p in ps && p.autostart ==> p.name in running)
  }

  predicate Inv(repo: Repo, d: Daemon)
    requires ValidRepo(repo)
  {
    && |d.roots| <= MAX_PACKAGES
    && PlainAll(d.installed) == PlainAll(Derive(repo, {}, d.roots))
    && RunningOk(d.running, d.installed)
  }

  lemma {:induction false} SoundAlike(repo: Repo, a: seq<Package>, b: seq<Package>)
    requires Sound(repo, a) && PlainAll(a) == PlainAll(b)
    ensures Sound(repo, b) && NamesOf(b) == NamesOf(a)
  {
    NamesAlike(a, b);
    forall i | 0 <= i < |b| ensures Loadable(repo, b[i].name) && Plain(b[i]) == Plain(PackageOf(repo, b[i].name)) {
      assert PlainAll(a)[i] == Plain(a[i]) && PlainAll(b)[i] == Plain(b[i]);
      assert NamesOf(a)[i] == a[i].name && NamesOf(b)[i] == b[i].name;
    }
  }

  /** What the invariant says about the installed list. */
  lemma InstalledExact(repo: Repo, d: Daemon)
    requires ValidRepo(repo) && Honest(repo) && Inv(repo, d)
    ensures Sound(repo, d.installed) && |d.installed| <= MAX_PACKAGES
    ensures forall n :: n in NamesOf(d.installed) <==> Needed(repo, d.roots, n)
  {
    DeriveExact(repo, {}, d.roots);
    SoundAlike(repo, Derive(repo, {}, d.roots), d.installed);
    SoundFits(repo, d.installed);
  }

  lemma {:induction false} KeepExact(running: seq<Name>, names: set<Name>)
    requires Distinct(running)
    ensures Distinct(Keep(running, names))
    ensures forall n :: n in Keep(running, names) <==> n in running && n in names
    decreases |running|
  {
    if running != [] {
      var init, last := running[..|running| - 1], running[|running| - 1];
      KeepExact(init, names);
      assert running == init + [last];
      assert last !in init;
    }
  }

  ghost predicate Autostarts(ps: seq<Package>, n: Name) {
    exists p :: p in ps && p.name == n && p.autostart
  }

  /** Adding the autostart packages of a sound list never meets a full table. */
  lemma {:induction false} AddAutoExact(repo: Repo, running: seq<Name>, ps: seq<Package>, k: nat)
    requires ValidRepo(repo) && Sound(repo, ps) && k <= |ps|
    requires Distinct(running) && forall n :: n in running ==> n in NamesOf(ps)
    ensures var r := AddAuto(running, ps[..k]);
      && Distinct(r) && running <= r
      && (forall n :: n in r ==> n in NamesOf(ps))
      && (forall i :: 0 <= i < k && ps[i].autostart ==> ps[i].name in r)
      && (forall n :: n in r[|running|..] ==> Autostarts(ps, n) && n !in running)
    decreases k
  {
    if k > 0 {
      AddAutoExact(repo, running, ps, k - 1);
      assert ps[..k][..k - 1] == ps[..k - 1];
      var before, p := AddAuto(running, ps[..k - 1]), ps[k - 1];
      if p.autostart && p.name !in before {
        AddRunningFits(repo, before, ps, k - 1);
        var r := before + [p.name];
        assert r[|running|..] == before[|running|..] + [p.name];
        assert Autostarts(ps, p.name);
        forall i | 0 <= i < k && ps[i].autostart ensures ps[i].name in r {
          assert i < k - 1 ==> ps[i].name in before;
        }
      }
    }
  }

  lemma AddRunningFits(repo: Repo, running: seq<Name>, ps: seq<Package>, k: nat)
    requires ValidRepo(repo) && Sound(repo, ps) && k < |ps|
    requires Distinct(running) && (forall n :: n in running ==> n in NamesOf(ps))
    requires ps[k].name !in running
    ensures Push(running, ps[k].name) == running + [ps[k].name] && Distinct(running + [ps[k].name])
    ensures ps[k].name in NamesOf(ps)
  {
    assert NamesOf(ps)[k] == ps[k].name;
    forall n | n in running ensures n in repo.index {
      var i :| 0 <= i < |NamesOf(ps)| && NamesOf(ps)[i] == n;
      assert ps[i].name == n;
    }
    Room(repo.index, running);
  }

  lemma SyncRunningOk(repo: Repo, running: seq<Name>, ps: seq<Package>)
    requires ValidRepo(repo) && Sound(repo, ps) && Distinct(running)
    ensures RunningOk(SyncRunning(running, ps), ps)
  {
    var kept := Keep(running, NameSet(ps));
    KeepExact(running, NameSet(ps));
    AddAutoExact(repo, kept, ps, |ps|);
    assert ps[..|ps|] == ps;
  }

  lemma SyncInv(repo: Repo, d: Daemon, roots: seq<Name>)
    requires ValidRepo(repo) && Honest(repo) && Distinct(d.running) && |roots| <= MAX_PACKAGES
    ensures Inv(repo, Sync(repo, d, roots))
  {
    DeriveExact(repo, NameSet(d.installed), roots);
    DeriveAlike(repo, NameSet(d.installed), {}, roots);
    SyncRunningOk(repo, d.running, Derive(repo, NameSet(d.installed), roots));
  }

  lemma LaunchInv(repo: Repo, d: Daemon, n: Name, staged: bool, admitted: bool)
    requires ValidRepo(repo) && Honest(repo) && Inv(repo, d)
    ensures Inv(repo, Launch(d, n, staged, admitted).0)
    ensures Launch(d, n, staged, admitted).1.Launched? ==>
      Launch(d, n, staged, admitted).0 == d.(running := d.running + [n], writes := d.writes + 1)
  {
    if n in NamesOf(d.installed) && n !in d.running {
      assert AddRunning(d.running, n) == d.running + [n] && RunningOk(d.running + [n], d.installed) by {
        InstalledExact(repo, d);
        LaunchedOk(repo, d.running, d.installed, FirstIndex(NamesOf(d.installed), n));
      }
    }
  }

  lemma LaunchedOk(repo: Repo, running: seq<Name>, ps: seq<Package>, k: nat)
    requires ValidRepo(repo) && Sound(repo, ps) && k < |ps| && RunningOk(running, ps) && ps[k].name !in running
    ensures AddRunning(running, ps[k].name) == running + [ps[k].name]
    ensures RunningOk(running + [ps[k].name], ps)
  {
    AddRunningFits(repo, running, ps, k);
  }

  lemma InstallInv(repo: Repo, d: Daemon, n: Name, admitted: bool)
    requires ValidRepo(repo) && Honest(repo) && Inv(repo, d)
    ensures var (e, a) := Install(repo, d, n, admitted);
      Inv(repo, e) && if a.Installed? then e.writes == d.writes + 1 else e == d && !Changes(a)
  {
    SyncInv(repo, d, AddRoot(d.roots, n));
  }

  lemma RemoveInv(repo: Repo, d: Daemon, n: Name)
    requires ValidRepo(repo) && Honest(repo) && Inv(repo, d)
    ensures var (e, a) := Remove(repo, d, n);
      Inv(repo, e) && if a.Removed? then e.writes == d.writes + 1 else e == d && !Changes(a)
  {
    RemoveRootExact(d.roots, n);
    SyncInv(repo, d, RemoveRoot(d.roots, n));
  }

  /** Every request keeps the invariant; one that is not carried out changes nothing, and one that
      is writes the configurations once. */
  lemma ServeInv(repo: Repo, d: Daemon, q: Request)
    requires ValidRepo(repo) && Honest(repo) && Inv(repo, d)
    ensures var (e, a) := Serve(repo, d, q);
      && Inv(repo, e)
      && (if Changes(a) then e.writes == d.writes + 1 else e == d)
  {
    match q
    case InstallReq(n, admitted) => InstallInv(repo, d, n, admitted);
    case RemoveReq(n) => RemoveInv(repo, d, n);
    case LaunchReq(n, staged, admitted) => LaunchInv(repo, d, n, staged, admitted);
    case ExplainReq(_) =>
    case Other =>
  }

  /** The invariant holds after every history, and the write counter is one plus the number of
      requests carried out. */
  lemma {:induction false} HistoryInv(repo: Repo, roots: seq<Name>, reqs: seq<Request>)
    requires ValidRepo(repo) && Honest(repo) && |roots| <= MAX_PACKAGES
    ensures Inv(repo, History(repo, roots, reqs))
    ensures History(repo, roots, reqs).writes == 1 + CarriedOut(repo, roots, reqs)
    decreases |reqs|
  {
    if reqs == [] {
      SyncInv(repo, Daemon([], [], [], 0), roots);
    } else {
      var before := reqs[..|reqs| - 1];
      HistoryInv(repo, roots, before);
      ServeInv(repo, History(repo, roots, before), reqs[|reqs| - 1]);
    }
  }
}
