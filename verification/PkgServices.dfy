// The services a sandbox offers to its children: what is listed, when the list is complete, and
// when it holds hardware.

module PkgServices {
  import opened PkgRepo
  import opened PkgResolver
  import opened PkgInstalled
  import opened PkgDaemon
  import opened PkgGroups

  const MAX_SERVICES: nat := 64
  const APP_BASE: seq<string> :=
    ["ROM", "PD", "RM", "CPU", "LOG", "Timer", "Gui", "Input", "Report", "File_system", "Nic", "Rtc"]
  const DRIVER_BASE: seq<string> := ["ROM", "PD", "RM", "CPU", "LOG"]

  function Base(drivers: bool): seq<string> {
    if drivers then DRIVER_BASE else APP_BASE
  }

  // ---- the list -----------------------------------------------------------

  /** An empty or listed name, or a full list, changes nothing. */
  function AddService(emitted: seq<string>, service: string): seq<string> {
    if service == "" || |emitted| >= MAX_SERVICES || service in emitted then emitted else emitted + [service]
  }

  function AddSessions(emitted: seq<string>, sessions: seq<Session>): seq<string> {
    if sessions == [] then emitted
    else AddService(AddSessions(emitted, sessions[..|sessions| - 1]), sessions[|sessions| - 1].service)
  }

  /** The parent-provides list of a sandbox, in the order of the installed packages. */
  function ServicesOf(ps: seq<Package>, drivers: bool): seq<string> {
    if ps == [] then Base(drivers)
    else
      var before, p := ServicesOf(ps[..|ps| - 1], drivers), ps[|ps| - 1];
      if p.driver == drivers then AddSessions(before, p.sessions) else before
  }

  method EmitService(emitted: seq<string>, service: string) returns (r: seq<string>)
    ensures r == AddService(emitted, service)
  {
    r := emitted;
    if service == "" || |emitted| >= MAX_SERVICES {
      return;
    }
    for k := 0 to |emitted|
      invariant service !in emitted[..k]
    {
      if emitted[k] == service {
        return;
      }
    }
    assert emitted[..|emitted|] == emitted;
    r := emitted + [service];
  }

  method EmitServices(ps: seq<Package>, drivers: bool) returns (emitted: seq<string>)
    ensures emitted == ServicesOf(ps, drivers)
  {
    emitted := Base(drivers);
    for i := 0 to |ps|
      invariant emitted == ServicesOf(ps[..i], drivers)
    {
      assert ps[..i + 1][..i] == ps[..i];
      if ps[i].driver != drivers {
        continue;
      }
      ghost var before := emitted;
      var sessions := ps[i].sessions;
      for s := 0 to |sessions|
        invariant emitted == AddSessions(before, sessions[..s])
      {
        assert sessions[..s + 1][..s] == sessions[..s];
        emitted := EmitService(emitted, sessions[s].service);
      }
      assert sessions[..|sessions|] == sessions;
    }
    assert ps[..|ps|] == ps;
  }

  // ---- what is listed -----------------------------------------------------

  function Services(sessions: seq<Session>): set<string> {
    set s | s in sessions && s.service != "" :: s.service
  }

  /** What the fixed base and the installed packages of one kind declare. */
  function Declared(ps: seq<Package>, drivers: bool): set<string> {
    if ps == [] then set s | s in Base(drivers)
    else
      var p := ps[|ps| - 1];
      Declared(ps[..|ps| - 1], drivers) + if p.driver == drivers then Services(p.sessions) else {}
  }

  /** An installed package of the kind declares the service. */
  ghost predicate Declares(ps: seq<Package>, drivers: bool, service: string) {
    exists p, s :: p in ps && p.driver == drivers && s in p.sessions && s.service == service != ""
  }

  lemma {:induction false} DeclaredMeaning(ps: seq<Package>, drivers: bool, service: string)
    ensures service in Declared(ps, drivers) <==> service in Base(drivers) || Declares(ps, drivers, service)
    decreases |ps|
  {
    if ps != [] {
      var init, last := ps[..|ps| - 1], ps[|ps| - 1];
      DeclaredMeaning(init, drivers, service);
      assert ps == init + [last];
    }
  }

  /** The list so far: distinct, within the table, from `declared`, and all of it unless it is full. */
  predicate Collects(emitted: seq<string>, declared: set<string>) {
    && Distinct(emitted) && |emitted| <= MAX_SERVICES
    && (forall s :: s in emitted ==> s in declared)
    && (|emitted| < MAX_SERVICES ==> forall s :: s in declared ==> s in emitted)
  }

  lemma AddServiceCollects(emitted: seq<string>, service: string, declared: set<string>)
    requires Collects(emitted, declared)
    ensures Collects(AddService(emitted, service), declared + if service != "" then {service} else {})
    ensures emitted <= AddService(emitted, service)
  {
  }

  lemma {:induction false} AddSessionsCollects(emitted: seq<string>, sessions: seq<Session>, declared: set<string>)
    requires Collects(emitted, declared)
    ensures Collects(AddSessions(emitted, sessions), declared + Services(sessions))
    ensures emitted <= AddSessions(emitted, sessions)
    decreases |sessions|
  {
    if sessions == [] {
      assert declared + Services(sessions) == declared;
    } else {
      var init, last := sessions[..|sessions| - 1], sessions[|sessions| - 1];
      AddSessionsCollects(emitted, init, declared);
      assert sessions == init + [last];
      AddServiceCollects(AddSessions(emitted, init), last.service, declared + Services(init));
      assert declared + Services(sessions) == declared + Services(init) + if last.service != "" then {last.service} else {};
    }
  }

  lemma {:induction false} ServicesCollect(ps: seq<Package>, drivers: bool)
    ensures Collects(ServicesOf(ps, drivers), Declared(ps, drivers)) && Base(drivers) <= ServicesOf(ps, drivers)
    decreases |ps|
  {
    if ps != [] {
      var init, last := ps[..|ps| - 1], ps[|ps| - 1];
      ServicesCollect(init, drivers);
      if last.driver == drivers {
        AddSessionsCollects(ServicesOf(init, drivers), last.sessions, Declared(init, drivers));
      }
    }
  }

  /** The list is distinct, starts with the fixed base, and lists only what base and packages
      declare; it lists all of that if and only if that is no more than the table holds. */
  lemma ServicesExact(ps: seq<Package>, drivers: bool)
    ensures var emitted, declared := ServicesOf(ps, drivers), Declared(ps, drivers);
      && Distinct(emitted) && |emitted| <= MAX_SERVICES && Base(drivers) <= emitted
      && (forall s :: s in emitted ==> s in declared)
      && ((forall s :: s in declared ==> s in emitted) <==> |declared| <= 64)
  {
    ServicesCollect(ps, drivers);
    ServicesFit(ServicesOf(ps, drivers), Declared(ps, drivers));
  }

  lemma ServicesFit(emitted: seq<string>, declared: set<string>)
    requires Collects(emitted, declared)
    ensures (forall s :: s in declared ==> s in emitted) <==> |declared| <= 64
  {
    var some := set s | s in emitted;
    SetOfDistinct(emitted);
    SubsetSize(some, declared);
    if forall s :: s in declared ==> s in emitted {
      assert some == declared;
    }
    if |declared| <= MAX_SERVICES && |emitted| == MAX_SERVICES {
      assert some == declared;
    }
  }

  // ---- without the limit --------------------------------------------------

  function AddDistinct(names: seq<string>, service: string): seq<string> {
    if service == "" || service in names then names else names + [service]
  }

  function AddAllSessions(names: seq<string>, sessions: seq<Session>): seq<string> {
    if sessions == [] then names
    else AddDistinct(AddAllSessions(names, sessions[..|sessions| - 1]), sessions[|sessions| - 1].service)
  }

  /** The list as it would be in a table without a limit. */
  function AllOf(ps: seq<Package>, drivers: bool): seq<string> {
    if ps == [] then Base(drivers)
    else
      var before, p := AllOf(ps[..|ps| - 1], drivers), ps[|ps| - 1];
      if p.driver == drivers then AddAllSessions(before, p.sessions) else before
  }

  function FirstOf(names: seq<string>): seq<string> {
    if |names| <= MAX_SERVICES then names else names[..MAX_SERVICES]
  }

  lemma FirstOfAdd(names: seq<string>, service: string)
    ensures AddService(FirstOf(names), service) == FirstOf(AddDistinct(names, service))
  {
  }

  lemma {:induction false} FirstOfSessions(names: seq<string>, sessions: seq<Session>)
    ensures AddSessions(FirstOf(names), sessions) == FirstOf(AddAllSessions(names, sessions))
    decreases |sessions|
  {
    if sessions != [] {
      var init, last := sessions[..|sessions| - 1], sessions[|sessions| - 1];
      FirstOfSessions(names, init);
      FirstOfAdd(AddAllSessions(names, init), last.service);
    }
  }

  /** The emitted list is the first part of the unlimited one. */
  lemma {:induction false} ServicesFirst(ps: seq<Package>, drivers: bool)
    ensures ServicesOf(ps, drivers) == FirstOf(AllOf(ps, drivers))
    decreases |ps|
  {
    if ps != [] {
      var init, last := ps[..|ps| - 1], ps[|ps| - 1];
      ServicesFirst(init, drivers);
      FirstOfSessions(AllOf(init, drivers), last.sessions);
    }
  }

  lemma {:induction false} AllSessionsMeaning(names: seq<string>, sessions: seq<Session>, service: string)
    requires Distinct(names)
    ensures Distinct(AddAllSessions(names, sessions))
    ensures service in AddAllSessions(names, sessions) <==> service in names || service in Services(sessions)
    decreases |sessions|
  {
    if sessions != [] {
      var init, last := sessions[..|sessions| - 1], sessions[|sessions| - 1];
      AllSessionsMeaning(names, init, service);
      assert sessions == init + [last];
    }
  }

  /** The unlimited list has every declared service once. */
  lemma {:induction false} AllMeaning(ps: seq<Package>, drivers: bool, service: string)
    ensures Distinct(AllOf(ps, drivers)) && (service in AllOf(ps, drivers) <==> service in Declared(ps, drivers))
    decreases |ps|
  {
    if ps != [] {
      var init, last := ps[..|ps| - 1], ps[|ps| - 1];
      AllMeaning(init, drivers, service);
      AllSessionsMeaning(AllOf(init, drivers), last.sessions, service);
    }
  }

  // ---- hardware -----------------------------------------------------------

  const HARDWARE: seq<string> := ["Platform", "Irq", "Io_mem", "Io_port"]

  /** The documentation promises that the application sandbox offers no hardware service. */
  ghost predicate OffersHardware(emitted: seq<string>) {
    exists s :: s in HARDWARE && s in emitted
  }

  ghost predicate DeclaresHardware(ps: seq<Package>) {
    exists s :: s in HARDWARE && Declares(ps, false, s)
  }

  /** One of the first services that base and packages declare, in their order, is hardware. */
  predicate DeclaresEarly(ps: seq<Package>) {
    exists i :: 0 <= i < |AllOf(ps, false)| && i < MAX_SERVICES && AllOf(ps, false)[i] in HARDWARE
  }

  lemma NotInBase(s: string)
    requires s in HARDWARE
    ensures s !in APP_BASE
  {
    var i :| 0 <= i < |HARDWARE| && HARDWARE[i] == s;
  }

  /** The promise is broken if and only if an installed application package declares a hardware
      service that is among the first 64 declared; as long as no more are declared, if and only if one
      declares a hardware service at all. */
  lemma HardwareOffered(ps: seq<Package>)
    ensures OffersHardware(ServicesOf(ps, false)) <==> DeclaresEarly(ps)
    ensures OffersHardware(ServicesOf(ps, false)) ==> DeclaresHardware(ps)
    ensures |Declared(ps, false)| <= 64 ==> (OffersHardware(ServicesOf(ps, false)) <==> DeclaresHardware(ps))
  {
    ServicesFirst(ps, false);
    FirstHardware(AllOf(ps, false));
    ServicesExact(ps, false);
    forall s | s in HARDWARE ensures s in Declared(ps, false) <==> Declares(ps, false, s) {
      NotInBase(s);
      DeclaredMeaning(ps, false, s);
    }
  }

  lemma FirstHardware(all: seq<string>)
    ensures OffersHardware(FirstOf(all)) <==> exists i :: 0 <= i < |all| && i < MAX_SERVICES && all[i] in HARDWARE
  {
    if OffersHardware(FirstOf(all)) {
      var s :| s in HARDWARE && s in FirstOf(all);
      var i :| 0 <= i < |FirstOf(all)| && FirstOf(all)[i] == s;
      assert all[i] == s;
    }
    if i :| 0 <= i < |all| && i < MAX_SERVICES && all[i] in HARDWARE {
      assert FirstOf(all)[i] == all[i];
    }
  }

  /** An application package that asks for the platform driver. */
  function Grabber(n: Name): Package {
    Package(n, [], n, "32M", 512, "", [Session("Platform", "parent", false, "")], false, false, "", false)
  }

  const ONE_GRABBER: Repo := Repo(["grab"], map["grab" := Valid(Grabber("grab"))])

  /** Started with that package as its only root, the daemon lists the platform service for the
      application sandbox. */
  lemma PlatformOffered(repo: Repo, d: Daemon)
    requires repo == ONE_GRABBER && ValidRepo(repo) && d == Boot(repo, ["grab"])
    ensures "Platform" in ServicesOf(d.installed, false) && OffersHardware(ServicesOf(d.installed, false))
  {
    var ps := d.installed;
    BootGrabber(repo, d);
    var p := Lookup(ps, "grab");
    assert p.sessions == [Session("Platform", "parent", false, "")] && !p.driver;
    assert p.sessions[0] in p.sessions;
    assert Declares(ps, false, "Platform");
    DeclaredMeaning(ps, false, "Platform");
    DeclaredFew(ps, p);
    ServicesExact(ps, false);
    assert HARDWARE[0] == "Platform";
  }

  lemma BootGrabber(repo: Repo, d: Daemon)
    requires repo == ONE_GRABBER && ValidRepo(repo) && d == Boot(repo, ["grab"])
    ensures |d.installed| == 1 && "grab" in NamesOf(d.installed)
    ensures Plain(d.installed[0]) == Grabber("grab")
  {
    var ps := d.installed;
    assert Honest(repo);
    assert NameSet([]) == {};
    DeriveExact(repo, {}, ["grab"]);
    NoDepsResolvable(repo, "grab");
    NoDepsReach(repo, "grab", "grab");
    assert "grab" in ["grab"] && Needs(repo, "grab", "grab");
    assert Needed(repo, ["grab"], "grab");
    Room(repo.index, NamesOf(ps));
  }

  /** One installed package with one session: few services. */
  lemma DeclaredFew(ps: seq<Package>, p: Package)
    requires ps == [p] && |p.sessions| == 1
    ensures |Declared(ps, false)| <= MAX_SERVICES
  {
    var names := APP_BASE + [p.sessions[0].service];
    SetSize(names);
    forall s | s in Declared(ps, false) ensures s in names {
      DeclaredMeaning(ps, false, s);
    }
    SubsetSize(Declared(ps, false), set s | s in names);
  }
}
