// What the generated configurations say, in terms of the packages alone.

module PkgStarts {
  import opened Wrappers
  import opened PkgRepo
  import opened PkgDaemon
  import opened PkgInstalled
  import opened PkgConfigs
  import opened PkgServices
  import opened PkgGenerated

  // ---- start nodes --------------------------------------------------------

  /** The route names that mean the parent: none at all, the parent itself, and what runs outside. */
  predicate Outside(route: string) {
    route in {"", "parent", "nitpicker", "vfs", "event_filter", "wm", "report_rom", "timer", "input_drv"}
  }

  /** The route of a session: its service, to the sibling it names or to the parent, under its own
      label or under the one that makes a file system read-only. */
  predicate Routed(pkg: Name, s: Session, r: Route) {
    && r.service == s.service
    && (r.child.None? <==> Outside(s.route))
    && (r.child.Some? ==> r.child.value == s.route)
    && (s.tag != "" ==> r.tag == s.tag)
    && (s.tag == "" && s.readOnly && s.service == "File_system" ==> r.tag == pkg + "-ro")
    && (s.tag == "" && !(s.readOnly && s.service == "File_system") ==> r.tag == "")
  }

  /** The start node of a package: everything the metadata says, and a route for each session. */
  predicate Describes(prefix: string, p: Package, s: Start) {
    && s.name == p.name && s.caps == p.caps && s.ram == p.ram && s.config == p.config
    && (s.binary.None? <==> prefix + p.binary == p.name)
    && (s.binary.Some? ==> s.binary.value == prefix + p.binary)
    && |s.routes| == |p.sessions|
    && forall i :: 0 <= i < |p.sessions| ==> Routed(p.name, p.sessions[i], s.routes[i])
  }

  predicate Runs(d: Daemon, p: Package) {
    p in d.installed && p.name in d.running
  }

  lemma StartDescribes(prefix: string, p: Package)
    ensures Describes(prefix, p, StartOf(prefix, p))
  {
    var s := StartOf(prefix, p);
    forall i | 0 <= i < |p.sessions| ensures Routed(p.name, p.sessions[i], s.routes[i]) {
      RouteRouted(p.name, p.sessions[i]);
    }
  }

  lemma RouteRouted(pkg: Name, s: Session)
    ensures Routed(pkg, s, RouteOf(pkg, s))
  {
    assert s.route in OUTER <==> s.route != "" && Outside(s.route);
  }

  /** A description fixes the node. */
  lemma DescribesUnique(prefix: string, p: Package, s: Start, t: Start)
    requires Describes(prefix, p, s) && Describes(prefix, p, t)
    ensures s == t
  {
    forall i | 0 <= i < |s.routes| ensures s.routes[i] == t.routes[i] {
      assert Routed(p.name, p.sessions[i], s.routes[i]) && Routed(p.name, p.sessions[i], t.routes[i]);
    }
    assert s.routes == t.routes;
  }

  /** Every running package is described by a node of the sandbox of its kind, and every node of a
      sandbox describes a running package of that kind. */
  lemma StartContents(prefix: string, d: Daemon, c: Configs)
    requires Written(prefix, d, c)
    ensures forall p :: Runs(d, p) ==> exists s :: s in (if p.driver then c.drivers else c.apps) && Describes(prefix, p, s)
    ensures forall s :: s in c.apps ==> exists p :: Runs(d, p) && !p.driver && Describes(prefix, p, s)
    ensures forall s :: s in c.drivers ==> exists p :: Runs(d, p) && p.driver && Describes(prefix, p, s)
  {
    forall p | Runs(d, p)
      ensures exists s :: s in (if p.driver then c.drivers else c.apps) && Describes(prefix, p, s)
    {
      StartDescribes(prefix, p);
      assert Emits(p, d.running, p.driver);
      assert StartOf(prefix, p) in (if p.driver then c.drivers else c.apps);
    }
    forall s | s in c.apps ensures exists p :: Runs(d, p) && !p.driver && Describes(prefix, p, s) {
      var p := Origin(prefix, d, false, c.apps, s);
    }
    forall s | s in c.drivers ensures exists p :: Runs(d, p) && p.driver && Describes(prefix, p, s) {
      var p := Origin(prefix, d, true, c.drivers, s);
    }
  }

  lemma Origin(prefix: string, d: Daemon, drivers: bool, starts: seq<Start>, s: Start) returns (p: Package)
    requires IsStarts(prefix, d.installed, d.running, drivers, starts) && s in starts
    ensures Runs(d, p) && p.driver == drivers && Describes(prefix, p, s)
  {
    assert Emitted(prefix, d.installed, d.running, drivers, s);
    p :| p in d.installed && Emits(p, d.running, drivers) && s == StartOf(prefix, p);
    StartDescribes(prefix, p);
  }

  // ---- services -----------------------------------------------------------

  lemma SessionsAppend(emitted: seq<string>, sessions: seq<Session>)
    ensures emitted <= AddSessions(emitted, sessions)
  {
  }

  lemma {:induction false} BaseFirst(ps: seq<Package>, drivers: bool)
    ensures Base(drivers) <= ServicesOf(ps, drivers)
    decreases |ps|
  {
    if ps != [] {
      var before, p := ps[..|ps| - 1], ps[|ps| - 1];
      BaseFirst(before, drivers);
      SessionsAppend(ServicesOf(before, drivers), p.sessions);
    }
  }

  /** Whatever is installed, applications are offered the twelve services of a desktop program first,
      and drivers the five of any program. */
  lemma AlwaysOffered(prefix: string, d: Daemon, c: Configs)
    requires Written(prefix, d, c)
    ensures ["ROM", "PD", "RM", "CPU", "LOG", "Timer", "Gui", "Input", "Report", "File_system", "Nic", "Rtc"] <= c.appServices
    ensures ["ROM", "PD", "RM", "CPU", "LOG"] <= c.driverServices
  {
    BaseFirst(d.installed, false);
    BaseFirst(d.installed, true);
  }
}
