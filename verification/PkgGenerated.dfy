// The two configurations written after every change, start nodes and services together.

module PkgGenerated {
  import opened PkgRepo
  import opened PkgResolver
  import opened PkgInstalled
  import opened PkgDaemon
  import opened PkgTheorems
  import opened PkgConfigs
  import opened PkgServices

  datatype Configs = Configs(apps: seq<Start>, drivers: seq<Start>, appServices: seq<string>, driverServices: seq<string>)

  /** The configurations are those of the daemon's state. */
  ghost predicate Written(prefix: string, d: Daemon, c: Configs) {
    && IsStarts(prefix, d.installed, d.running, false, c.apps)
    && IsStarts(prefix, d.installed, d.running, true, c.drivers)
    && c.appServices == ServicesOf(d.installed, false) && c.driverServices == ServicesOf(d.installed, true)
  }

  method Generate(prefix: string, ps: seq<Package>, running: seq<Name>) returns (c: Configs)
    requires Distinct(NamesOf(ps))
    ensures forall d: Daemon :: d.installed == ps && d.running == running ==> Written(prefix, d, c)
  {
    var apps := EmitStarts(prefix, ps, running, false);
    var appServices := EmitServices(ps, false);
    var drivers := EmitStarts(prefix, ps, running, true);
    var driverServices := EmitServices(ps, true);
    c := Configs(apps, drivers, appServices, driverServices);
  }

  lemma {:induction false} AddNewDistinct(ps: seq<Package>, plan: seq<Package>)
    requires Distinct(NamesOf(ps))
    ensures Distinct(NamesOf(AddNew(ps, plan)))
    decreases |plan|
  {
    if plan != [] {
      var before, p := plan[..|plan| - 1], plan[|plan| - 1];
      AddNewDistinct(ps, before);
      NamesPush(AddNew(ps, before), p);
    }
  }

  lemma {:induction false} DeriveDistinct(repo: Repo, installed: set<Name>, roots: seq<Name>)
    requires ValidRepo(repo)
    ensures Distinct(NamesOf(Derive(repo, installed, roots)))
    decreases |roots|
  {
    if roots != [] {
      var before, last := roots[..|roots| - 1], roots[|roots| - 1];
      DeriveDistinct(repo, installed, before);
      if Resolve(repo, installed, last).ok {
        AddNewDistinct(Derive(repo, installed, before), Resolve(repo, installed, last).plan);
      }
    }
  }

  /** Two daemons with the same installed and running names write the same start nodes, whatever
      their histories. */
  lemma WrittenAlike(repo: Repo, prefix: string, d: Daemon, e: Daemon, c: Configs, f: Configs)
    requires Sound(repo, d.installed) && Sound(repo, e.installed)
    requires forall n :: n in NamesOf(d.installed) <==> n in NamesOf(e.installed)
    requires forall n :: n in d.running <==> n in e.running
    requires Written(prefix, d, c) && Written(prefix, e, f)
    ensures c.apps == f.apps && c.drivers == f.drivers
  {
    StartsCanonical(repo, prefix, d.installed, e.installed, d.running, e.running, false, c.apps, f.apps);
    StartsCanonical(repo, prefix, d.installed, e.installed, d.running, e.running, true, c.drivers, f.drivers);
  }

  lemma ServicesAlike(a: seq<Package>, b: seq<Package>, drivers: bool)
    requires PlainAll(a) == PlainAll(b)
    ensures ServicesOf(a, drivers) == ServicesOf(b, drivers)
    decreases |a|
  {
    assert |a| == |PlainAll(a)| == |PlainAll(b)| == |b|;
    if a != [] {
      var k := |a| - 1;
      assert PlainAll(a[..k]) == PlainAll(a)[..k] == PlainAll(b)[..k] == PlainAll(b[..k]);
      ServicesAlike(a[..k], b[..k], drivers);
      assert Plain(a[k]) == PlainAll(a)[k] == PlainAll(b)[k] == Plain(b[k]);
    }
  }

  /** Installing a package that is no root and removing it again leaves both configurations as they
      were, services included. */
  lemma ConfigsRestored(repo: Repo, prefix: string, d: Daemon, n: Name, before: Configs, after: Configs)
    requires ValidRepo(repo) && Honest(repo) && Inv(repo, d) && Resolvable(repo, n) && n !in d.roots
    requires Written(prefix, d, before) && Written(prefix, Remove(repo, Install(repo, d, n, true).0, n).0, after)
    ensures before == after
  {
    var e := Remove(repo, Install(repo, d, n, true).0, n).0;
    InstallThenRemove(repo, d, n);
    InstalledExact(repo, d);
    SoundAlike(repo, d.installed, e.installed);
    WrittenAlike(repo, prefix, d, e, before, after);
    ServicesAlike(d.installed, e.installed, false);
    ServicesAlike(d.installed, e.installed, true);
  }
}
