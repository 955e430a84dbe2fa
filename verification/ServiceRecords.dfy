/**
 The service records of the registry: when every service has its record on disk, in one step, over
 whole runs, and in a run where it has not.
 */
module ServiceRecords {
  import opened Common
  import opened Names
  import opened Registry
  import opened RegistryExact

  /** The record of the service is on disk under its name, next to a cluster list that is still empty. */
  ghost predicate Recorded(s: State, name: string) {
    var list := ParseServiceClusterList(name);
    && name in s.disk && s.disk[name].ServiceRecord?
    && ParseServiceName(s.disk[name].serviceName, s.disk[name].group) == name
    && list in s.disk && s.disk[list] == ClusterList("")
  }

  predicate Known(s: State, ns: string, name: string) {
    FindService(s.services, ns, name).Some?
  }

  ghost predicate RecordedAt(s: State, ns: string, name: string) {
    Known(s, ns, name) ==> Recorded(s, name)
  }

  ghost predicate AllRecorded(s: State) {
    forall ns, name :: RecordedAt(s, ns, name)
  }

  /** The registration writes over the record of the service, or over its cluster list. */
  predicate Spoils(m: Mode, s: State, r: Request, name: string)
    requires r.Register?
  {
    || (Writes(m, s, r) && !r.o.ephemeral && KeyOf(r.o) == name)
    || (Creates(s, r) && (name == ParseServiceClusterList(NameOf(r.o)) || NameOf(r.o) == ParseServiceClusterList(name)))
  }

  ghost predicate Spares(m: Mode, s: State, r: Request)
    requires r.Register?
  {
    forall ns, name :: Known(s, ns, name) ==> !Spoils(m, s, r, name)
  }

  // A registration adds its own service, when it can save it, and drops none.
  lemma ServicesAfter(m: Mode, s: State, r: Request, ns: string, name: string)
    requires r.Register?
    ensures Known(Step(m, s, r).state, ns, name) <==> Known(s, ns, name) || (Creates(s, r) && ns == r.ns && name == NameOf(r.o))
  {
    var created := CreateServiceIfAbsent(s, r.ns, r.o, r.savesService);
    assert FindService(created.state.services, ns, name).Some? <==>
           Known(s, ns, name) || (Creates(s, r) && ns == r.ns && name == NameOf(r.o));
    if created.response.Success? { StoreKeepsServices(m, created.state, r, ns, name); }
  }

  lemma ListKeyDiffers(name: string)
    ensures ParseServiceClusterList(name) != name
    ensures forall other :: ParseServiceClusterList(other) == ParseServiceClusterList(name) ==> other == name
  {
    assert |ParseServiceClusterList(name)| > |name|;
    forall other | ParseServiceClusterList(other) == ParseServiceClusterList(name) ensures other == name {
      assert ParseServiceClusterList(other)[..|other|] == other && ParseServiceClusterList(name)[..|name|] == name;
    }
  }

  function ValueAt(disk: map<string, Value>, k: string): Option<Value> {
    if k in disk then Some(disk[k]) else None
  }

  /** One key of the disk store after a registration. */
  lemma DiskAt(m: Mode, s: State, r: Request, k: string)
    requires r.Register?
    ensures var name := NameOf(r.o);
            ValueAt(Step(m, s, r).state.disk, k) ==
            if Writes(m, s, r) && !r.o.ephemeral && k == KeyOf(r.o) then Some(InstanceRecord(r.o))
            else if Creates(s, r) && k == ParseServiceClusterList(name) then Some(ClusterList(""))
            else if Creates(s, r) && k == name then Some(ServiceRecord(r.o.serviceName, r.o.group))
            else ValueAt(s.disk, k)
  {
    StoresAfter(m, s, r);
  }

  // A service that had its record keeps it exactly when it is not spoilt.
  lemma KnownStaysRecorded(m: Mode, s: State, r: Request, name: string)
    requires r.Register? && Recorded(s, name)
    ensures Recorded(Step(m, s, r).state, name) <==> !Spoils(m, s, r, name)
  {
    var list := ParseServiceClusterList(name);
    DiskAt(m, s, r, name);
    DiskAt(m, s, r, list);
    KeyIsNoListKey(r.o, name);
    KeyIsNotOwnName(r.o);
    ListKeyDiffers(name);
    assert Recorded(Step(m, s, r).state, name) <==>
           ValueAt(Step(m, s, r).state.disk, name) in {ValueAt(s.disk, name), Some(ServiceRecord(r.o.serviceName, r.o.group))}
           && ValueAt(Step(m, s, r).state.disk, list) == Some(ClusterList(""));
  }

  // The service of the registration itself.
  lemma CreatedIsRecorded(m: Mode, s: State, r: Request)
    requires r.Register? && Creates(s, r)
    ensures Recorded(Step(m, s, r).state, NameOf(r.o))
  {
    DiskAt(m, s, r, NameOf(r.o));
    DiskAt(m, s, r, ParseServiceClusterList(NameOf(r.o)));
    KeyIsNoListKey(r.o, NameOf(r.o));
    KeyIsNotOwnName(r.o);
    ListKeyDiffers(NameOf(r.o));
  }

  /** One registration, in either mode, keeps every service recorded if and only if it spoils no known one. */
  lemma RecordedExactly(m: Mode, s: State, r: Request)
    requires r.Register? && AllRecorded(s)
    ensures AllRecorded(Step(m, s, r).state) <==> Spares(m, s, r)
  {
    var s' := Step(m, s, r).state;
    forall ns, name ensures RecordedAt(s', ns, name) <==> !(Known(s, ns, name) && Spoils(m, s, r, name)) {
      assert RecordedAt(s, ns, name);
      ServicesAfter(m, s, r, ns, name);
      if Known(s, ns, name) { KnownStaysRecorded(m, s, r, name); }
      else if Known(s', ns, name) { CreatedIsRecorded(m, s, r); }
    }
  }

  ghost predicate SparesStep(m: Mode, s: State, r: Request) {
    r.Register? ==> Spares(m, s, r)
  }

  lemma RecordedStep(m: Mode, s: State, r: Request)
    requires AllRecorded(s)
    ensures AllRecorded(Step(m, s, r).state) <==> SparesStep(m, s, r)
  {
    if r.Register? { RecordedExactly(m, s, r); }
    else {
      forall ns, name ensures RecordedAt(Step(m, s, r).state, ns, name) {
        assert RecordedAt(s, ns, name);
        if r.Deregister? { RemoveKeepsServices(s, r.ns, r.o, ns, name); }
      }
    }
  }

  /** Every state of the run has the records of its services. */
  ghost predicate RecordedThroughout(m: Mode, run: seq<Request>) {
    AllRecorded(After(m, run)) && (run != [] ==> RecordedThroughout(m, run[..|run| - 1]))
  }

  /** Every registration of the run spared the services it met. */
  ghost predicate AllSpared(m: Mode, run: seq<Request>) {
    run == [] || (AllSpared(m, run[..|run| - 1]) && SparesStep(m, After(m, run[..|run| - 1]), run[|run| - 1]))
  }

  /** Over whole runs: every state has its records if and only if every registration spared them. */
  lemma {:induction false} RecordedThroughoutExactly(m: Mode, run: seq<Request>)
    ensures RecordedThroughout(m, run) <==> AllSpared(m, run)
  {
    if run != [] {
      var run', r := run[..|run| - 1], run[|run| - 1];
      RecordedThroughoutExactly(m, run');
      var s := After(m, run');
      if AllRecorded(s) { RecordedStep(m, s, r); }
    }
  }

  // ---- A condition on the requests alone ------------------------------------------------------------

  /** No persistent instance has a service name for its key, and no service is called like the cluster list of another. */
  ghost predicate NameFree(run: seq<Request>) {
    forall i, j :: 0 <= i < |run| && 0 <= j < |run| && run[i].Register? && run[j].Register? ==>
      && (!run[i].o.ephemeral ==> KeyOf(run[i].o) != NameOf(run[j].o))
      && NameOf(run[i].o) != ParseServiceClusterList(NameOf(run[j].o))
  }

  ghost predicate Wanted(run: seq<Request>, name: string) {
    exists i :: 0 <= i < |run| && run[i].Register? && NameOf(run[i].o) == name
  }

  lemma {:induction false} KnownAreWanted(m: Mode, run: seq<Request>, ns: string, name: string)
    requires Known(After(m, run), ns, name)
    ensures Wanted(run, name)
  {
    if run != [] {
      var run', r := run[..|run| - 1], run[|run| - 1];
      var s := After(m, run');
      if r.Register? { ServicesAfter(m, s, r, ns, name); }
      if r.Deregister? { RemoveKeepsServices(s, r.ns, r.o, ns, name); }
      if Known(s, ns, name) { KnownAreWanted(m, run', ns, name); }
    }
  }

  /**
   In every run without clashing names, each service of the registry has its record on disk, and
   the cluster list stored with it never grows, whatever clusters the service gets.
   */
  lemma {:induction false} ServicesAreRecorded(m: Mode, run: seq<Request>)
    requires NameFree(run)
    ensures AllSpared(m, run) && AllRecorded(After(m, run))
  {
    if run != [] {
      var run', r := run[..|run| - 1], run[|run| - 1];
      ServicesAreRecorded(m, run');
      var s := After(m, run');
      if r.Register? {
        forall ns, name | Known(s, ns, name) ensures !Spoils(m, s, r, name) {
          KnownAreWanted(m, run', ns, name);
          var i :| 0 <= i < |run'| && run'[i].Register? && NameOf(run'[i].o) == name;
          assert run[i] == run'[i];
        }
      }
      RecordedStep(m, s, r);
    }
  }

  // ---- A run that loses a record --------------------------------------------------------------------

  // A service whose group ends in "_cluster_list" takes the place of another one's cluster list.
  lemma ListTakenForService(m: Mode, o: Origin, ns: string, now: int)
    ensures var o' := o.(group := o.group + "_cluster_list");
            var s1 := Step(m, INIT, Register(ns, o, now, true, true)).state;
            var s2 := Step(m, s1, Register(ns, o', now, true, true)).state;
            && AllRecorded(s1) && Known(s2, ns, NameOf(o)) && !Recorded(s2, NameOf(o))
  {
    var o' := o.(group := o.group + "_cluster_list");
    var r1, r2 := Register(ns, o, now, true, true), Register(ns, o', now, true, true);
    var s1 := Step(m, INIT, r1).state;
    assert NameOf(o') == ParseServiceClusterList(NameOf(o));
    assert AllRecorded(INIT);
    RecordedExactly(m, INIT, r1);
    ServicesAfter(m, INIT, r1, ns, NameOf(o));
    ServicesAfter(m, INIT, r1, ns, NameOf(o'));
    ListKeyDiffers(NameOf(o));
    assert RecordedAt(s1, ns, NameOf(o));
    ServicesAfter(m, s1, r2, ns, NameOf(o));
    KnownStaysRecorded(m, s1, r2, NameOf(o));
  }
}
