/**
 Exact conditions for the registry: when one registration keeps every instance backed, when the
 cluster look-up as written keeps one kind or one instance per cluster, and when it refuses.
 */
module RegistryExact {
  import opened Common
  import opened Names
  import opened Registry
  import Lease

  // ---- One registration, in terms of the state before it ----------------------------------------

  /** createServiceIfAbsent has to save the service, and does. */
  predicate Creates(s: State, r: Request)
    requires r.Register?
  {
    FindService(s.services, r.ns, NameOf(r.o)).None? && r.savesService
  }

  predicate ReachesStore(s: State, r: Request)
    requires r.Register?
  {
    FindService(s.services, r.ns, NameOf(r.o)).Some? || r.savesService
  }

  predicate KindFits(m: Mode, s: State, r: Request)
    requires r.Register?
  {
    ClusterFor(m, s, r.ns, r.o).kind in {Unknown, KindOf(r.o)}
  }

  /** The registration writes its record. */
  predicate Writes(m: Mode, s: State, r: Request)
    requires r.Register?
  {
    ReachesStore(s, r) && KindFits(m, s, r) && r.savesInstance
  }

  // Creating the service changes no cluster, so the look-ups are those of the state before.
  lemma CreateKeepsLookups(m: Mode, s: State, r: Request)
    requires r.Register?
    ensures var c := CreateServiceIfAbsent(s, r.ns, r.o, r.savesService);
            && c.response.Success? == ReachesStore(s, r)
            && ClusterFor(m, c.state, r.ns, r.o) == ClusterFor(m, s, r.ns, r.o)
            && Opened(m, c.state, r.ns, r.o) == Opened(m, s, r.ns, r.o)
  {
    var name := NameOf(r.o);
    FindAfterCreate(s, r.ns, r.o, r.savesService, r.ns, name, r.o.clusterName);
    FindAfterCreate(s, r.ns, r.o, r.savesService, r.ns, name, LookupKey(m, name, r.o.clusterName));
  }

  /** The response of a registration, and its own cluster afterwards. */
  lemma RegisterHere(m: Mode, s: State, r: Request)
    requires r.Register? && ReachesStore(s, r)
    ensures var out, cl := Step(m, s, r), Opened(m, s, r.ns, r.o);
            && out.response == (if !Writes(m, s, r) then Failure else if cl.Some? then Success else Panic)
            && FindCluster(out.state.services, r.ns, NameOf(r.o), r.o.clusterName)
               == (if out.response.Success? then Some(Joined(cl.value, r.o)) else cl)
  {
    CreateKeepsLookups(m, s, r);
    var s0 := CreateServiceIfAbsent(s, r.ns, r.o, r.savesService).state;
    StoreHere(m, s0, r);
    StoreResponse(m, s0, r);
  }

  lemma StoreResponse(m: Mode, s: State, r: Request)
    requires r.Register? && FindService(s.services, r.ns, NameOf(r.o)).Some?
    ensures StoreInstanceInfo(m, s, r.ns, r.o, r.now, r.savesInstance).response
         == if !(KindFits(m, s, r) && r.savesInstance) then Failure
            else if Opened(m, s, r.ns, r.o).Some? then Success else Panic
  {
    var name, c := NameOf(r.o), r.o.clusterName;
    var s1 := EnsureCluster(m, s, r.ns, r.o);
    FindAfterPut(s.services, r.ns, name, c, NewCluster(r.o), r.ns, name, c);
    assert FindCluster(s1.services, r.ns, name, c) == Opened(m, s, r.ns, r.o);
    AddAt(SaveInstance(s1, r.o), r.ns, r.o, r.ns, name, c);
  }

  /** The stores after a registration, and its leases. */
  lemma StoresAfter(m: Mode, s: State, r: Request)
    requires r.Register?
    ensures var s', k, name := Step(m, s, r).state, KeyOf(r.o), NameOf(r.o);
            var disk := if Creates(s, r) then s.disk[name := ServiceRecord(r.o.serviceName, r.o.group)]
                                                    [ParseServiceClusterList(name) := ClusterList("")] else s.disk;
            && s'.memory == (if Writes(m, s, r) && r.o.ephemeral then s.memory[k := InstanceRecord(r.o)] else s.memory)
            && s'.disk == (if Writes(m, s, r) && !r.o.ephemeral then disk[k := InstanceRecord(r.o)] else disk)
            && s.lease.deadlines.Keys <= s'.lease.deadlines.Keys
  {
    CreateKeepsLookups(m, s, r);
    var created := CreateServiceIfAbsent(s, r.ns, r.o, r.savesService);
    if created.response.Success? { StoreStores(m, created.state, r); }
  }

  lemma StoreStores(m: Mode, s: State, r: Request)
    requires r.Register? && FindService(s.services, r.ns, NameOf(r.o)).Some?
    ensures var s' := StoreInstanceInfo(m, s, r.ns, r.o, r.now, r.savesInstance).state;
            var saved := if KindFits(m, s, r) && r.savesInstance then SaveInstance(s, r.o) else s;
            s'.memory == saved.memory && s'.disk == saved.disk && s.lease.deadlines.Keys <= s'.lease.deadlines.Keys
  {
    EnsureAt(m, s, r.ns, r.o, "", "", "");
    AddAt(SaveInstance(EnsureCluster(m, s, r.ns, r.o), r.o), r.ns, r.o, "", "", "");
  }

  /** The grant an instance that sends heartbeats gets at the clock of its registration. */
  function Granted(l: Lease.State, r: Request): Lease.State
    requires r.Register?
  {
    var k := KeyOf(r.o);
    if r.o.check == HeartBeat then
      Lease.State(l.deadlines[k := Lease.Wrap64((15 + r.now) * 1_000_000_000)], l.pending + multiset{k}, l.reports)
    else l
  }

  /**
   The leases after a registration: a new deadline and one more pending check for an instance
   that was registered and sends heartbeats, and no change in any other case.
   */
  lemma LeaseAfter(m: Mode, s: State, r: Request)
    requires r.Register?
    ensures var out := Step(m, s, r);
            out.state.lease == if out.response.Success? then Granted(s.lease, r) else s.lease
  {
    var created := CreateServiceIfAbsent(s, r.ns, r.o, r.savesService);
    if created.response.Success? { StoreLease(m, created.state, r); }
  }

  lemma StoreLease(m: Mode, s: State, r: Request)
    requires r.Register? && FindService(s.services, r.ns, NameOf(r.o)).Some?
    ensures var out := StoreInstanceInfo(m, s, r.ns, r.o, r.now, r.savesInstance);
            out.state.lease == if out.response.Success? then Granted(s.lease, r) else s.lease
  {
    EnsureAt(m, s, r.ns, r.o, "", "", "");
    AddAt(SaveInstance(EnsureCluster(m, s, r.ns, r.o), r.o), r.ns, r.o, "", "", "");
  }

  // ---- Namespaces and keys ---------------------------------------------------------------------------

  /** A registration makes its namespace known, even when it fails, and no other one. */
  lemma NamespacesAfter(m: Mode, s: State, r: Request)
    requires r.Register?
    ensures Step(m, s, r).state.services.Keys == s.services.Keys + {r.ns}
  {
    var created := CreateServiceIfAbsent(s, r.ns, r.o, r.savesService);
    assert created.state.services.Keys == s.services.Keys + {r.ns};
    if created.response.Success? { StoreKeepsNamespaces(m, created.state, r); }
  }

  lemma StoreKeepsNamespaces(m: Mode, s: State, r: Request)
    requires r.Register? && FindService(s.services, r.ns, NameOf(r.o)).Some?
    ensures StoreInstanceInfo(m, s, r.ns, r.o, r.now, r.savesInstance).state.services.Keys == s.services.Keys
  {
  }

  // Ports 2^32 apart give one key, so the second instance takes the place of the first.
  lemma PortsCollide(o: Origin)
    ensures KeyOf(o) == KeyOf(o.(port := o.port + 0x1_0000_0000))
  {
    Int32Wraps(o.port);
  }

  // ---- Names -----------------------------------------------------------------------------------------

  /** A service carries the name it is known under, a cluster the full name made of both. */
  ghost predicate NamedAt(s: State, ns: string, name: string, c: string) {
    && (FindService(s.services, ns, name).Some? ==> FindService(s.services, ns, name).value.name == name)
    && (FindCluster(s.services, ns, name, c).Some? ==>
          FindCluster(s.services, ns, name, c).value.name == ParseClusterName(name, c))
  }

  ghost predicate AllNamed(s: State) {
    forall ns, name, c :: NamedAt(s, ns, name, c)
  }

  lemma PutKeepsNamed(s: State, s': State, ns: string, name: string, c: string, cl: Cluster)
    requires AllNamed(s) && FindService(s.services, ns, name).Some? && cl.name == ParseClusterName(name, c)
    requires s'.services == PutCluster(s.services, ns, name, c, cl)
    ensures AllNamed(s')
  {
    assert NamedAt(s, ns, name, c);
    forall ns', name', c' ensures NamedAt(s', ns', name', c') {
      assert NamedAt(s, ns', name', c');
      FindAfterPut(s.services, ns, name, c, cl, ns', name', c');
    }
  }

  lemma CreateKeepsNamed(s: State, ns: string, o: Origin, saved: bool)
    requires AllNamed(s)
    ensures AllNamed(CreateServiceIfAbsent(s, ns, o, saved).state)
  {
    forall ns', name', c' ensures NamedAt(CreateServiceIfAbsent(s, ns, o, saved).state, ns', name', c') {
      assert NamedAt(s, ns', name', c');
      FindAfterCreate(s, ns, o, saved, ns', name', c');
    }
  }

  lemma StoreKeepsNamed(m: Mode, s: State, r: Request)
    requires r.Register? && AllNamed(s) && FindService(s.services, r.ns, NameOf(r.o)).Some?
    ensures AllNamed(StoreInstanceInfo(m, s, r.ns, r.o, r.now, r.savesInstance).state)
  {
    var name, c := NameOf(r.o), r.o.clusterName;
    var s1 := EnsureCluster(m, s, r.ns, r.o);
    if s1 != s { PutKeepsNamed(s, s1, r.ns, name, c, NewCluster(r.o)); }
    var s2 := SaveInstance(s1, r.o);
    var home := FindCluster(s2.services, r.ns, name, c);
    assert NamedAt(s1, r.ns, name, c);
    var s3 := AddToCluster(s2, r.ns, r.o).state;
    if home.Some? { PutKeepsNamed(s1, s3, r.ns, name, c, Joined(home.value, r.o)); }
    SameNames(s1, s2);
    SameNames(s3, GrantIfHeartbeat(s3, r.o, r.now));
  }

  lemma SameNames(s: State, s': State)
    requires s'.services == s.services
    ensures AllNamed(s) ==> AllNamed(s')
  {
    if AllNamed(s) {
      forall ns, name, c ensures NamedAt(s', ns, name, c) { assert NamedAt(s, ns, name, c); }
    }
  }

  lemma NamedStep(m: Mode, s: State, r: Request)
    requires AllNamed(s)
    ensures AllNamed(Step(m, s, r).state)
  {
    match r
    case Register(_, _, _, _, _) =>
      CreateKeepsNamed(s, r.ns, r.o, r.savesService);
      var created := CreateServiceIfAbsent(s, r.ns, r.o, r.savesService);
      if created.response.Success? { StoreKeepsNamed(m, created.state, r); }
    case Deregister(_, _) =>
      var name, c := NameOf(r.o), r.o.clusterName;
      var cl := FindCluster(s.services, r.ns, name, c);
      assert NamedAt(s, r.ns, name, c);
      if cl.Some? {
        var rest := cl.value.(repository := cl.value.repository - {KeyOf(r.o)});
        PutKeepsNamed(s, RemoveInstance(s, r.ns, r.o).state, r.ns, name, c, rest);
      }
    case Timer(_) =>
      forall ns, name, c ensures NamedAt(Step(m, s, r).state, ns, name, c) { assert NamedAt(s, ns, name, c); }
  }

  /** In every run, in both modes, services and clusters carry the names they are known under. */
  lemma {:induction false} NamesInPlace(m: Mode, run: seq<Request>)
    ensures AllNamed(After(m, run))
  {
    if run != [] {
      NamesInPlace(m, run[..|run| - 1]);
      NamedStep(m, After(m, run[..|run| - 1]), run[|run| - 1]);
    }
  }

  // ---- Backing -------------------------------------------------------------------------------------

  /** The instance at this place, if any, sits where its names say and is backed. */
  ghost predicate BackedPlace(s: State, ns: string, name: string, c: string, k: string) {
    var f := FindInstance(s.services, ns, name, c, k);
    f.Some? ==> WellPlaced(name, c, k, f.value) && Backed(s, f.value)
  }

  ghost predicate Consistent(s: State) {
    forall ns, name, c, k :: BackedPlace(s, ns, name, c, k)
  }

  predicate Elsewhere(r: Request, ns: string, name: string, c: string)
    requires r.Register?
  {
    ns != r.ns || name != NameOf(r.o) || c != r.o.clusterName
  }

  /** An instance elsewhere whose record the registration overwrites with another one. */
  ghost predicate Overwrites(m: Mode, s: State, r: Request, ns: string, name: string, c: string)
    requires r.Register?
  {
    var f := FindInstance(s.services, ns, name, c, KeyOf(r.o));
    Writes(m, s, r) && Elsewhere(r, ns, name, c) && f.Some? && f.value.origin.ephemeral == r.o.ephemeral && f.value.origin != r.o
  }

  /** A persistent instance whose key is the name of the service being created. */
  ghost predicate Shadows(s: State, r: Request, ns: string, name: string, c: string)
    requires r.Register?
  {
    var f := FindInstance(s.services, ns, name, c, NameOf(r.o));
    Creates(s, r) && f.Some? && !f.value.origin.ephemeral
  }

  ghost predicate Harmless(m: Mode, s: State, r: Request)
    requires r.Register?
  {
    forall ns, name, c :: !Overwrites(m, s, r, ns, name, c) && !Shadows(s, r, ns, name, c)
  }

  lemma KeyIsNotOwnName(o: Origin)
    ensures KeyOf(o) != NameOf(o)
  {
    assert |KeyOf(o)| > |NameOf(o)|;
  }

  // An instance stays backed when its record is not overwritten with another.
  lemma StaysBacked(m: Mode, s: State, r: Request, i: Instance)
    requires r.Register? && Backed(s, i) && i.key == KeyOf(i.origin)
    requires i.key == KeyOf(r.o) && Writes(m, s, r) && i.origin.ephemeral == r.o.ephemeral ==> i.origin == r.o
    requires i.key == NameOf(r.o) && Creates(s, r) ==> i.origin.ephemeral
    ensures Backed(Step(m, s, r).state, i)
  {
    KeyIsNoListKey(i.origin, NameOf(r.o));
    StoresAfter(m, s, r);
  }

  lemma HarmlessElsewhere(m: Mode, s: State, r: Request, ns: string, name: string, c: string, k: string)
    requires r.Register? && Consistent(s) && Harmless(m, s, r) && Elsewhere(r, ns, name, c)
    ensures BackedPlace(Step(m, s, r).state, ns, name, c, k)
  {
    AddKeepsElsewhere(m, s, r, ns, name, c);
    var f := FindInstance(s.services, ns, name, c, k);
    assert BackedPlace(s, ns, name, c, k);
    assert !Overwrites(m, s, r, ns, name, c) && !Shadows(s, r, ns, name, c);
    if f.Some? { StaysBacked(m, s, r, f.value); }
  }

  lemma HomeKeeps(m: Mode, s: State, r: Request, k: string)
    requires r.Register? && Consistent(s)
    ensures BackedPlace(Step(m, s, r).state, r.ns, NameOf(r.o), r.o.clusterName, k)
  {
    var out, name, c := Step(m, s, r), NameOf(r.o), r.o.clusterName;
    var was := FindInstance(s.services, r.ns, name, c, k);
    AddAtPlace(m, s, r, r.ns, name, c, k);
    assert BackedPlace(s, r.ns, name, c, k);
    if out.response.Success? { SuccessIsBacked(m, s, r); }
    if was.Some? && FindInstance(out.state.services, r.ns, name, c, k) == was {
      RegisterHere(m, s, r);
      if k != KeyOf(r.o) || !out.response.Success? { StaysBacked(m, s, r, was.value); }
    }
  }

  /**
   One registration, in either mode, keeps every registered instance backed if and only if it
   overwrites no other instance's record and shadows none with the record of a new service.
   */
  lemma BackedExactly(m: Mode, s: State, r: Request)
    requires r.Register? && Consistent(s)
    ensures Consistent(Step(m, s, r).state) <==> Harmless(m, s, r)
  {
    if Harmless(m, s, r) {
      forall ns, name, c, k ensures BackedPlace(Step(m, s, r).state, ns, name, c, k) {
        if Elsewhere(r, ns, name, c) { HarmlessElsewhere(m, s, r, ns, name, c, k); } else { HomeKeeps(m, s, r, k); }
      }
    } else {
      var ns, name, c :| Overwrites(m, s, r, ns, name, c) || Shadows(s, r, ns, name, c);
      HarmBreaks(m, s, r, ns, name, c);
    }
  }

  lemma HarmBreaks(m: Mode, s: State, r: Request, ns: string, name: string, c: string)
    requires r.Register? && Consistent(s) && (Overwrites(m, s, r, ns, name, c) || Shadows(s, r, ns, name, c))
    ensures !Consistent(Step(m, s, r).state)
  {
    var k := if Overwrites(m, s, r, ns, name, c) then KeyOf(r.o) else NameOf(r.o);
    assert BackedPlace(s, ns, name, c, k);
    KeyIsNotOwnName(r.o);
    StoresAfter(m, s, r);
    AddKeepsElsewhere(m, s, r, ns, name, c);
    KeyIsNoListKey(r.o, NameOf(r.o));
    assert !BackedPlace(Step(m, s, r).state, ns, name, c, k);
  }

  lemma OthersKeepBacked(m: Mode, s: State, r: Request)
    requires Consistent(s) && !r.Register? && (r.Timer? ==> r.e.Renew? || r.e.Check?)
    ensures Consistent(Step(m, s, r).state)
  {
    forall ns, name, c, k ensures BackedPlace(Step(m, s, r).state, ns, name, c, k) {
      assert BackedPlace(s, ns, name, c, k);
      if r.Deregister? { RemoveAtPlace(s, r, ns, name, c, k); }
    }
  }

  /** Every state of the run is consistent. */
  ghost predicate ConsistentThroughout(m: Mode, run: seq<Request>) {
    Consistent(After(m, run)) && (run != [] ==> ConsistentThroughout(m, run[..|run| - 1]))
  }

  /** Every registration of the run was harmless in the state it met. */
  ghost predicate AllHarmless(m: Mode, run: seq<Request>) {
    run == [] || (AllHarmless(m, run[..|run| - 1]) && HarmlessStep(m, After(m, run[..|run| - 1]), run[|run| - 1]))
  }

  ghost predicate HarmlessStep(m: Mode, s: State, r: Request) {
    r.Register? ==> Harmless(m, s, r)
  }

  lemma ConsistentStep(m: Mode, s: State, r: Request)
    requires Consistent(s) && (r.Timer? ==> r.e.Renew? || r.e.Check?)
    ensures Consistent(Step(m, s, r).state) <==> HarmlessStep(m, s, r)
  {
    if r.Register? { BackedExactly(m, s, r); } else { OthersKeepBacked(m, s, r); }
  }

  /** Over whole runs: every state is consistent if and only if every registration was harmless. */
  lemma {:induction false} BackedThroughoutExactly(m: Mode, run: seq<Request>)
    requires Legal(run)
    ensures ConsistentThroughout(m, run) <==> AllHarmless(m, run)
  {
    if run != [] {
      var run', r := run[..|run| - 1], run[|run| - 1];
      BackedThroughoutExactly(m, run');
      var s := After(m, run');
      if Consistent(s) { ConsistentStep(m, s, r); }
    }
  }

  // ---- The cluster look-up as written --------------------------------------------------------------

  /** What the look-up under the full name finds. */
  function LookedUp(s: State, r: Request): Option<Cluster>
    requires r.Register?
  {
    FindCluster(s.services, r.ns, NameOf(r.o), ParseClusterName(NameOf(r.o), r.o.clusterName))
  }

  function Home(s: State, r: Request): Option<Cluster>
    requires r.Register?
  {
    FindCluster(s.services, r.ns, NameOf(r.o), r.o.clusterName)
  }

  /**
   As written, with working stores: refused exactly when the look-up finds a cluster of the
   other kind; a panic exactly when it finds a fitting one but the cluster itself is not there.
   */
  lemma AsWrittenRefusesExactly(s: State, r: Request)
    requires r.Register? && r.savesService && r.savesInstance
    ensures var resp, found := Step(AsWritten, s, r).response, LookedUp(s, r);
            && (resp.Failure? <==> found.Some? && found.value.kind != Unknown && found.value.kind != KindOf(r.o))
            && (resp.Panic? <==> found.Some? && found.value.kind in {Unknown, KindOf(r.o)} && Home(s, r).None?)
  {
    RegisterHere(AsWritten, s, r);
  }

  /** The look-up finds a cluster of the instance's kind while its own cluster is of the other kind. */
  predicate Mixes(s: State, r: Request)
    requires r.Register?
  {
    var found, home := LookedUp(s, r), Home(s, r);
    && r.savesInstance && found.Some? && found.value.kind == KindOf(r.o)
    && home.Some? && home.value.kind != KindOf(r.o)
  }

  /** As written, a registration keeps one kind per cluster if and only if it does not mix them. */
  lemma AsWrittenOneKindExactly(s: State, r: Request)
    requires r.Register? && OneKind(s)
    ensures OneKind(Step(AsWritten, s, r).state) <==> !Mixes(s, r)
  {
    var s', name, c := Step(AsWritten, s, r).state, NameOf(r.o), r.o.clusterName;
    UniformHere(s, r);
    if !Mixes(s, r) {
      forall ns', name', c' ensures UniformAt(s', ns', name', c') {
        assert UniformAt(s, ns', name', c');
        if Elsewhere(r, ns', name', c') { AddKeepsElsewhere(AsWritten, s, r, ns', name', c'); }
      }
    } else {
      assert !UniformAt(s', r.ns, name, c);
    }
  }

  lemma UniformHere(s: State, r: Request)
    requires r.Register? && OneKind(s)
    ensures UniformAt(Step(AsWritten, s, r).state, r.ns, NameOf(r.o), r.o.clusterName) <==> !Mixes(s, r)
  {
    var name, c := NameOf(r.o), r.o.clusterName;
    assert UniformAt(s, r.ns, name, c);
    assert UniformAt(s, r.ns, name, ParseClusterName(name, c));
    if ReachesStore(s, r) {
      RegisterHere(AsWritten, s, r);
      var cl := Opened(AsWritten, s, r.ns, r.o);
      if cl.Some? { JoinedUniformExactly(cl.value, r.o); }
    } else {
      FindAfterCreate(s, r.ns, r.o, r.savesService, r.ns, name, c);
    }
  }

  lemma JoinedUniformExactly(cl: Cluster, o: Origin)
    requires Uniform(cl)
    ensures Uniform(Joined(cl, o)) <==> cl.kind == KindOf(o)
  {
    var j := Joined(cl, o);
    assert j.repository[KeyOf(o)] == Instance(KeyOf(o), o);
  }

  /** Every state of the run has one kind per cluster. */
  ghost predicate OneKindThroughout(run: seq<Request>) {
    OneKind(After(AsWritten, run)) && (run != [] ==> OneKindThroughout(run[..|run| - 1]))
  }

  /** No registration of the run mixes kinds in the state it meets. */
  predicate NeverMixes(run: seq<Request>) {
    run == [] || (NeverMixes(run[..|run| - 1]) && !MixesStep(After(AsWritten, run[..|run| - 1]), run[|run| - 1]))
  }

  predicate MixesStep(s: State, r: Request) {
    r.Register? && Mixes(s, r)
  }

  /** Over whole runs, as written: clusters have one kind in every state if and only if no registration mixes them. */
  lemma {:induction false} OneKindThroughoutExactly(run: seq<Request>)
    ensures OneKindThroughout(run) <==> NeverMixes(run)
  {
    if run != [] {
      var run', r := run[..|run| - 1], run[|run| - 1];
      OneKindThroughoutExactly(run');
      var s := After(AsWritten, run');
      if OneKind(s) {
        if r.Register? { AsWrittenOneKindExactly(s, r); }
        else {
          OneKindStep(s, r);
          assert Step(AsWritten, s, r) == Step(OneKey, s, r);
        }
      }
    }
  }

  /** Every cluster holds at most one instance. */
  ghost predicate Lonely(s: State) {
    forall ns, name, c :: AloneAt(s, ns, name, c)
  }

  ghost predicate AloneAt(s: State, ns: string, name: string, c: string) {
    var cl := FindCluster(s.services, ns, name, c);
    cl.Some? ==> |cl.value.repository| <= 1
  }

  /** The look-up finds a fitting cluster while its own cluster holds another instance. */
  ghost predicate Crowds(s: State, r: Request)
    requires r.Register?
  {
    var found, home := LookedUp(s, r), Home(s, r);
    && r.savesInstance && found.Some? && found.value.kind in {Unknown, KindOf(r.o)}
    && home.Some? && exists k :: k in home.value.repository && k != KeyOf(r.o)
  }

  /** As written, clusters stay at one instance at most if and only if the registration does not crowd one. */
  lemma AsWrittenLonelyExactly(s: State, r: Request)
    requires r.Register? && Lonely(s)
    ensures Lonely(Step(AsWritten, s, r).state) <==> !Crowds(s, r)
  {
    var s', name, c := Step(AsWritten, s, r).state, NameOf(r.o), r.o.clusterName;
    AloneHere(s, r);
    if !Crowds(s, r) {
      forall ns', name', c' ensures AloneAt(s', ns', name', c') {
        assert AloneAt(s, ns', name', c');
        if Elsewhere(r, ns', name', c') { AddKeepsElsewhere(AsWritten, s, r, ns', name', c'); }
      }
    } else {
      assert !AloneAt(s', r.ns, name, c);
    }
  }

  lemma AloneHere(s: State, r: Request)
    requires r.Register? && Lonely(s)
    ensures AloneAt(Step(AsWritten, s, r).state, r.ns, NameOf(r.o), r.o.clusterName) <==> !Crowds(s, r)
  {
    var name, c := NameOf(r.o), r.o.clusterName;
    assert AloneAt(s, r.ns, name, c);
    if ReachesStore(s, r) {
      RegisterHere(AsWritten, s, r);
      if LookedUp(s, r).None? {
        JoinedAlone(r.o);
      } else if Home(s, r).Some? {
        JoinedAloneExactly(Home(s, r).value, r.o);
      }
    } else {
      FindAfterCreate(s, r.ns, r.o, r.savesService, r.ns, name, c);
    }
  }

  lemma JoinedAloneExactly(cl: Cluster, o: Origin)
    requires |cl.repository| <= 1
    ensures |Joined(cl, o).repository| <= 1 <==> !(exists k :: k in cl.repository && k != KeyOf(o))
  {
    var ks, ks' := cl.repository.Keys, Joined(cl, o).repository.Keys;
    assert ks' == ks + {KeyOf(o)} && |cl.repository| == |ks| && |Joined(cl, o).repository| == |ks'|;
    if k :| k in ks && k != KeyOf(o) {
      SubsetSize({k, KeyOf(o)}, ks');
    } else {
      assert ks' == {KeyOf(o)};
    }
  }

  /** Every state of the run has at most one instance per cluster. */
  ghost predicate LonelyThroughout(run: seq<Request>) {
    Lonely(After(AsWritten, run)) && (run != [] ==> LonelyThroughout(run[..|run| - 1]))
  }

  /** No registration of the run crowds a cluster in the state it meets. */
  ghost predicate NeverCrowds(run: seq<Request>) {
    run == [] || (NeverCrowds(run[..|run| - 1]) && !CrowdsStep(After(AsWritten, run[..|run| - 1]), run[|run| - 1]))
  }

  ghost predicate CrowdsStep(s: State, r: Request) {
    r.Register? && Crowds(s, r)
  }

  lemma OthersKeepLonely(s: State, r: Request)
    requires Lonely(s) && !r.Register?
    ensures Lonely(Step(AsWritten, s, r).state)
  {
    forall ns, name, c ensures AloneAt(Step(AsWritten, s, r).state, ns, name, c) {
      assert AloneAt(s, ns, name, c);
      if r.Deregister? { RemoveAlone(s, r, ns, name, c); }
    }
  }

  lemma RemoveAlone(s: State, r: Request, ns: string, name: string, c: string)
    requires r.Deregister? && Lonely(s)
    ensures AloneAt(RemoveInstance(s, r.ns, r.o).state, ns, name, c)
  {
    assert AloneAt(s, ns, name, c);
    var cl := FindCluster(s.services, r.ns, NameOf(r.o), r.o.clusterName);
    if cl.Some? {
      assert AloneAt(s, r.ns, NameOf(r.o), r.o.clusterName);
      var rest := cl.value.repository - {KeyOf(r.o)};
      SmallerMap(cl.value.repository, KeyOf(r.o));
      FindAfterPut(s.services, r.ns, NameOf(r.o), r.o.clusterName, cl.value.(repository := rest), ns, name, c);
    }
  }

  /** Over whole runs, as written: one instance at most per cluster in every state if and only if no registration crowds one. */
  lemma {:induction false} LonelyThroughoutExactly(run: seq<Request>)
    ensures LonelyThroughout(run) <==> NeverCrowds(run)
  {
    if run != [] {
      var run', r := run[..|run| - 1], run[|run| - 1];
      LonelyThroughoutExactly(run');
      var s := After(AsWritten, run');
      if Lonely(s) {
        if r.Register? { AsWrittenLonelyExactly(s, r); } else { OthersKeepLonely(s, r); }
      }
    }
  }

  // ---- Runs that go wrong as written ----------------------------------------------------------------

  // Two instances of one cluster: both registrations succeed, whatever their kinds, and the first
  // instance is gone.
  lemma AsWrittenForgetsFirst(o1: Origin, o2: Origin, ns: string)
    requires NameOf(o1) == NameOf(o2) && o1.clusterName == o2.clusterName && KeyOf(o1) != KeyOf(o2)
    ensures var r1, r2 := Register(ns, o1, 0, true, true), Register(ns, o2, 0, true, true);
            var s1 := Step(AsWritten, INIT, r1);
            var s2 := Step(AsWritten, s1.state, r2);
            && s1.response.Success? && s2.response.Success?
            && FindInstance(s1.state.services, ns, NameOf(o1), o1.clusterName, KeyOf(o1)) == Some(Instance(KeyOf(o1), o1))
            && FindInstance(s2.state.services, ns, NameOf(o1), o1.clusterName, KeyOf(o1)) == None
  {
    var r1, r2 := Register(ns, o1, 0, true, true), Register(ns, o2, 0, true, true);
    var name, c := NameOf(o1), o1.clusterName;
    var s1 := Step(AsWritten, INIT, r1).state;
    RegisterHere(AsWritten, INIT, r1);
    FullNameDiffers(name, c);
    AddKeepsElsewhere(AsWritten, INIT, r1, ns, name, ParseClusterName(name, c));
    RegisterHere(AsWritten, s1, r2);
  }

  lemma FullNameDiffers(name: string, c: string)
    ensures ParseClusterName(name, c) != c
  {
    assert |ParseClusterName(name, c)| > |c|;
  }

  // A temporary instance in c, a persistent one in a cluster with c's full name, and a persistent
  // one in c: the last registration succeeds and c holds two kinds.
  lemma AsWrittenMixesKinds(o: Origin, ns: string)
    ensures var c := o.clusterName;
            var r1 := Register(ns, o.(ephemeral := true), 0, true, true);
            var r2 := Register(ns, o.(ephemeral := false, clusterName := ParseClusterName(NameOf(o), c)), 0, true, true);
            var r3 := Register(ns, o.(ephemeral := false), 0, true, true);
            var s2 := Step(AsWritten, Step(AsWritten, INIT, r1).state, r2).state;
            OneKind(s2) && Step(AsWritten, s2, r3).response.Success? && !OneKind(Step(AsWritten, s2, r3).state)
  {
    var name, c := NameOf(o), o.clusterName;
    var full := ParseClusterName(name, c);
    var r1 := Register(ns, o.(ephemeral := true), 0, true, true);
    var r2 := Register(ns, o.(ephemeral := false, clusterName := full), 0, true, true);
    var r3 := Register(ns, o.(ephemeral := false), 0, true, true);
    var s1 := Step(AsWritten, INIT, r1).state;
    var s2 := Step(AsWritten, s1, r2).state;
    FullNameDiffers(name, c);
    FullNameDiffers(name, full);
    assert OneKind(INIT);
    RegisterHere(AsWritten, INIT, r1);
    AsWrittenOneKindExactly(INIT, r1);
    assert ParseClusterName(name, full) != c by { assert |ParseClusterName(name, full)| > |c|; }
    AddKeepsElsewhere(AsWritten, INIT, r1, ns, name, full);
    AddKeepsElsewhere(AsWritten, INIT, r1, ns, name, ParseClusterName(name, full));
    RegisterHere(AsWritten, s1, r2);
    AsWrittenOneKindExactly(s1, r2);
    AddKeepsElsewhere(AsWritten, s1, r2, ns, name, c);
    RegisterHere(AsWritten, s2, r3);
    AsWrittenOneKindExactly(s2, r3);
  }
}
