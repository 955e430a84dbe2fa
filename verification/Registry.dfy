/**
 The service registry: ServiceManager (server/discovery/discovery_core.go), Service and Cluster
 (discovery_model.go) and the two key-value stores behind them (discovery_storage.go), with the
 leases of discovery_less.go.
 */
module Registry {
  import opened Common
  import opened Names
  import Lease

  datatype CheckType = TCP | HTTP | CUSTOMER | HeartBeat

  /** pojo.Instance; `rest` stands for the fields nothing here depends on. */
  datatype Origin = Origin(serviceName: string, group: string, ip: string, port: int, clusterName: string,
                           ephemeral: bool, check: CheckType, rest: string)

  datatype Instance = Instance(key: string, origin: Origin)

  datatype Kind = Unknown | Persist | Temporary

  datatype Cluster = Cluster(name: string, kind: Kind, repository: map<string, Instance>)

  datatype Service = Service(name: string, clusters: map<string, Cluster>)

  type Services = map<string, map<string, Service>>

  /** What the stores hold; marshalling is taken to be injective. */
  datatype Value =
    | ServiceRecord(serviceName: string, group: string)
    | ClusterList(text: string)
    | InstanceRecord(origin: Origin)

  datatype State = State(services: Services, memory: map<string, Value>, disk: map<string, Value>, lease: Lease.State)

  const INIT := State(map[], map[], map[], Lease.INIT)

  datatype Response = Success | Failure | Panic

  datatype Result = Result(state: State, response: Response)

  /** AsWritten looks a cluster up under its full name and stores it under its short one. */
  datatype Mode = AsWritten | OneKey

  function NameOf(o: Origin): string {
    ParseServiceName(o.serviceName, o.group)
  }

  function KeyOf(o: Origin): (k: string)
    ensures k != ""
  {
    ParseInstanceKey(NameOf(o), o.clusterName, o.ip, Int32(o.port))
  }

  function KindOf(o: Origin): (k: Kind)
    ensures k != Unknown
  {
    if o.ephemeral then Temporary else Persist
  }

  function LookupKey(m: Mode, name: string, clusterName: string): string {
    if m == OneKey then clusterName else ParseClusterName(name, clusterName)
  }

  function FindService(ss: Services, ns: string, name: string): Option<Service> {
    if ns in ss && name in ss[ns] then Some(ss[ns][name]) else None
  }

  function FindCluster(ss: Services, ns: string, name: string, c: string): Option<Cluster> {
    var s := FindService(ss, ns, name);
    if s.Some? && c in s.value.clusters then Some(s.value.clusters[c]) else None
  }

  function FindInstance(ss: Services, ns: string, name: string, c: string, k: string): Option<Instance> {
    var cl := FindCluster(ss, ns, name, c);
    if cl.Some? && k in cl.value.repository then Some(cl.value.repository[k]) else None
  }

  function PutService(ss: Services, ns: string, name: string, s: Service): Services {
    ss[ns := (if ns in ss then ss[ns] else map[])[name := s]]
  }

  function PutCluster(ss: Services, ns: string, name: string, c: string, cl: Cluster): Services
    requires FindService(ss, ns, name).Some?
  {
    var s := ss[ns][name];
    PutService(ss, ns, name, s.(clusters := s.clusters[c := cl]))
  }

  // ---- Steps ----------------------------------------------------------------------------------

  /** createServiceIfAbsent; `saved` is the verdict of SaveService. */
  function CreateServiceIfAbsent(s: State, ns: string, o: Origin, saved: bool): (r: Result)
    ensures r.response.Success? ==> FindService(r.state.services, ns, NameOf(o)).Some?
  {
    var name := NameOf(o);
    var s' := s.(services := if ns in s.services then s.services else s.services[ns := map[]]);
    if FindService(s.services, ns, name).Some? then Result(s', Success)
    else if !saved then Result(s', Failure)
    else
      Result(s'.(services := PutService(s'.services, ns, name, Service(name, map[])),
                 disk := s'.disk[name := ServiceRecord(o.serviceName, o.group)]
                                [ParseServiceClusterList(name) := ClusterList(Join([], ","))]),
             Success)
  }

  function NewCluster(o: Origin): Cluster {
    Cluster(ParseClusterName(NameOf(o), o.clusterName), KindOf(o), map[])
  }

  /** The cluster storeInstanceInfo works with: the one it finds or a new one. */
  function ClusterFor(m: Mode, s: State, ns: string, o: Origin): Cluster {
    var found := FindCluster(s.services, ns, NameOf(o), LookupKey(m, NameOf(o), o.clusterName));
    if found.Some? then found.value else NewCluster(o)
  }

  function EnsureCluster(m: Mode, s: State, ns: string, o: Origin): State
    requires FindService(s.services, ns, NameOf(o)).Some?
  {
    if FindCluster(s.services, ns, NameOf(o), LookupKey(m, NameOf(o), o.clusterName)).Some? then s
    else s.(services := PutCluster(s.services, ns, NameOf(o), o.clusterName, NewCluster(o)))
  }

  /** kvDiscoveryStorage.SaveInstance, when it succeeds. */
  function SaveInstance(s: State, o: Origin): State {
    if o.ephemeral then s.(memory := s.memory[KeyOf(o) := InstanceRecord(o)])
    else s.(disk := s.disk[KeyOf(o) := InstanceRecord(o)])
  }

  /** The cluster with the instance put into its repository. */
  function Joined(cl: Cluster, o: Origin): Cluster {
    cl.(repository := cl.repository[KeyOf(o) := Instance(KeyOf(o), o)])
  }

  /** Service.addInstance: the type assertion panics when the cluster is not there. */
  function AddToCluster(s: State, ns: string, o: Origin): Result {
    var cl := FindCluster(s.services, ns, NameOf(o), o.clusterName);
    if cl.None? then Result(s, Panic)
    else
      Result(s.(services := PutCluster(s.services, ns, NameOf(o), o.clusterName, Joined(cl.value, o))), Success)
  }

  function GrantIfHeartbeat(s: State, o: Origin, now: int): State {
    if o.check == HeartBeat then s.(lease := Lease.Step(s.lease, Lease.Grant(KeyOf(o), now))) else s
  }

  /** storeInstanceInfo; `saved` is the verdict of SaveInstance. */
  function StoreInstanceInfo(m: Mode, s: State, ns: string, o: Origin, now: int, saved: bool): (r: Result)
    requires FindService(s.services, ns, NameOf(o)).Some?
  {
    var kind := ClusterFor(m, s, ns, o).kind;
    var s1 := EnsureCluster(m, s, ns, o);
    if (kind != Unknown && kind != KindOf(o)) || !saved then Result(s1, Failure)
    else
      var r := AddToCluster(SaveInstance(s1, o), ns, o);
      if r.response.Success? then r.(state := GrantIfHeartbeat(r.state, o, now)) else r
  }

  function AddInstance(m: Mode, s: State, ns: string, o: Origin, now: int, savesService: bool, savesInstance: bool): Result {
    var r := CreateServiceIfAbsent(s, ns, o, savesService);
    if r.response.Success? then StoreInstanceInfo(m, r.state, ns, o, now, savesInstance) else r
  }

  function RemoveInstance(s: State, ns: string, o: Origin): Result {
    var name, c := NameOf(o), o.clusterName;
    if FindService(s.services, ns, name).None? then Result(s, Failure)
    else
      var cl := FindCluster(s.services, ns, name, c);
      if cl.None? then Result(s, Panic)
      else
        var cl' := cl.value.(repository := cl.value.repository - {KeyOf(o)});
        Result(s.(services := PutCluster(s.services, ns, name, c, cl')), Success)
  }

  datatype Request =
    | Register(ns: string, o: Origin, now: int, savesService: bool, savesInstance: bool)
    | Deregister(ns: string, o: Origin)
    | Timer(e: Lease.Event)     // the lease side at work on its own

  function Step(m: Mode, s: State, r: Request): Result {
    match r
    case Register(ns, o, now, f, g) => AddInstance(m, s, ns, o, now, f, g)
    case Deregister(ns, o) => RemoveInstance(s, ns, o)
    case Timer(e) => Result(s.(lease := Lease.Step(s.lease, e)), Success)
  }

  function After(m: Mode, run: seq<Request>): State {
    if run == [] then INIT else Step(m, After(m, run[..|run| - 1]), run[|run| - 1]).state
  }

  /** Nothing in the server calls RevokeLess, and leases are granted by registrations. */
  ghost predicate Legal(run: seq<Request>) {
    forall i :: 0 <= i < |run| && run[i].Timer? ==> run[i].e.Renew? || run[i].e.Check?
  }

  // ---- Lookups after an update -----------------------------------------------------------------

  lemma FindAfterPut(ss: Services, ns: string, name: string, c: string, cl: Cluster,
                     ns': string, name': string, c': string)
    requires FindService(ss, ns, name).Some?
    ensures FindCluster(PutCluster(ss, ns, name, c, cl), ns', name', c')
         == if ns' == ns && name' == name && c' == c then Some(cl) else FindCluster(ss, ns', name', c')
    ensures FindService(PutCluster(ss, ns, name, c, cl), ns', name').Some? == FindService(ss, ns', name').Some?
  {
  }

  lemma FindAfterCreate(s: State, ns: string, o: Origin, saved: bool, ns': string, name': string, c': string)
    ensures FindCluster(CreateServiceIfAbsent(s, ns, o, saved).state.services, ns', name', c')
         == FindCluster(s.services, ns', name', c')
  {
  }

  // What a registration can do to one place of the registry: the new instance appears at its own
  // place, with success; any other place keeps its instance or loses it.
  lemma AddAtPlace(m: Mode, s: State, r: Request, ns: string, name: string, c: string, k: string)
    requires r.Register?
    ensures var out := Step(m, s, r);
            var was, now := FindInstance(s.services, ns, name, c, k), FindInstance(out.state.services, ns, name, c, k);
            var here := ns == r.ns && name == NameOf(r.o) && c == r.o.clusterName && k == KeyOf(r.o);
            now.Some? ==> now == was || (here && out.response.Success? && now == Some(Instance(k, r.o)))
  {
    FindAfterCreate(s, r.ns, r.o, r.savesService, ns, name, c);
    var created := CreateServiceIfAbsent(s, r.ns, r.o, r.savesService);
    if created.response.Success? {
      StoreAtPlace(m, created.state, r, ns, name, c, k);
    }
  }

  lemma StoreAtPlace(m: Mode, s: State, r: Request, ns: string, name: string, c: string, k: string)
    requires r.Register? && FindService(s.services, r.ns, NameOf(r.o)).Some?
    ensures var out := StoreInstanceInfo(m, s, r.ns, r.o, r.now, r.savesInstance);
            var was, now := FindInstance(s.services, ns, name, c, k), FindInstance(out.state.services, ns, name, c, k);
            var here := ns == r.ns && name == NameOf(r.o) && c == r.o.clusterName && k == KeyOf(r.o);
            now.Some? ==> now == was || (here && out.response.Success? && now == Some(Instance(k, r.o)))
  {
    if ns != r.ns || name != NameOf(r.o) || c != r.o.clusterName {
      StoreKeepsElsewhere(m, s, r, ns, name, c);
    } else {
      StoreHere(m, s, r);
    }
  }

  /** The cluster in its place once storeInstanceInfo has seen to it that there is one. */
  function Opened(m: Mode, s: State, ns: string, o: Origin): Option<Cluster> {
    if FindCluster(s.services, ns, NameOf(o), LookupKey(m, NameOf(o), o.clusterName)).Some?
    then FindCluster(s.services, ns, NameOf(o), o.clusterName) else Some(NewCluster(o))
  }

  // What storing an instance does to its own cluster.
  lemma StoreHere(m: Mode, s: State, r: Request)
    requires r.Register? && FindService(s.services, r.ns, NameOf(r.o)).Some?
    ensures var out := StoreInstanceInfo(m, s, r.ns, r.o, r.now, r.savesInstance);
            var cl := Opened(m, s, r.ns, r.o);
            && (out.response.Success? ==> cl.Some? && ClusterFor(m, s, r.ns, r.o).kind in {Unknown, KindOf(r.o)})
            && FindCluster(out.state.services, r.ns, NameOf(r.o), r.o.clusterName)
               == (if out.response.Success? then Some(Joined(cl.value, r.o)) else cl)
  {
  }

  lemma EnsureAt(m: Mode, s: State, ns: string, o: Origin, ns': string, name: string, c: string)
    requires FindService(s.services, ns, NameOf(o)).Some?
    ensures var s1 := EnsureCluster(m, s, ns, o);
            && (FindCluster(s1.services, ns', name, c) == FindCluster(s.services, ns', name, c)
                || (ns' == ns && name == NameOf(o) && c == o.clusterName && FindCluster(s1.services, ns', name, c) == Some(NewCluster(o))))
            && s1.memory == s.memory && s1.disk == s.disk && s1.lease == s.lease
            && FindService(s1.services, ns, NameOf(o)).Some?
  {
  }

  lemma AddAt(s: State, ns: string, o: Origin, ns': string, name: string, c: string)
    ensures var r, home := AddToCluster(s, ns, o), FindCluster(s.services, ns, NameOf(o), o.clusterName);
            && r.response == (if home.Some? then Success else Panic)
            && FindCluster(r.state.services, ns', name, c)
               == (if ns' == ns && name == NameOf(o) && c == o.clusterName && home.Some?
                   then Some(Joined(home.value, o))
                   else FindCluster(s.services, ns', name, c))
            && r.state.memory == s.memory && r.state.disk == s.disk && r.state.lease == s.lease
  {
  }

  ghost predicate SameAt(k: string, s: State, s': State) {
    && (k in s'.memory <==> k in s.memory) && (k in s.memory ==> s'.memory[k] == s.memory[k])
    && (k in s'.disk <==> k in s.disk) && (k in s.disk ==> s'.disk[k] == s.disk[k])
    && (k in s.lease.deadlines ==> k in s'.lease.deadlines)
  }

  /** Registrations touch only their own keys in the stores, and never drop a lease. */
  lemma AddFrame(m: Mode, s: State, r: Request, k: string)
    requires r.Register? && k != KeyOf(r.o) && k != NameOf(r.o) && k != ParseServiceClusterList(NameOf(r.o))
    ensures SameAt(k, s, Step(m, s, r).state)
  {
    CreateFrame(s, r, k);
    var created := CreateServiceIfAbsent(s, r.ns, r.o, r.savesService);
    if created.response.Success? {
      StoreFrame(m, created.state, r, k);
    }
  }

  lemma CreateFrame(s: State, r: Request, k: string)
    requires r.Register? && k != NameOf(r.o) && k != ParseServiceClusterList(NameOf(r.o))
    ensures SameAt(k, s, CreateServiceIfAbsent(s, r.ns, r.o, r.savesService).state)
  {
  }

  lemma StoreFrame(m: Mode, s: State, r: Request, k: string)
    requires r.Register? && k != KeyOf(r.o) && FindService(s.services, r.ns, NameOf(r.o)).Some?
    ensures SameAt(k, s, StoreInstanceInfo(m, s, r.ns, r.o, r.now, r.savesInstance).state)
  {
    EnsureAt(m, s, r.ns, r.o, "", "", "");
    var s2 := SaveInstance(EnsureCluster(m, s, r.ns, r.o), r.o);
    assert SameAt(k, s, s2);
    AddAt(s2, r.ns, r.o, "", "", "");
  }

  // ---- Registered instances are stored and leased ----------------------------------------------

  /** The instance is in the store of its kind under its key, and leased if it sends heartbeats. */
  predicate Backed(s: State, i: Instance) {
    && (if i.origin.ephemeral then i.key in s.memory && s.memory[i.key] == InstanceRecord(i.origin)
        else i.key in s.disk && s.disk[i.key] == InstanceRecord(i.origin))
    && (i.origin.check == HeartBeat ==> i.key in s.lease.deadlines)
  }

  ghost predicate Requested(run: seq<Request>, ns: string, o: Origin) {
    exists i :: 0 <= i < |run| && run[i].Register? && run[i].ns == ns && run[i].o == o
  }

  /** The instance sits where its own registration put it. */
  ghost predicate Placed(run: seq<Request>, ns: string, name: string, c: string, k: string, i: Instance) {
    WellPlaced(name, c, k, i) && Requested(run, ns, i.origin)
  }

  predicate WellPlaced(name: string, c: string, k: string, i: Instance) {
    i.key == k && k == KeyOf(i.origin) && name == NameOf(i.origin) && c == i.origin.clusterName
  }

  ghost predicate AllBacked(s: State, run: seq<Request>) {
    forall ns, name, c, k :: FindInstance(s.services, ns, name, c, k).Some? ==>
      var i := FindInstance(s.services, ns, name, c, k).value;
      Placed(run, ns, name, c, k, i) && Backed(s, i)
  }

  /**
   No two registrations in different places share an instance key, and none has the name of
   a service for its key.
   */
  ghost predicate CollisionFree(run: seq<Request>) {
    forall i, j :: 0 <= i < |run| && 0 <= j < |run| && run[i].Register? && run[j].Register? ==>
      && KeyOf(run[i].o) != NameOf(run[j].o)
      && (KeyOf(run[i].o) == KeyOf(run[j].o) ==>
            run[i].ns == run[j].ns && NameOf(run[i].o) == NameOf(run[j].o) && run[i].o.clusterName == run[j].o.clusterName)
  }

  // An instance key ends in a digit, a cluster-list key does not.
  lemma KeyIsNoListKey(o: Origin, name: string)
    ensures KeyOf(o) != ParseServiceClusterList(name)
  {
    var k, l, d := KeyOf(o), ParseServiceClusterList(name), Decimal(Int32(o.port));
    DecimalLastDigit(Int32(o.port));
    assert k[|k| - 1] == d[|d| - 1];
    assert l[|l| - 1] == 't';
  }

  lemma {:induction false} BackedStep(m: Mode, s: State, run: seq<Request>, r: Request)
    requires AllBacked(s, run) && Legal([r]) && CollisionFree(run + [r])
    ensures AllBacked(Step(m, s, r).state, run + [r])
  {
    var s', run' := Step(m, s, r).state, run + [r];
    forall ns, name, c, k | FindInstance(s'.services, ns, name, c, k).Some?
      ensures var i := FindInstance(s'.services, ns, name, c, k).value;
              Placed(run', ns, name, c, k, i) && Backed(s', i)
    {
      BackedAtPlace(m, s, run, r, ns, name, c, k);
    }
  }

  // A successful registration is in place and backed.
  lemma SuccessIsBacked(m: Mode, s: State, r: Request)
    requires r.Register? && Step(m, s, r).response.Success?
    ensures var s', i := Step(m, s, r).state, Instance(KeyOf(r.o), r.o);
            FindInstance(s'.services, r.ns, NameOf(r.o), r.o.clusterName, i.key) == Some(i) && Backed(s', i)
  {
    var s0 := CreateServiceIfAbsent(s, r.ns, r.o, r.savesService).state;
    var s2 := SaveInstance(EnsureCluster(m, s0, r.ns, r.o), r.o);
    AddAt(s2, r.ns, r.o, r.ns, NameOf(r.o), r.o.clusterName);
  }

  // A registration refused in a known cluster leaves stores and leases alone.
  lemma FailureKeepsStores(m: Mode, s: State, r: Request)
    requires r.Register? && !Step(m, s, r).response.Success?
    requires FindCluster(s.services, r.ns, NameOf(r.o), r.o.clusterName).Some?
    ensures var s' := Step(m, s, r).state;
            s'.memory == s.memory && s'.disk == s.disk && s'.lease == s.lease
  {
  }

  lemma RemoveAtPlace(s: State, r: Request, ns: string, name: string, c: string, k: string)
    requires r.Deregister?
    ensures var s' := RemoveInstance(s, r.ns, r.o).state;
            && s'.memory == s.memory && s'.disk == s.disk && s'.lease == s.lease
            && var now := FindInstance(s'.services, ns, name, c, k);
               now.Some? ==> now == FindInstance(s.services, ns, name, c, k)
  {
  }

  // What was placed stays placed, and does not collide with the next registration.
  lemma OldPlace(run: seq<Request>, r: Request, ns: string, name: string, c: string, i: Instance)
    requires Placed(run, ns, name, c, i.key, i) && CollisionFree(run + [r])
    ensures Placed(run + [r], ns, name, c, i.key, i)
    ensures r.Register? ==> i.key != NameOf(r.o)
    ensures r.Register? && i.key == KeyOf(r.o) ==> ns == r.ns && name == NameOf(r.o) && c == r.o.clusterName
  {
    var run' := run + [r];
    var j :| 0 <= j < |run| && run[j].Register? && run[j].ns == ns && run[j].o == i.origin;
    assert run'[j] == run[j] && run'[|run|] == r;
  }

  lemma BackedAtPlace(m: Mode, s: State, run: seq<Request>, r: Request, ns: string, name: string, c: string, k: string)
    requires AllBacked(s, run) && Legal([r]) && CollisionFree(run + [r])
    requires FindInstance(Step(m, s, r).state.services, ns, name, c, k).Some?
    ensures var i := FindInstance(Step(m, s, r).state.services, ns, name, c, k).value;
            Placed(run + [r], ns, name, c, k, i) && Backed(Step(m, s, r).state, i)
  {
    var s' := Step(m, s, r).state;
    var i := FindInstance(s'.services, ns, name, c, k).value;
    var was := FindInstance(s.services, ns, name, c, k);
    if was == Some(i) { OldPlace(run, r, ns, name, c, i); }
    match r
    case Register(_, _, _, _, _) =>
      AddAtPlace(m, s, r, ns, name, c, k);
      if k != KeyOf(r.o) {
        KeyIsNoListKey(i.origin, NameOf(r.o));
        AddFrame(m, s, r, k);
      } else if Step(m, s, r).response.Success? {
        SuccessIsBacked(m, s, r);
        assert (run + [r])[|run|] == r;
      } else {
        FailureKeepsStores(m, s, r);
      }
    case Deregister(_, _) =>
      RemoveAtPlace(s, r, ns, name, c, k);
    case Timer(e) =>
      assert [r][0] == r;
  }

  /**
   In every run without colliding keys, in either mode, each registered instance is stored with
   its value under its key in the store of its kind, and leased if it sends heartbeats.
   */
  lemma {:induction false} RegisteredAreBacked(m: Mode, run: seq<Request>)
    requires Legal(run) && CollisionFree(run)
    ensures AllBacked(After(m, run), run)
  {
    if run != [] {
      var run', r := run[..|run| - 1], run[|run| - 1];
      assert run == run' + [r];
      assert Legal([r]) by { assert [r][0] == r; }
      RegisteredAreBacked(m, run');
      BackedStep(m, After(m, run'), run', r);
    }
  }

  /** One namespace and clean names are enough for keys not to collide. */
  lemma CleanRunsDoNotCollide(run: seq<Request>, ns: string)
    requires forall i :: 0 <= i < |run| && run[i].Register? ==> run[i].ns == ns && CleanNames(run[i].o)
    ensures CollisionFree(run)
  {
    forall i, j | 0 <= i < |run| && 0 <= j < |run| && run[i].Register? && run[j].Register?
      ensures KeyOf(run[i].o) != NameOf(run[j].o)
      ensures KeyOf(run[i].o) == KeyOf(run[j].o) ==> NameOf(run[i].o) == NameOf(run[j].o) && run[i].o.clusterName == run[j].o.clusterName
    {
      var a, b := run[i].o, run[j].o;
      KeyIsNoName(a, b);
      InstanceKeyInjective(a.serviceName, a.group, a.clusterName, a.ip, a.port,
                           b.serviceName, b.group, b.clusterName, b.ip, b.port);
    }
  }

  ghost predicate CleanNames(o: Origin) {
    Clean(o.serviceName, SERVICE_LINK) && Clean(o.group, CLUSTER_LINK) && Clean(o.clusterName, INSTANCE_LINK)
  }

  lemma KeyIsNoName(a: Origin, b: Origin)
    requires CleanNames(a) && CleanNames(b)
    ensures KeyOf(a) != NameOf(b)
  {
    var t := a.clusterName + INSTANCE_LINK + (a.ip + ":" + Decimal(Int32(a.port)));
    var g := a.group + CLUSTER_LINK + t;
    assert KeyOf(a) == a.serviceName + SERVICE_LINK + g;
    assert a.group + CLUSTER_LINK + (t + CLUSTER_LINK) == g + CLUSTER_LINK + "";
    CleanExactly(g, CLUSTER_LINK);
    if KeyOf(a) == NameOf(b) {
      CleanSplit(a.serviceName, g, b.serviceName, b.group, SERVICE_LINK);
    }
  }

  // A registration keeps what is registered in other places.
  lemma AddKeepsElsewhere(m: Mode, s: State, r: Request, ns: string, name: string, c: string)
    requires r.Register? && (ns != r.ns || name != NameOf(r.o) || c != r.o.clusterName)
    ensures FindCluster(Step(m, s, r).state.services, ns, name, c) == FindCluster(s.services, ns, name, c)
  {
    FindAfterCreate(s, r.ns, r.o, r.savesService, ns, name, c);
    var created := CreateServiceIfAbsent(s, r.ns, r.o, r.savesService);
    if created.response.Success? { StoreKeepsElsewhere(m, created.state, r, ns, name, c); }
  }

  lemma StoreKeepsElsewhere(m: Mode, s: State, r: Request, ns: string, name: string, c: string)
    requires r.Register? && (ns != r.ns || name != NameOf(r.o) || c != r.o.clusterName)
    requires FindService(s.services, r.ns, NameOf(r.o)).Some?
    ensures FindCluster(StoreInstanceInfo(m, s, r.ns, r.o, r.now, r.savesInstance).state.services, ns, name, c)
         == FindCluster(s.services, ns, name, c)
  {
    EnsureAt(m, s, r.ns, r.o, ns, name, c);
    AddAt(SaveInstance(EnsureCluster(m, s, r.ns, r.o), r.o), r.ns, r.o, ns, name, c);
  }

  // Across namespaces the same instance key is shared: the instance registered first is still in
  // the registry, but its record is gone.
  lemma NamespacesCollide(o1: Origin, o2: Origin, n1: string, n2: string)
    requires n1 != n2 && o2 == o1.(rest := o2.rest) && o1 != o2
    ensures var run := [Register(n1, o1, 0, true, true), Register(n2, o2, 0, true, true)];
            var i := FindInstance(After(OneKey, run).services, n1, NameOf(o1), o1.clusterName, KeyOf(o1));
            i == Some(Instance(KeyOf(o1), o1)) && !Backed(After(OneKey, run), i.value)
  {
    var r1, r2 := Register(n1, o1, 0, true, true), Register(n2, o2, 0, true, true);
    var s1 := Step(OneKey, INIT, r1).state;
    assert After(OneKey, [r1, r2]) == Step(OneKey, s1, r2).state by {
      assert [r1, r2][..1] == [r1] && [r1][..0] == [];
      assert After(OneKey, []) == INIT && After(OneKey, [r1]) == s1;
    }
    assert KeyOf(o1) == KeyOf(o2) && NameOf(o1) == NameOf(o2);
    NewPlaceSucceeds(INIT, r1);
    AddKeepsElsewhere(OneKey, INIT, r1, n2, NameOf(o2), o2.clusterName);
    NewPlaceSucceeds(s1, r2);
    AddKeepsElsewhere(OneKey, s1, r2, n1, NameOf(o1), o1.clusterName);
  }

  // A registration that opens its cluster succeeds when the stores do.
  lemma NewPlaceSucceeds(s: State, r: Request)
    requires r.Register? && r.savesService && r.savesInstance
    requires FindCluster(s.services, r.ns, NameOf(r.o), r.o.clusterName).None?
    ensures var s', i := Step(OneKey, s, r).state, Instance(KeyOf(r.o), r.o);
            FindInstance(s'.services, r.ns, NameOf(r.o), r.o.clusterName, i.key) == Some(i) && Backed(s', i)
  {
    var c := r.o.clusterName;
    FindAfterCreate(s, r.ns, r.o, true, r.ns, NameOf(r.o), c);
    var s0 := CreateServiceIfAbsent(s, r.ns, r.o, true).state;
    FindAfterPut(s0.services, r.ns, NameOf(r.o), c, NewCluster(r.o), r.ns, NameOf(r.o), c);
    AddAt(SaveInstance(EnsureCluster(OneKey, s0, r.ns, r.o), r.o), r.ns, r.o, r.ns, NameOf(r.o), c);
  }

  // ---- One kind per cluster --------------------------------------------------------------------

  ghost predicate OneKind(s: State) {
    forall ns, name, c :: UniformAt(s, ns, name, c)
  }

  ghost predicate Uniform(cl: Cluster) {
    cl.kind != Unknown && forall k :: k in cl.repository ==> (cl.repository[k].origin.ephemeral <==> cl.kind == Temporary)
  }

  ghost predicate UniformAt(s: State, ns: string, name: string, c: string) {
    FindCluster(s.services, ns, name, c).Some? ==> Uniform(FindCluster(s.services, ns, name, c).value)
  }

  lemma OneKindStep(s: State, r: Request)
    requires OneKind(s)
    ensures OneKind(Step(OneKey, s, r).state)
  {
    forall ns, name, c ensures UniformAt(Step(OneKey, s, r).state, ns, name, c) {
      assert UniformAt(s, ns, name, c);
      match r
      case Register(_, _, _, _, _) =>
        assert UniformAt(s, r.ns, NameOf(r.o), r.o.clusterName);
        FindAfterCreate(s, r.ns, r.o, r.savesService, ns, name, c);
        FindAfterCreate(s, r.ns, r.o, r.savesService, r.ns, NameOf(r.o), r.o.clusterName);
        var created := CreateServiceIfAbsent(s, r.ns, r.o, r.savesService);
        if created.response.Success? { StoreUniform(created.state, r, ns, name, c); }
      case Deregister(_, _) =>
        assert UniformAt(s, r.ns, NameOf(r.o), r.o.clusterName);
        RemoveUniform(s, r, ns, name, c);
      case Timer(_) =>
    }
  }

  lemma StoreUniform(s: State, r: Request, ns: string, name: string, c: string)
    requires r.Register? && FindService(s.services, r.ns, NameOf(r.o)).Some?
    requires UniformAt(s, ns, name, c) && UniformAt(s, r.ns, NameOf(r.o), r.o.clusterName)
    ensures UniformAt(StoreInstanceInfo(OneKey, s, r.ns, r.o, r.now, r.savesInstance).state, ns, name, c)
  {
    if ns != r.ns || name != NameOf(r.o) || c != r.o.clusterName {
      StoreKeepsElsewhere(OneKey, s, r, ns, name, c);
    } else {
      StoreUniformHere(s, r);
    }
  }

  lemma StoreUniformHere(s: State, r: Request)
    requires r.Register? && FindService(s.services, r.ns, NameOf(r.o)).Some?
    requires UniformAt(s, r.ns, NameOf(r.o), r.o.clusterName)
    ensures UniformAt(StoreInstanceInfo(OneKey, s, r.ns, r.o, r.now, r.savesInstance).state, r.ns, NameOf(r.o), r.o.clusterName)
  {
    StoreHere(OneKey, s, r);
    var cl := Opened(OneKey, s, r.ns, r.o).value;
    if cl.kind == KindOf(r.o) { JoinedUniform(cl, r.o); }
  }

  lemma JoinedUniform(cl: Cluster, o: Origin)
    requires Uniform(cl) && cl.kind == KindOf(o)
    ensures Uniform(Joined(cl, o))
  {
  }

  lemma RemoveUniform(s: State, r: Request, ns: string, name: string, c: string)
    requires r.Deregister?
    requires UniformAt(s, ns, name, c) && UniformAt(s, r.ns, NameOf(r.o), r.o.clusterName)
    ensures UniformAt(RemoveInstance(s, r.ns, r.o).state, ns, name, c)
  {
  }

  /** With one cluster key, every cluster of every run holds instances of its recorded kind only. */
  lemma {:induction false} ClustersHaveOneKind(run: seq<Request>)
    ensures OneKind(After(OneKey, run))
  {
    if run != [] {
      ClustersHaveOneKind(run[..|run| - 1]);
      OneKindStep(After(OneKey, run[..|run| - 1]), run[|run| - 1]);
    }
  }

  /**
   With one cluster key, a registration whose cluster holds the other kind is refused and changes
   nothing, whatever the stores would answer; with working stores no other one fails. None panics.
   */
  lemma WrongKindRefused(s: State, r: Request)
    requires OneKind(s) && r.Register?
    ensures var out, cl := Step(OneKey, s, r), FindCluster(s.services, r.ns, NameOf(r.o), r.o.clusterName);
            && !out.response.Panic?
            && (cl.Some? && cl.value.kind != KindOf(r.o) ==> out.response.Failure? && out.state == s)
            && (r.savesService && r.savesInstance ==> (out.response.Failure? <==> cl.Some? && cl.value.kind != KindOf(r.o)))
  {
    assert UniformAt(s, r.ns, NameOf(r.o), r.o.clusterName);
    FindAfterCreate(s, r.ns, r.o, r.savesService, r.ns, NameOf(r.o), r.o.clusterName);
    var created := CreateServiceIfAbsent(s, r.ns, r.o, r.savesService);
    if created.response.Success? {
      var s0 := created.state;
      EnsureAt(OneKey, s0, r.ns, r.o, r.ns, NameOf(r.o), r.o.clusterName);
      FindAfterPut(s0.services, r.ns, NameOf(r.o), r.o.clusterName, NewCluster(r.o), r.ns, NameOf(r.o), r.o.clusterName);
      var s2 := SaveInstance(EnsureCluster(OneKey, s0, r.ns, r.o), r.o);
      AddAt(s2, r.ns, r.o, r.ns, NameOf(r.o), r.o.clusterName);
    }
  }

  /** With one cluster key, a successful registration keeps its cluster mates. */
  lemma OneKeyKeepsMates(s: State, r: Request)
    requires r.Register? && Step(OneKey, s, r).response.Success?
    ensures KeepsMates(s, Step(OneKey, s, r).state, r)
  {
    var name, c := NameOf(r.o), r.o.clusterName;
    FindAfterCreate(s, r.ns, r.o, r.savesService, r.ns, name, c);
    var s0 := CreateServiceIfAbsent(s, r.ns, r.o, r.savesService).state;
    var s2 := SaveInstance(EnsureCluster(OneKey, s0, r.ns, r.o), r.o);
    AddAt(s2, r.ns, r.o, r.ns, name, c);
  }

  /**
   A deregistration succeeds exactly when its cluster is known; it then takes out that instance
   and no other, and leaves the record and the lease of the instance behind.
   */
  lemma RemoveExactly(s: State, ns: string, o: Origin, ns': string, name: string, c: string, k: string)
    ensures var out := RemoveInstance(s, ns, o);
            var here := ns' == ns && name == NameOf(o) && c == o.clusterName && k == KeyOf(o);
            && (out.response.Success? <==> FindCluster(s.services, ns, NameOf(o), o.clusterName).Some?)
            && (out.response.Panic? <==> FindService(s.services, ns, NameOf(o)).Some? && !out.response.Success?)
            && FindInstance(out.state.services, ns', name, c, k)
               == (if here then None else FindInstance(s.services, ns', name, c, k))
            && out.state.memory == s.memory && out.state.disk == s.disk && out.state.lease == s.lease
  {
  }

  // ---- The services of the registry ---------------------------------------------------------------

  lemma RemoveKeepsServices(s: State, ns: string, o: Origin, ns': string, name: string)
    ensures FindService(RemoveInstance(s, ns, o).state.services, ns', name).Some? == FindService(s.services, ns', name).Some?
    ensures RemoveInstance(s, ns, o).state.disk == s.disk
  {
  }

  // Storing an instance adds and drops no service.
  lemma StoreKeepsServices(m: Mode, s: State, r: Request, ns: string, name: string)
    requires r.Register? && FindService(s.services, r.ns, NameOf(r.o)).Some?
    ensures FindService(StoreInstanceInfo(m, s, r.ns, r.o, r.now, r.savesInstance).state.services, ns, name).Some?
         == FindService(s.services, ns, name).Some?
  {
    FindAfterPut(s.services, r.ns, NameOf(r.o), r.o.clusterName, NewCluster(r.o), ns, name, "");
    var s2 := SaveInstance(EnsureCluster(m, s, r.ns, r.o), r.o);
    PutKeepsServices(s2, r.ns, r.o, ns, name);
  }

  lemma PutKeepsServices(s: State, ns: string, o: Origin, ns': string, name: string)
    ensures FindService(AddToCluster(s, ns, o).state.services, ns', name).Some? == FindService(s.services, ns', name).Some?
  {
  }

  // ---- As written: a cluster is never found again -------------------------------------------------

  /** The other instances of the cluster survive the registration. */
  ghost predicate KeepsMates(s: State, s': State, r: Request)
    requires r.Register?
  {
    forall k :: k != KeyOf(r.o) ==>
      var was := FindInstance(s.services, r.ns, NameOf(r.o), r.o.clusterName, k);
      was.Some? ==> FindInstance(s'.services, r.ns, NameOf(r.o), r.o.clusterName, k) == was
  }

  /** As written, a successful registration keeps its cluster mates exactly when the look-up hits or there are none. */
  lemma AsWrittenForgetsMates(s: State, r: Request)
    requires r.Register? && Step(AsWritten, s, r).response.Success?
    ensures var name := NameOf(r.o);
            KeepsMates(s, Step(AsWritten, s, r).state, r) <==>
            || FindCluster(s.services, r.ns, name, ParseClusterName(name, r.o.clusterName)).Some?
            || forall k :: k != KeyOf(r.o) ==> FindInstance(s.services, r.ns, name, r.o.clusterName, k).None?
  {
    var name, c := NameOf(r.o), r.o.clusterName;
    FindAfterCreate(s, r.ns, r.o, r.savesService, r.ns, name, c);
    FindAfterCreate(s, r.ns, r.o, r.savesService, r.ns, name, ParseClusterName(name, c));
    var s0 := CreateServiceIfAbsent(s, r.ns, r.o, r.savesService).state;
    FindAfterPut(s0.services, r.ns, name, c, NewCluster(r.o), r.ns, name, c);
    var s2 := SaveInstance(EnsureCluster(AsWritten, s0, r.ns, r.o), r.o);
    AddAt(s2, r.ns, r.o, r.ns, name, c);
    forall k | k != KeyOf(r.o)
      ensures FindInstance(Step(AsWritten, s, r).state.services, r.ns, name, c, k) == FindInstance(s2.services, r.ns, name, c, k) {}
  }

  ghost predicate AtMostOne(s: State) {
    forall ns, name, c :: LonelyAt(s, ns, name, c)
  }

  ghost predicate LonelyAt(s: State, ns: string, name: string, c: string) {
    var cl := FindCluster(s.services, ns, name, c);
    cl.Some? ==> '$' !in c && |cl.value.repository| <= 1 && Uniform(cl.value)
  }

  /**
   As written, when no cluster name contains '$', no cluster ever holds more than one instance
   (so it holds one kind, for want of a second instance).
   */
  lemma {:induction false} AsWrittenKeepsOne(run: seq<Request>)
    requires forall i :: 0 <= i < |run| && run[i].Register? ==> '$' !in run[i].o.clusterName
    ensures AtMostOne(After(AsWritten, run))
  {
    if run != [] {
      var run', r := run[..|run| - 1], run[|run| - 1];
      AsWrittenKeepsOne(run');
      var s := After(AsWritten, run');
      forall ns, name, c ensures LonelyAt(Step(AsWritten, s, r).state, ns, name, c) {
        assert LonelyAt(s, ns, name, c);
        LonelyStep(s, r, ns, name, c);
      }
    }
  }

  lemma LonelyStep(s: State, r: Request, ns: string, name: string, c: string)
    requires AtMostOne(s) && (r.Register? ==> '$' !in r.o.clusterName)
    ensures LonelyAt(Step(AsWritten, s, r).state, ns, name, c)
  {
    assert LonelyAt(s, ns, name, c);
    match r
    case Register(_, _, _, _, _) =>
      FindAfterCreate(s, r.ns, r.o, r.savesService, ns, name, c);
      var created := CreateServiceIfAbsent(s, r.ns, r.o, r.savesService);
      if created.response.Success? {
        var full := ParseClusterName(NameOf(r.o), r.o.clusterName);
        FindAfterCreate(s, r.ns, r.o, r.savesService, r.ns, NameOf(r.o), full);
        assert full[|NameOf(r.o)|] == '$';
        assert LonelyAt(s, r.ns, NameOf(r.o), full);
        LonelyStore(created.state, r, ns, name, c);
      }
    case Deregister(_, _) =>
      var cl := FindCluster(s.services, r.ns, NameOf(r.o), r.o.clusterName);
      if cl.Some? {
        assert LonelyAt(s, r.ns, NameOf(r.o), r.o.clusterName);
        var rest := cl.value.repository - {KeyOf(r.o)};
        assert |rest| <= |cl.value.repository| by { SmallerMap(cl.value.repository, KeyOf(r.o)); }
        FindAfterPut(s.services, r.ns, NameOf(r.o), r.o.clusterName, cl.value.(repository := rest), ns, name, c);
      }
    case Timer(_) =>
  }

  lemma LonelyStore(s: State, r: Request, ns: string, name: string, c: string)
    requires r.Register? && '$' !in r.o.clusterName && FindService(s.services, r.ns, NameOf(r.o)).Some?
    requires FindCluster(s.services, r.ns, NameOf(r.o), ParseClusterName(NameOf(r.o), r.o.clusterName)).None?
    requires LonelyAt(s, ns, name, c)
    ensures LonelyAt(StoreInstanceInfo(AsWritten, s, r.ns, r.o, r.now, r.savesInstance).state, ns, name, c)
  {
    if ns != r.ns || name != NameOf(r.o) || c != r.o.clusterName {
      StoreKeepsElsewhere(AsWritten, s, r, ns, name, c);
    } else {
      StoreHere(AsWritten, s, r);
      JoinedAlone(r.o);
    }
  }

  lemma JoinedAlone(o: Origin)
    ensures |Joined(NewCluster(o), o).repository| == 1 && Uniform(Joined(NewCluster(o), o))
  {
  }

  /** In those states no registration is refused for its kind: with working stores all succeed. */
  lemma AsWrittenNeverRefuses(s: State, r: Request)
    requires AtMostOne(s) && r.Register? && r.savesService && r.savesInstance
    ensures Step(AsWritten, s, r).response.Success?
  {
    var name, c := NameOf(r.o), r.o.clusterName;
    var full := ParseClusterName(name, c);
    assert full[|name|] == '$';
    assert LonelyAt(s, r.ns, name, full);
    FindAfterCreate(s, r.ns, r.o, true, r.ns, name, full);
    var s0 := CreateServiceIfAbsent(s, r.ns, r.o, true).state;
    FindAfterPut(s0.services, r.ns, name, c, NewCluster(r.o), r.ns, name, c);
    AddAt(SaveInstance(EnsureCluster(AsWritten, s0, r.ns, r.o), r.o), r.ns, r.o, r.ns, name, c);
  }

  lemma SmallerMap(m: map<string, Instance>, k: string)
    ensures |m - {k}| <= |m|
  {
  }

  // ---- The object -------------------------------------------------------------------------------

  class ServiceManager {
    const mode: Mode
    var services: Services
    var memoryKv: map<string, Value>
    var diskKv: map<string, Value>
    var lease: Lease.State
    ghost var run: seq<Request>

    ghost function Abs(): State
      reads this
    {
      State(services, memoryKv, diskKv, lease)
    }

    ghost predicate Valid()
      reads this
    {
      Abs() == After(mode, run)
    }

    constructor (mode: Mode)
      ensures Valid() && run == [] && this.mode == mode
    {
      this.mode := mode;
      services, memoryKv, diskKv, lease, run := map[], map[], map[], Lease.INIT, [];
    }

    method CreateService(ns: string, o: Origin, saved: bool) returns (ok: bool)
      modifies this`services, this`diskKv
      ensures var r := CreateServiceIfAbsent(old(Abs()), ns, o, saved);
              Abs() == r.state && ok == r.response.Success? && (!ok ==> r.response.Failure?)
    {
      if ns !in services {
        services := services[ns := map[]];
      }
      var name := NameOf(o);
      if name in services[ns] { return true; }
      if !saved { return false; }
      var keys := [name, ParseServiceClusterList(name)];
      var text, _ := BuildJoin([], ",");
      diskKv := diskKv[keys[0] := ServiceRecord(o.serviceName, o.group)];
      diskKv := diskKv[keys[1] := ClusterList(text)];
      services := services[ns := services[ns][name := Service(name, map[])]];
      ok := true;
    }

    method StoreInstance(ns: string, o: Origin, now: int, saved: bool) returns (resp: Response)
      requires FindService(services, ns, NameOf(o)).Some?
      modifies this`services, this`memoryKv, this`diskKv, this`lease
      ensures var r := StoreInstanceInfo(mode, old(Abs()), ns, o, now, saved);
              Abs() == r.state && resp == r.response
    {
      var name, key := NameOf(o), KeyOf(o);
      var lookup := LookupKey(mode, name, o.clusterName);
      var clusters := services[ns][name].clusters;
      var kind;
      if lookup in clusters {
        kind := clusters[lookup].kind;
      } else {
        kind := KindOf(o);
        services := PutCluster(services, ns, name, o.clusterName, Cluster(ParseClusterName(name, o.clusterName), kind, map[]));
      }
      if kind != Unknown && kind != KindOf(o) { return Failure; }
      if !saved { return Failure; }
      if o.ephemeral {
        memoryKv := memoryKv[key := InstanceRecord(o)];
      } else {
        diskKv := diskKv[key := InstanceRecord(o)];
      }
      clusters := services[ns][name].clusters;
      if o.clusterName !in clusters { return Panic; }
      var cluster := clusters[o.clusterName];
      services := PutCluster(services, ns, name, o.clusterName,
                             cluster.(repository := cluster.repository[key := Instance(key, o)]));
      if o.check == HeartBeat {
        lease := Lease.Step(lease, Lease.Grant(key, now));
      }
      resp := Success;
    }

    method Add(ns: string, o: Origin, now: int, savesService: bool, savesInstance: bool) returns (resp: Response)
      requires Valid()
      modifies this
      ensures Valid() && run == old(run) + [Register(ns, o, now, savesService, savesInstance)]
      ensures resp == AddInstance(mode, old(Abs()), ns, o, now, savesService, savesInstance).response
    {
      var ok := CreateService(ns, o, savesService);
      resp := Failure;
      if ok {
        resp := StoreInstance(ns, o, now, savesInstance);
      }
      run := run + [Register(ns, o, now, savesService, savesInstance)];
      assert run[..|run| - 1] == old(run);
    }

    /** The lease side: a renewal, or a timer check. */
    method Tick(e: Lease.Event)
      requires Valid() && (e.Renew? || e.Check?)
      modifies this
      ensures Valid() && run == old(run) + [Timer(e)]
    {
      lease := Lease.Step(lease, e);
      run := run + [Timer(e)];
      assert run[..|run| - 1] == old(run);
    }

    method Remove(ns: string, o: Origin) returns (resp: Response)
      requires Valid()
      modifies this
      ensures Valid() && run == old(run) + [Deregister(ns, o)]
      ensures resp == RemoveInstance(old(Abs()), ns, o).response
    {
      run := run + [Deregister(ns, o)];
      assert run[..|run| - 1] == old(run);
      var name, key := NameOf(o), KeyOf(o);
      if ns !in services { return Failure; }
      if name !in services[ns] { return Failure; }
      var clusters := services[ns][name].clusters;
      if o.clusterName !in clusters { return Panic; }
      var cluster := clusters[o.clusterName];
      services := PutCluster(services, ns, name, o.clusterName, cluster.(repository := cluster.repository - {key}));
      resp := Success;
    }
  }
}
