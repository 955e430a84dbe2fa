/**
 The watch index of server/config/config_core.go as written. NewSetWithValues takes its values as
 variadic arguments, so a slice passed to it becomes one element of the set; a slice cannot be
 hashed, and the call panics. That is what happens to the client ids of selectWatcher and to the
 files of a group that is new to a known client.
 */
module ConfigWatch {
  import opened Common

  /** pojo.ConfigWatchRequest with the connection it came over. */
  datatype Request = Request(namespace: string, id: string, items: map<string, seq<string>>, sink: nat)

  /** itemMap: the file names watched, by group. */
  type Items = map<string, set<string>>

  datatype Watcher = Watcher(id: string, itemMap: Items, sink: nat)

  type Repository = map<string, map<string, Watcher>>

  datatype Push = Push(id: string, sink: nat)

  function Elements(files: seq<string>): set<string> {
    set f | f in files
  }

  /** The item map of a client's first request. */
  function FirstItems(items: map<string, seq<string>>): Items {
    map g | g in items :: Elements(items[g])
  }

  function FilesOf(items: Items, more: map<string, seq<string>>, g: string): set<string> {
    (if g in items then items[g] else {}) + (if g in more then Elements(more[g]) else {})
  }

  function Find(repo: Repository, ns: string, id: string): Option<Watcher> {
    if ns in repo && id in repo[ns] then Some(repo[ns][id]) else None
  }

  // ---- The plain history ------------------------------------------------------------------------

  ghost predicate From(r: Request, ns: string, id: string) {
    r.namespace == ns && r.id == id
  }

  /** Some request of that client named the group. */
  ghost predicate Named(history: seq<Request>, ns: string, id: string, group: string) {
    exists r :: r in history && From(r, ns, id) && group in r.items
  }

  /** Some request of that client listed the file under the group. */
  ghost predicate Listed(history: seq<Request>, ns: string, id: string, group: string, file: string) {
    exists r :: r in history && From(r, ns, id) && group in r.items && file in r.items[group]
  }

  /** The client's first request is at i. */
  ghost predicate FirstAt(history: seq<Request>, ns: string, id: string, i: int) {
    0 <= i < |history| && From(history[i], ns, id) && forall j :: 0 <= j < i ==> !From(history[j], ns, id)
  }

  /** The watcher of one client says what the history says. */
  ghost predicate Agrees(history: seq<Request>, ns: string, id: string, w: Option<Watcher>) {
    && (w.Some? <==> exists r :: r in history && From(r, ns, id))
    && (w.Some? ==>
          && w.value.id == id
          && (forall g :: g in w.value.itemMap <==> Named(history, ns, id, g))
          && (forall g, f :: g in w.value.itemMap && f in w.value.itemMap[g] <==> Listed(history, ns, id, g, f))
          && (forall i :: FirstAt(history, ns, id, i) ==> w.value.sink == history[i].sink))
  }

  lemma ListedExtend(h: seq<Request>, r: Request, ns: string, id: string, g: string, f: string)
    ensures Named(h + [r], ns, id, g) <==> Named(h, ns, id, g) || (From(r, ns, id) && g in r.items)
    ensures Listed(h + [r], ns, id, g, f) <==> Listed(h, ns, id, g, f) || (From(r, ns, id) && g in r.items && f in r.items[g])
  {
  }

  lemma FirstExtend(h: seq<Request>, r: Request, ns: string, id: string, i: int)
    ensures FirstAt(h + [r], ns, id, i) <==>
            if i == |h| then From(r, ns, id) && !(exists q :: q in h && From(q, ns, id)) else FirstAt(h, ns, id, i)
  {
    assert forall j :: 0 <= j < |h| ==> (h + [r])[j] == h[j];
  }

  lemma NothingBefore(h: seq<Request>, ns: string, id: string)
    requires !(exists q :: q in h && From(q, ns, id))
    ensures forall g :: !Named(h, ns, id, g)
    ensures forall g, f :: !Listed(h, ns, id, g, f)
    ensures forall i :: !FirstAt(h, ns, id, i)
  {
  }

  // ---- As written ---------------------------------------------------------------------------------

  /** A request with the order in which ranging over its groups takes them. */
  datatype Turn = Turn(r: Request, order: seq<string>)

  ghost predicate Ranges(t: Turn) {
    NoRepeats(t.order) && forall g :: g in t.order <==> g in t.r.items
  }

  datatype Outcome<T> = Outcome(value: T, panicked: bool)

  /** merge: groups the client has are merged in turn, a new one panics. */
  function MergeInOrder(items: Items, more: map<string, seq<string>>, order: seq<string>): Outcome<Items> {
    if order == [] then Outcome(items, false)
    else
      var g := order[0];
      if g !in items then Outcome(items, true)
      else MergeInOrder(items[g := FilesOf(items, more, g)], more, order[1..])
  }

  function AddTurn(repo: Repository, t: Turn): Outcome<Repository> {
    var ns, id := t.r.namespace, t.r.id;
    var w := Find(repo, ns, id);
    var merged := if w.Some? then MergeInOrder(w.value.itemMap, t.r.items, t.order) else Outcome(map[], false);
    var w' := if w.Some? then w.value.(itemMap := merged.value) else Watcher(id, FirstItems(t.r.items), t.r.sink);
    Outcome(repo[ns := (if ns in repo then repo[ns] else map[])[id := w']], merged.panicked)
  }

  function AfterTurns(turns: seq<Turn>): Repository {
    if turns == [] then map[] else AddTurn(AfterTurns(turns[..|turns| - 1]), turns[|turns| - 1]).value
  }

  function History(turns: seq<Turn>): seq<Request> {
    if turns == [] then [] else History(turns[..|turns| - 1]) + [turns[|turns| - 1].r]
  }

  ghost predicate AllRange(turns: seq<Turn>) {
    forall i :: 0 <= i < |turns| ==> Ranges(turns[i])
  }

  /** Merging panics exactly on a new group; it adds no group, drops no file and adds only listed ones. */
  lemma {:induction false} MergeEffect(items: Items, more: map<string, seq<string>>, order: seq<string>)
    ensures var m := MergeInOrder(items, more, order);
            && m.value.Keys == items.Keys
            && (m.panicked <==> exists g :: g in order && g !in items)
            && (forall g :: g in items ==> items[g] <= m.value[g] <= FilesOf(items, more, g))
            && (!m.panicked ==> forall g :: g in order ==> m.value[g] == FilesOf(items, more, g))
  {
    if order != [] && order[0] in items {
      var g := order[0];
      var items' := items[g := FilesOf(items, more, g)];
      MergeEffect(items', more, order[1..]);
      assert forall x :: x in order <==> x == g || x in order[1..];
      assert items'.Keys == items.Keys;
      forall x | x in items ensures FilesOf(items', more, x) == FilesOf(items, more, x) {}
    }
  }

  /** How many groups merge gets through: up to the first new one. */
  function Familiar(groups: set<string>, order: seq<string>): (n: nat)
    ensures n <= |order| && (n < |order| ==> order[n] !in groups)
    ensures forall i :: 0 <= i < n ==> order[i] in groups
  {
    if order == [] || order[0] !in groups then 0
    else
      assert forall i :: 0 <= i < |order[1..]| ==> order[1..][i] == order[i + 1];
      1 + Familiar(groups, order[1..])
  }

  /** The groups before the first new one get their files; that one stops everything, and the others stay as they are. */
  lemma {:induction false} MergeExactly(items: Items, more: map<string, seq<string>>, order: seq<string>, g: string)
    requires g in items
    ensures var m, n := MergeInOrder(items, more, order), Familiar(items.Keys, order);
            && (m.panicked <==> n < |order|)
            && g in m.value && m.value[g] == if g in order[..n] then FilesOf(items, more, g) else items[g]
  {
    if order != [] && order[0] in items {
      var first, rest := order[0], order[1..];
      var items' := items[first := FilesOf(items, more, first)];
      assert items'.Keys == items.Keys;
      MergeExactly(items', more, rest, g);
      var n := Familiar(items.Keys, rest);
      assert order[..n + 1] == [first] + rest[..n];
      assert FilesOf(items', more, g) == FilesOf(items, more, g);
    }
  }

  /** The request names no group that the client's first request did not name. */
  ghost predicate Fits(r: Request, first: Request) {
    forall g :: g in r.items ==> g in first.items
  }

  /**
   What the index holds for one client: the groups and the connection of its first request, no
   file that was not listed, and every file listed by a request that fits the first one.
   */
  ghost predicate Holds(h: seq<Request>, ns: string, id: string, w: Option<Watcher>) {
    && (w.Some? <==> exists r :: r in h && From(r, ns, id))
    && (w.Some? ==>
          && w.value.id == id
          && (forall i :: FirstAt(h, ns, id, i) ==> w.value.sink == h[i].sink && w.value.itemMap.Keys == h[i].items.Keys)
          && (forall g, f :: g in w.value.itemMap && f in w.value.itemMap[g] ==> Listed(h, ns, id, g, f))
          && (forall r, g, f :: FittingList(h, ns, id, w.value.itemMap.Keys, r, g, f) ==> f in w.value.itemMap[g]))
  }

  /** r is a request of the client, within the given groups, that lists f under g. */
  ghost predicate FittingList(h: seq<Request>, ns: string, id: string, groups: set<string>, r: Request, g: string, f: string) {
    r in h && From(r, ns, id) && r.items.Keys <= groups && g in r.items && f in r.items[g]
  }

  lemma {:induction false} IndexAsWritten(turns: seq<Turn>, ns: string, id: string)
    requires AllRange(turns)
    ensures Holds(History(turns), ns, id, Find(AfterTurns(turns), ns, id))
  {
    if turns != [] {
      var before, t := turns[..|turns| - 1], turns[|turns| - 1];
      IndexAsWritten(before, ns, id);
      HoldsStep(History(before), t, ns, id, AfterTurns(before));
    }
  }

  lemma HoldsStep(h: seq<Request>, t: Turn, ns: string, id: string, repo: Repository)
    requires Ranges(t) && Holds(h, ns, id, Find(repo, ns, id))
    ensures Holds(h + [t.r], ns, id, Find(AddTurn(repo, t).value, ns, id))
  {
    var w, w' := Find(repo, ns, id), Find(AddTurn(repo, t).value, ns, id);
    if !From(t.r, ns, id) {
      assert w' == w;
      OtherHolds(h, t.r, ns, id, w);
    } else if w.None? {
      FirstHolds(h, t.r, ns, id);
    } else {
      MergeHolds(h, t, ns, id, w.value);
    }
  }

  lemma OtherHolds(h: seq<Request>, r: Request, ns: string, id: string, w: Option<Watcher>)
    requires Holds(h, ns, id, w) && !From(r, ns, id)
    ensures Holds(h + [r], ns, id, w)
  {
    Extended(h, r, ns, id);
    if w.Some? {
      forall q, g, f | FittingList(h + [r], ns, id, w.value.itemMap.Keys, q, g, f) ensures f in w.value.itemMap[g] {
        assert FittingList(h, ns, id, w.value.itemMap.Keys, q, g, f);
      }
    }
  }

  lemma FirstHolds(h: seq<Request>, r: Request, ns: string, id: string)
    requires Holds(h, ns, id, None) && From(r, ns, id)
    ensures Holds(h + [r], ns, id, Some(Watcher(id, FirstItems(r.items), r.sink)))
  {
    Extended(h, r, ns, id);
    NothingBefore(h, ns, id);
    assert r in h + [r] && FirstItems(r.items).Keys == r.items.Keys;
  }

  lemma Extended(h: seq<Request>, r: Request, ns: string, id: string)
    ensures var h' := h + [r];
            && (forall q :: q in h' <==> q in h || q == r)
            && (forall i :: FirstAt(h', ns, id, i) <==>
                  if i == |h| then From(r, ns, id) && !(exists q :: q in h && From(q, ns, id)) else FirstAt(h, ns, id, i))
            && (forall g, f :: Listed(h', ns, id, g, f) <==>
                  Listed(h, ns, id, g, f) || (From(r, ns, id) && g in r.items && f in r.items[g]))
  {
    forall i { FirstExtend(h, r, ns, id, i); }
    forall g, f { ListedExtend(h, r, ns, id, g, f); }
  }

  lemma MergeHolds(h: seq<Request>, t: Turn, ns: string, id: string, w: Watcher)
    requires Ranges(t) && Holds(h, ns, id, Some(w)) && From(t.r, ns, id)
    ensures Holds(h + [t.r], ns, id, Some(w.(itemMap := MergeInOrder(w.itemMap, t.r.items, t.order).value)))
  {
    var m := MergeInOrder(w.itemMap, t.r.items, t.order);
    var h' := h + [t.r];
    Extended(h, t.r, ns, id);
    MergeEffect(w.itemMap, t.r.items, t.order);
    assert t.r in h';
    forall r, g, f | FittingList(h', ns, id, m.value.Keys, r, g, f) ensures f in m.value[g] {
      if r in h {
        assert FittingList(h, ns, id, w.itemMap.Keys, r, g, f);
      } else {
        assert g in t.order && !m.panicked;
      }
    }
  }

  /** The client is known and the request names a group that the client's first request did not. */
  ghost predicate Overreaches(h: seq<Request>, r: Request) {
    exists i :: FirstAt(h, r.namespace, r.id, i) && !Fits(r, h[i])
  }

  /** As written a request panics exactly when its client is known and it names a group the first request did not. */
  lemma AddPanicsExactly(turns: seq<Turn>, t: Turn)
    requires AllRange(turns) && Ranges(t)
    ensures AddTurn(AfterTurns(turns), t).panicked <==> Overreaches(History(turns), t.r)
  {
    var h, ns, id := History(turns), t.r.namespace, t.r.id;
    var w := Find(AfterTurns(turns), ns, id);
    IndexAsWritten(turns, ns, id);
    if w.Some? {
      MergeEffect(w.value.itemMap, t.r.items, t.order);
      FirstExists(h, ns, id);
      var i :| FirstAt(h, ns, id, i);
      forall j | FirstAt(h, ns, id, j) ensures j == i {}
    }
  }

  lemma {:induction false} FirstExists(h: seq<Request>, ns: string, id: string)
    requires exists r :: r in h && From(r, ns, id)
    ensures exists i :: FirstAt(h, ns, id, i)
  {
    var n := |h| - 1;
    if r :| r in h[..n] && From(r, ns, id) {
      FirstExists(h[..n], ns, id);
      var i :| FirstAt(h[..n], ns, id, i);
      assert forall j :: 0 <= j < n ==> h[..n][j] == h[j];
      assert FirstAt(h, ns, id, i);
    } else {
      assert forall j :: 0 <= j < n ==> h[j] in h[..n];
      assert h[n] == h[|h| - 1] && FirstAt(h, ns, id, n);
    }
  }

  /**
   As written the index agrees with the history of a client if and only if every request of the
   client fits its first one.
   */
  lemma IndexAgreesExactly(turns: seq<Turn>, ns: string, id: string)
    requires AllRange(turns)
    ensures var h := History(turns);
            Agrees(h, ns, id, Find(AfterTurns(turns), ns, id)) <==>
            forall r, i :: r in h && From(r, ns, id) && FirstAt(h, ns, id, i) ==> Fits(r, h[i])
  {
    var h, w := History(turns), Find(AfterTurns(turns), ns, id);
    IndexAsWritten(turns, ns, id);
    if w.Some? {
      FirstExists(h, ns, id);
      var i :| FirstAt(h, ns, id, i);
      forall j | FirstAt(h, ns, id, j) ensures j == i {}
      if forall r :: r in h && From(r, ns, id) ==> Fits(r, h[i]) {
        AgreesWhenFitting(h, ns, id, w, i);
      } else {
        var r :| r in h && From(r, ns, id) && !Fits(r, h[i]);
        var g :| g in r.items && g !in h[i].items;
        assert Named(h, ns, id, g) && g !in w.value.itemMap;
      }
    }
  }

  lemma AgreesWhenFitting(h: seq<Request>, ns: string, id: string, w: Option<Watcher>, i: int)
    requires w.Some? && Holds(h, ns, id, w) && FirstAt(h, ns, id, i)
    requires forall r :: r in h && From(r, ns, id) ==> Fits(r, h[i])
    ensures Agrees(h, ns, id, w)
  {
    assert h[i] in h;
    forall g ensures g in w.value.itemMap <==> Named(h, ns, id, g) {
      if Named(h, ns, id, g) {
        var r :| r in h && From(r, ns, id) && g in r.items;
        assert Fits(r, h[i]);
      }
    }
    forall g, f ensures g in w.value.itemMap && f in w.value.itemMap[g] <==> Listed(h, ns, id, g, f) {
      if Listed(h, ns, id, g, f) {
        var r :| r in h && From(r, ns, id) && g in r.items && f in r.items[g];
        assert Fits(r, h[i]);
        assert FittingList(h, ns, id, w.value.itemMap.Keys, r, g, f);
      }
    }
  }

  /** A namespace is known exactly when some request named it. */
  lemma {:induction false} NamespaceKnown(turns: seq<Turn>, ns: string)
    ensures ns in AfterTurns(turns) <==> exists r :: r in History(turns) && r.namespace == ns
  {
    if turns != [] {
      var before, t := turns[..|turns| - 1], turns[|turns| - 1];
      NamespaceKnown(before, ns);
      assert forall q :: q in History(turns) <==> q in History(before) || q == t.r;
    }
  }

  // A watch that is asked for twice, the second time with a further group: the second request
  // panics and leaves the further group out, and the change of the first file reaches nobody.
  lemma WatchFails()
    ensures var r1, r2 := Request("n", "c", map["g" := ["f"]], 1), Request("n", "c", map["h" := ["f"]], 2);
            var t1, t2 := Turn(r1, ["g"]), Turn(r2, ["h"]);
            && Ranges(t1) && Ranges(t2)
            && !AddTurn(map[], t1).panicked && AddTurn(AfterTurns([t1]), t2).panicked
            && AfterTurns([t1, t2]) == AfterTurns([t1]) == map["n" := map["c" := Watcher("c", map["g" := {"f"}], 1)]]
            && Listed(History([t1]), "n", "c", "g", "f")
  {
    var r1, r2 := Request("n", "c", map["g" := ["f"]], 1), Request("n", "c", map["h" := ["f"]], 2);
    var t1, t2 := Turn(r1, ["g"]), Turn(r2, ["h"]);
    assert [t1][..0] == [] && [t1, t2][..1] == [t1];
    assert AfterTurns([]) == map[];
    assert Elements(["f"]) == {"f"};
    assert FirstItems(r1.items) == map["g" := {"f"}];
    var w := Watcher("c", map["g" := {"f"}], 1);
    var repo: Repository := map["n" := map["c" := w]];
    assert AddTurn(map[], t1) == Outcome(repo, false);
    assert AfterTurns([t1]) == repo;
    assert Find(repo, "n", "c") == Some(w);
    assert MergeInOrder(w.itemMap, r2.items, ["h"]) == Outcome(w.itemMap, true) by { assert "h" != "g"; }
    assert repo["n"]["c" := w] == repo["n"] && repo["n" := repo["n"]] == repo;
    assert History([t1]) == [r1] && r1 in History([t1]) && From(r1, "n", "c");
    assert "f" in r1.items["g"];
  }

  lemma OneMoreTurn(turns: seq<Turn>, t: Turn)
    requires AllRange(turns) && Ranges(t)
    ensures AllRange(turns + [t]) && AfterTurns(turns + [t]) == AddTurn(AfterTurns(turns), t).value
  {
    assert (turns + [t])[..|turns|] == turns;
  }

  /** The watcher a turn leaves in the namespace with these watchers. */
  ghost predicate Makes(ids: map<string, Watcher>, t: Turn, w: Watcher, panicked: bool) {
    if t.r.id in ids then
      && MergeInOrder(ids[t.r.id].itemMap, t.r.items, t.order) == Outcome(w.itemMap, panicked)
      && w == ids[t.r.id].(itemMap := w.itemMap)
    else
      w == Watcher(t.r.id, FirstItems(t.r.items), t.r.sink) && !panicked
  }

  lemma TurnOf(repo: Repository, t: Turn, ids: map<string, Watcher>, w: Watcher, panicked: bool)
    requires ids == if t.r.namespace in repo then repo[t.r.namespace] else map[]
    requires Makes(ids, t, w, panicked)
    ensures AddTurn(repo, t) == Outcome(repo[t.r.namespace := ids[t.r.id := w]], panicked)
  {
  }

  // ---- The object -----------------------------------------------------------------------------------

  class WatcherManager {
    var watcherRepository: Repository
    ghost var turns: seq<Turn>

    ghost predicate Valid()
      reads this
    {
      AllRange(turns) && watcherRepository == AfterTurns(turns)
    }

    constructor ()
      ensures Valid() && turns == []
    {
      watcherRepository, turns := map[], [];
    }

    /** A panic leaves what was merged before it; otherwise the result is false whatever happens. */
    method AddWatcher(r: Request) returns (panicked: bool, ok: bool)
      requires Valid()
      modifies this
      ensures Valid() && |turns| == old(|turns|) + 1 && turns[..old(|turns|)] == old(turns) && turns[old(|turns|)].r == r
      ensures panicked <==> Overreaches(old(History(turns)), r)
      ensures !ok
    {
      if r.namespace !in watcherRepository {
        watcherRepository := watcherRepository[r.namespace := map[]];
      }
      var ids := watcherRepository[r.namespace];
      var w;
      ghost var order;
      w, panicked, order := Watched(ids, r);
      ok := false;
      watcherRepository := watcherRepository[r.namespace := ids[r.id := w]];
      ghost var t := Turn(r, order);
      assert watcherRepository == old(watcherRepository)[r.namespace := ids[r.id := w]];
      TurnOf(old(watcherRepository), t, ids, w, panicked);
      AddPanicsExactly(turns, t);
      OneMoreTurn(turns, t);
      turns := turns + [t];
    }

    /** listenConfig: None stands for a panic; otherwise every request is answered with an error. */
    method ListenConfig(r: Request) returns (code: Option<int>)
      requires Valid()
      modifies this
      ensures Valid() && |turns| == old(|turns|) + 1 && turns[..old(|turns|)] == old(turns) && turns[old(|turns|)].r == r
      ensures code == None || code == Some(500)
      ensures code == None <==> Overreaches(old(History(turns)), r)
    {
      var panicked, ok := AddWatcher(r);
      code := if panicked then None else if !ok then Some(500) else Some(200);
    }

    /** selectWatcher: in a known namespace the set of client ids panics before any watcher is looked at. */
    method SelectWatcher(clientIds: seq<string>, ns: string, group: string) returns (panicked: bool, ws: seq<Watcher>)
      requires Valid()
      ensures ws == [] && (panicked <==> exists r :: r in History(turns) && r.namespace == ns)
    {
      NamespaceKnown(turns, ns);
      ws := [];
      if ns !in watcherRepository { return false, ws; }
      panicked := true;
    }

    /** OnEvent: no change of a file is ever pushed to anybody. */
    method OnConfigChange(ns: string, group: string, file: string) returns (panicked: bool, pushes: seq<Push>)
      requires Valid()
      ensures pushes == [] && (panicked <==> exists r :: r in History(turns) && r.namespace == ns)
    {
      var ws;
      panicked, ws := SelectWatcher([], ns, group);
      pushes := Notify(ws, group, file);
    }
  }

  /** No client is pushed to twice. */
  ghost predicate OncePerClient(ps: seq<Push>) {
    forall i, j :: 0 <= i < j < |ps| ==> ps[i].id != ps[j].id
  }

  ghost predicate OneEach(ws: seq<Watcher>) {
    forall i, j :: 0 <= i < j < |ws| ==> ws[i].id != ws[j].id
  }

  predicate Wants(w: Watcher, group: string, file: string) {
    group in w.itemMap && file in w.itemMap[group]
  }

  /** onConfigChange of each watcher. */
  method Notify(ws: seq<Watcher>, group: string, file: string) returns (pushes: seq<Push>)
    ensures |pushes| <= |ws| && (OneEach(ws) ==> OncePerClient(pushes))
    ensures forall p :: p in pushes <==> exists j :: 0 <= j < |ws| && p == Push(ws[j].id, ws[j].sink) && Wants(ws[j], group, file)
  {
    pushes := [];
    for i := 0 to |ws|
      invariant |pushes| <= i && (OneEach(ws) ==> OncePerClient(pushes))
      invariant forall p :: p in pushes <==> exists j :: 0 <= j < i && p == Push(ws[j].id, ws[j].sink) && Wants(ws[j], group, file)
    {
      if Wants(ws[i], group, file) {
        forall k | OneEach(ws) && 0 <= k < |pushes| ensures pushes[k].id != ws[i].id { assert pushes[k] in pushes; }
        pushes := pushes + [Push(ws[i].id, ws[i].sink)];
      }
    }
  }

  // The part of AddWatcher under the namespace's lock.
  method Watched(ids: map<string, Watcher>, r: Request) returns (w: Watcher, panicked: bool, ghost order: seq<string>)
    ensures Ranges(Turn(r, order)) && Makes(ids, Turn(r, order), w, panicked)
  {
    if r.id in ids {
      var itemMap;
      itemMap, panicked, order := Merge(ids[r.id].itemMap, r.items);
      w := ids[r.id].(itemMap := itemMap);
    } else {
      var itemMap := NewItems(r.items);
      w, panicked := Watcher(r.id, itemMap, r.sink), false;
      order := Enumeration(r.items.Keys);
    }
  }

  /** watcher.merge */
  method Merge(items: Items, more: map<string, seq<string>>) returns (r: Items, panicked: bool, ghost order: seq<string>)
    ensures MergeInOrder(items, more, order) == Outcome(r, panicked)
    ensures NoRepeats(order) && forall g :: g in order <==> g in more
    ensures r.Keys == items.Keys && (panicked <==> exists g :: g in more && g !in items)
    ensures forall g :: g in items ==> items[g] <= r[g] <= FilesOf(items, more, g)
    ensures !panicked ==> forall g :: g in items ==> r[g] == FilesOf(items, more, g)
  {
    r, panicked := items, false;
    var todo := more.Keys;
    order := [];
    while todo != {} && !panicked
      invariant todo <= more.Keys && NoRepeats(order) && forall g :: g in order <==> g in more.Keys - todo
      invariant MergeInOrder(items, more, order) == Outcome(r, panicked)
      decreases todo
    {
      var group :| group in todo;
      todo := todo - {group};
      MergeOneMore(items, more, order, group);
      if group in r {
        var files := AddFiles(r[group], more[group]);
        r := r[group := files];
      } else {
        panicked := true;
      }
      assert forall i :: 0 <= i < |order| ==> order[i] in order;
      order := order + [group];
    }
    ghost var rest := Enumeration(todo);
    MergeStops(items, more, order, rest);
    assert forall i :: 0 <= i < |order| ==> order[i] in order;
    assert forall i :: 0 <= i < |rest| ==> rest[i] in rest;
    order := order + rest;
    MergeEffect(items, more, order);
  }

  lemma {:induction false} MergeOneMore(items: Items, more: map<string, seq<string>>, order: seq<string>, g: string)
    ensures var m := MergeInOrder(items, more, order);
            MergeInOrder(items, more, order + [g]) ==
            if m.panicked then m
            else if g !in m.value then Outcome(m.value, true)
            else Outcome(m.value[g := FilesOf(m.value, more, g)], false)
  {
    if order == [] {
      assert ([] + [g])[1..] == [];
    } else if order[0] in items {
      assert (order + [g])[1..] == order[1..] + [g];
      MergeOneMore(items[order[0] := FilesOf(items, more, order[0])], more, order[1..], g);
    }
  }

  lemma {:induction false} MergeStops(items: Items, more: map<string, seq<string>>, order: seq<string>, rest: seq<string>)
    requires MergeInOrder(items, more, order).panicked || rest == []
    ensures MergeInOrder(items, more, order + rest) == MergeInOrder(items, more, order)
  {
    if rest == [] {
      assert order + rest == order;
    } else if order[0] in items {
      assert (order + rest)[1..] == order[1..] + rest;
      MergeStops(items[order[0] := FilesOf(items, more, order[0])], more, order[1..], rest);
    }
  }

  lemma Enumeration(groups: set<string>) returns (order: seq<string>)
    ensures NoRepeats(order) && forall g :: g in order <==> g in groups
    ensures groups == {} ==> order == []
  {
    order := [];
    var todo := groups;
    while todo != {}
      invariant todo <= groups && NoRepeats(order) && forall g :: g in order <==> g in groups - todo
      invariant groups == {} ==> order == []
    {
      var g :| g in todo;
      assert g !in order && forall i :: 0 <= i < |order| ==> order[i] in order;
      todo, order := todo - {g}, order + [g];
    }
  }

  // The item map of a client's first request.
  method NewItems(more: map<string, seq<string>>) returns (r: Items)
    ensures r == FirstItems(more)
  {
    r := map[];
    var todo := more.Keys;
    while todo != {}
      invariant todo <= more.Keys && r.Keys == more.Keys - todo
      invariant forall g :: g in r ==> r[g] == Elements(more[g])
      decreases todo
    {
      var group :| group in todo;
      var files := AddFiles({}, more[group]);
      todo := todo - {group};
      r := r[group := files];
    }
  }

  method AddFiles(files: set<string>, filenames: seq<string>) returns (r: set<string>)
    ensures r == files + Elements(filenames)
  {
    r := files;
    for i := 0 to |filenames|
      invariant r == files + Elements(filenames[..i])
    {
      assert Elements(filenames[..i + 1]) == Elements(filenames[..i]) + {filenames[i]};
      r := r + {filenames[i]};
    }
    assert filenames[..|filenames|] == filenames;
  }
}
