/**
 The watch index with the repair of both calls of NewSetWithValues: the set holds the values of the
 slice. The index then agrees with the plain history of watch requests.
 */
module ConfigWatchRepaired {
  import opened Common
  import opened ConfigWatch

  /** What merge makes of itemMap. */
  function Merged(items: Items, more: map<string, seq<string>>): Items {
    map g | g in items.Keys + more.Keys :: FilesOf(items, more, g)
  }

  function Added(repo: Repository, r: Request): Repository {
    var w := Find(repo, r.namespace, r.id);
    var w' := if w.Some? then w.value.(itemMap := Merged(w.value.itemMap, r.items))
              else Watcher(r.id, FirstItems(r.items), r.sink);
    repo[r.namespace := (if r.namespace in repo then repo[r.namespace] else map[])[r.id := w']]
  }

  function After(history: seq<Request>): Repository {
    if history == [] then map[] else Added(After(history[..|history| - 1]), history[|history| - 1])
  }

  /** For every history and every client the index agrees with the history. */
  lemma {:induction false} IndexMatchesHistory(history: seq<Request>, ns: string, id: string)
    ensures Agrees(history, ns, id, Find(After(history), ns, id))
  {
    if history != [] {
      var h, r := history[..|history| - 1], history[|history| - 1];
      assert history == h + [r];
      IndexMatchesHistory(h, ns, id);
      AgreesStep(h, r, ns, id, After(h));
    }
  }

  lemma AgreesStep(h: seq<Request>, r: Request, ns: string, id: string, repo: Repository)
    requires Agrees(h, ns, id, Find(repo, ns, id))
    ensures Agrees(h + [r], ns, id, Find(Added(repo, r), ns, id))
  {
    var h', w, w' := h + [r], Find(repo, ns, id), Find(Added(repo, r), ns, id);
    assert r in h' && forall q :: q in h' <==> q in h || q == r;
    forall i ensures FirstAt(h', ns, id, i) <==> if i == |h| then From(r, ns, id) && w.None? else FirstAt(h, ns, id, i) {
      FirstExtend(h, r, ns, id, i);
    }
    forall g, f
      ensures Named(h', ns, id, g) <==> Named(h, ns, id, g) || (From(r, ns, id) && g in r.items)
      ensures Listed(h', ns, id, g, f) <==> Listed(h, ns, id, g, f) || (From(r, ns, id) && g in r.items && f in r.items[g])
    {
      ListedExtend(h, r, ns, id, g, f);
    }
    if !From(r, ns, id) {
      assert w' == w;
    } else if w.None? {
      NothingBefore(h, ns, id);
    } else {
      assert w'.value.itemMap == Merged(w.value.itemMap, r.items);
    }
  }

  /** The watch sets depend neither on the order of the requests nor on repetitions. */
  lemma OrderDoesNotMatter(h1: seq<Request>, h2: seq<Request>, ns: string, id: string)
    requires forall r :: r in h1 <==> r in h2
    ensures var w1, w2 := Find(After(h1), ns, id), Find(After(h2), ns, id);
            w1.Some? == w2.Some? && (w1.Some? ==> w1.value.itemMap == w2.value.itemMap)
  {
    IndexMatchesHistory(h1, ns, id);
    IndexMatchesHistory(h2, ns, id);
    var w1, w2 := Find(After(h1), ns, id), Find(After(h2), ns, id);
    if w1.Some? && w2.Some? {
      forall g, f
        ensures g in w1.value.itemMap <==> g in w2.value.itemMap
        ensures g in w1.value.itemMap && f in w1.value.itemMap[g] <==> g in w2.value.itemMap && f in w2.value.itemMap[g]
      {
        SameWishes(h1, h2, ns, id, g, f);
      }
      SameItems(w1.value.itemMap, w2.value.itemMap);
    }
  }

  lemma SameWishes(h1: seq<Request>, h2: seq<Request>, ns: string, id: string, g: string, f: string)
    requires forall r :: r in h1 <==> r in h2
    ensures Named(h1, ns, id, g) <==> Named(h2, ns, id, g)
    ensures Listed(h1, ns, id, g, f) <==> Listed(h2, ns, id, g, f)
  {
  }

  lemma SameItems(a: Items, b: Items)
    requires forall g :: g in a <==> g in b
    requires forall g, f :: g in a && f in a[g] <==> g in b && f in b[g]
    ensures a == b
  {
    forall g | g in a ensures a[g] == b[g] {
      assert forall f :: f in a[g] <==> f in b[g];
    }
  }

  // The connection does depend on the order: merge keeps the first one.
  lemma SinkDependsOnOrder()
    ensures var a, b := Request("n", "c", map[], 1), Request("n", "c", map[], 2);
            && Find(After([a, b]), "n", "c").Some? && Find(After([a, b]), "n", "c").value.sink == 1
            && Find(After([b, a]), "n", "c").Some? && Find(After([b, a]), "n", "c").value.sink == 2
  {
    var a, b := Request("n", "c", map[], 1), Request("n", "c", map[], 2);
    IndexMatchesHistory([a, b], "n", "c");
    IndexMatchesHistory([b, a], "n", "c");
    assert [a, b][0] == a && [b, a][0] == b;
    assert FirstAt([a, b], "n", "c", 0) && FirstAt([b, a], "n", "c", 0);
    assert a in [a, b] && b in [b, a] && From(a, "n", "c") && From(b, "n", "c");
  }

  class WatcherManagerRepaired {
    var watcherRepository: Repository
    ghost var history: seq<Request>

    ghost predicate Valid()
      reads this
    {
      watcherRepository == After(history)
    }

    constructor ()
      ensures Valid() && history == []
    {
      watcherRepository, history := map[], [];
    }

    /** The watch is recorded, but the result is false whatever happens. */
    method AddWatcher(r: Request) returns (ok: bool)
      requires Valid()
      modifies this
      ensures Valid() && history == old(history) + [r] && !ok
    {
      if r.namespace !in watcherRepository {
        watcherRepository := watcherRepository[r.namespace := map[]];
      }
      var ids := watcherRepository[r.namespace];
      var w;
      if r.id in ids {
        w := ids[r.id];
        var merged := MergeRepaired(w.itemMap, r.items);
        w := w.(itemMap := merged);
      } else {
        var itemMap := NewItems(r.items);
        w := Watcher(r.id, itemMap, r.sink);
      }
      watcherRepository := watcherRepository[r.namespace := ids[r.id := w]];
      history := history + [r];
      assert history[..|history| - 1] == old(history);
      ok := false;
    }

    /** listenConfig: every request is answered with an error, though its watch is in force. */
    method ListenConfig(r: Request) returns (code: int)
      requires Valid()
      modifies this
      ensures Valid() && history == old(history) + [r] && code == 500
    {
      var ok := AddWatcher(r);
      code := if !ok then 500 else 200;
    }

    /** selectWatcher: the watchers of the group, of all clients or of the given ones. */
    method SelectWatcher(clientIds: seq<string>, ns: string, group: string) returns (ws: seq<Watcher>)
      requires Valid()
      ensures OneEach(ws)
      ensures forall w :: w in ws <==>
                Find(watcherRepository, ns, w.id) == Some(w) && group in w.itemMap && (clientIds == [] || w.id in clientIds)
    {
      ws := [];
      if ns !in watcherRepository { return; }
      var ids := watcherRepository[ns];
      forall id | id in ids ensures ids[id].id == id { IndexMatchesHistory(history, ns, id); }
      var todo := ids.Keys;
      while todo != {}
        invariant todo <= ids.Keys && OneEach(ws)
        invariant forall w :: w in ws <==>
          w.id in ids && ids[w.id] == w && w.id !in todo && group in w.itemMap && (clientIds == [] || w.id in clientIds)
        decreases todo
      {
        var id :| id in todo;
        todo := todo - {id};
        var w := ids[id];
        if group in w.itemMap {
          if clientIds == [] {
            ws := ws + [w];
          } else {
            if w.id in clientIds {
              ws := ws + [w];
            }
          }
        }
      }
    }

    /**
     OnEvent and onConfigChange: a change is pushed to a client, once, exactly when an earlier
     request of that client listed the file under the group; over its first connection.
     */
    method OnConfigChange(ns: string, group: string, file: string) returns (pushes: seq<Push>)
      requires Valid()
      ensures OncePerClient(pushes)
      ensures forall id :: (exists p :: p in pushes && p.id == id) <==> Listed(history, ns, id, group, file)
      ensures forall p, i :: p in pushes && FirstAt(history, ns, p.id, i) ==> p.sink == history[i].sink
    {
      var ws := SelectWatcher([], ns, group);
      pushes := Notify(ws, group, file);
      forall id ensures (exists p :: p in pushes && p.id == id) <==> Listed(history, ns, id, group, file) {
        PushedIffListed(history, watcherRepository, ns, group, file, ws, pushes, id);
      }
      forall p, i | p in pushes && FirstAt(history, ns, p.id, i) ensures p.sink == history[i].sink {
        IndexMatchesHistory(history, ns, p.id);
        var j :| 0 <= j < |ws| && p == Push(ws[j].id, ws[j].sink) && Wants(ws[j], group, file);
        assert ws[j] in ws;
      }
    }
  }

  lemma PushedIffListed(history: seq<Request>, repo: Repository, ns: string, group: string, file: string,
                        ws: seq<Watcher>, pushes: seq<Push>, id: string)
    requires repo == After(history)
    requires forall w :: w in ws <==> Find(repo, ns, w.id) == Some(w) && group in w.itemMap
    requires forall p :: p in pushes <==>
               exists j :: 0 <= j < |ws| && p == Push(ws[j].id, ws[j].sink) && Wants(ws[j], group, file)
    ensures (exists p :: p in pushes && p.id == id) <==> Listed(history, ns, id, group, file)
  {
    IndexMatchesHistory(history, ns, id);
    var w := Find(repo, ns, id);
    if Listed(history, ns, id, group, file) {
      assert group in w.value.itemMap && file in w.value.itemMap[group];
      assert w.value in ws;
      var j :| 0 <= j < |ws| && ws[j] == w.value;
      assert Push(ws[j].id, ws[j].sink) in pushes;
    }
    if p :| p in pushes && p.id == id {
      var j :| 0 <= j < |ws| && p == Push(ws[j].id, ws[j].sink) && Wants(ws[j], group, file);
      assert ws[j] in ws;
    }
  }

  /** watcher.merge */
  method MergeRepaired(items: Items, more: map<string, seq<string>>) returns (r: Items)
    ensures r == Merged(items, more)
  {
    r := items;
    var todo := more.Keys;
    ghost var target := Merged(items, more);
    while todo != {}
      invariant todo <= more.Keys && r.Keys == items.Keys + (more.Keys - todo)
      invariant forall g :: g in r ==> r[g] == if g in todo then items[g] else target[g]
      decreases todo
    {
      var group :| group in todo;
      var files := AddFiles(if group in r then r[group] else {}, more[group]);
      assert files == target[group];
      todo := todo - {group};
      r := r[group := files];
    }
    assert r.Keys == target.Keys;
  }
}
