/** memoryKVStorage of server/storage/kv.go: a map and the key index its write hook maintains. */
module MemoryStore {
  import opened Common
  import opened KeyOrder
  import opened SearchTree
  import KeyIndex

  type Value = seq<int>

  datatype Op = Put(key: Key, value: Value) | Drop(key: Key)

  // ---- What a history of operations leaves ---------------------------------------------

  function Live(log: seq<Op>): map<Key, Value> {
    if log == [] then map[]
    else
      Apply(Live(log[..|log| - 1]), log[|log| - 1])
  }

  function Apply(m: map<Key, Value>, op: Op): map<Key, Value> {
    if op.Put? then m[op.key := op.value] else m - {op.key}
  }

  function Written(log: seq<Op>): set<Key> {
    set i | 0 <= i < |log| && log[i].Put? :: log[i].key
  }

  function Puts(log: seq<Op>): nat {
    if log == [] then 0 else Puts(log[..|log| - 1]) + if log[|log| - 1].Put? then 1 else 0
  }

  /** The last operation on k is `Put(k, v)`, at position i. */
  ghost predicate LastIsPut(log: seq<Op>, i: int, k: Key, v: Value) {
    0 <= i < |log| && log[i] == Put(k, v) && forall j :: i < j < |log| ==> log[j].key != k
  }

  ghost predicate LastWrote(log: seq<Op>, k: Key, v: Value) {
    exists i :: LastIsPut(log, i, k, v)
  }

  /** A key reads as v exactly when the last operation on it wrote v. */
  lemma {:induction false} ReadsLastWrite(log: seq<Op>, k: Key, v: Value)
    ensures k in Live(log) && Live(log)[k] == v <==> LastWrote(log, k, v)
  {
    if log != [] {
      var n := |log| - 1;
      var log' := log[..n];
      ReadsLastWrite(log', k, v);
      if log[n].key == k {
        assert log[n] == Put(k, v) ==> LastIsPut(log, n, k, v);
      } else {
        forall i ensures LastIsPut(log, i, k, v) <==> LastIsPut(log', i, k, v) {}
      }
    }
  }

  /** Some later operation writes the key again. */
  ghost predicate PutAfter(log: seq<Op>, i: nat, k: Key) {
    exists j :: i < j < |log| && log[j].Put? && log[j].key == k
  }

  /** Every dropped key that was ever written is written again later. */
  ghost predicate DropsUndone(log: seq<Op>) {
    forall i :: 0 <= i < |log| && log[i].Drop? && log[i].key in Written(log) ==> PutAfter(log, i, log[i].key)
  }

  lemma {:induction false} LiveIsWritten(log: seq<Op>, k: Key)
    ensures k in Live(log) ==> k in Written(log)
  {
    if k in Live(log) {
      ReadsLastWrite(log, k, Live(log)[k]);
    }
  }

  /** Keys written at least once but not live have an un-undone drop, and conversely. */
  lemma {:induction false} LostKey(log: seq<Op>, k: Key)
    requires k in Written(log)
    ensures k !in Live(log) <==> exists i :: 0 <= i < |log| && log[i] == Drop(k) && !PutAfter(log, i, k)
  {
    var n := |log| - 1;
    var log' := log[..n];
    if log[n].key == k {
      if log[n].Drop? {
        assert log[n] == Drop(k) && !PutAfter(log, n, k);
      } else {
        forall i | 0 <= i < |log| && log[i] == Drop(k) ensures PutAfter(log, i, k) { assert log[n].Put?; }
      }
    } else {
      assert k in Written(log') by {
        var i :| 0 <= i < |log| && log[i].Put? && log[i].key == k;
        assert log'[i] == log[i];
      }
      LostKey(log', k);
      forall i | 0 <= i < n ensures PutAfter(log, i, k) <==> PutAfter(log', i, k) {
        if j :| i < j < |log| && log[j].Put? && log[j].key == k { assert log'[j] == log[j]; }
        if j :| i < j < |log'| && log'[j].Put? && log'[j].key == k { assert log[j] == log'[j]; }
      }
    }
  }

  /**
   The index holds every live key; it holds no other key if and only if every drop of a
   written key is followed by another write of it.
   */
  lemma IndexAgrees(log: seq<Op>)
    ensures Live(log).Keys <= Written(log)
    ensures Live(log).Keys == Written(log) <==> DropsUndone(log)
  {
    forall k | k in Live(log) ensures k in Written(log) { LiveIsWritten(log, k); }
    if DropsUndone(log) {
      forall k | k in Written(log) ensures k in Live(log) { LostKey(log, k); }
    } else {
      var i :| 0 <= i < |log| && log[i].Drop? && log[i].key in Written(log) && !PutAfter(log, i, log[i].key);
      LostKey(log, log[i].key);
    }
  }

  ghost predicate NoKeyPutTwice(log: seq<Op>) {
    forall i, j :: 0 <= i < j < |log| && log[i].Put? && log[j].Put? ==> log[i].key != log[j].key
  }

  lemma {:induction false} PutsCountKeys(log: seq<Op>)
    ensures |Written(log)| <= Puts(log)
    ensures |Written(log)| == Puts(log) <==> NoKeyPutTwice(log)
  {
    if log == [] {
      assert Written(log) == {};
    } else {
      var n := |log| - 1;
      var log' := log[..n];
      PutsCountKeys(log');
      PrefixNoTwice(log);
      assert log == log' + [log[n]];
      AppendOp(log', log[n]);
      if log[n].Put? {
        CountPut(log', log[n]);
        OneMore(Written(log'), log[n].key);
      }
    }
  }

  lemma OneMore(s: set<Key>, k: Key)
    ensures |s + {k}| == |s| + if k in s then 0 else 1
  {
    if k in s { assert s + {k} == s; }
  }

  lemma CountPut(log: seq<Op>, op: Op)
    requires op.Put?
    ensures Written(log + [op]) == Written(log) + {op.key}
    ensures op.key in Written(log) ==> !NoKeyPutTwice(log + [op])
    ensures op.key !in Written(log) && NoKeyPutTwice(log) ==> NoKeyPutTwice(log + [op])
  {
    AppendOp(log, op);
    var log' := log + [op];
    assert forall i :: 0 <= i < |log| ==> log'[i] == log[i];
    assert log'[|log|] == op;
    forall i | 0 <= i < |log| && log[i].Put? ensures log[i].key in Written(log) {}
    if op.key in Written(log) {
      var i :| 0 <= i < |log| && log[i].Put? && log[i].key == op.key;
      assert log'[i].key == log'[|log|].key;
    }
  }

  lemma PrefixNoTwice(log: seq<Op>)
    requires log != []
    ensures NoKeyPutTwice(log) ==> NoKeyPutTwice(log[..|log| - 1])
    ensures log[|log| - 1].Drop? && NoKeyPutTwice(log[..|log| - 1]) ==> NoKeyPutTwice(log)
  {
  }

  /** Size equals the number of live keys exactly when no key was written twice and none was lost. */
  lemma SizeExactly(log: seq<Op>)
    ensures Puts(log) >= |Live(log)|
    ensures Puts(log) == |Live(log)| <==> NoKeyPutTwice(log) && DropsUndone(log)
  {
    IndexAgrees(log);
    PutsCountKeys(log);
    SubsetSize(Live(log).Keys, Written(log));
  }

  // A key that is written and dropped stays in the index, and in its size.
  lemma IndexKeepsDropped(k: Key, v: Value)
    ensures var log := [Put(k, v), Drop(k)];
            Written(log) == {k} && Live(log) == map[] && Puts(log) == 1 && !DropsUndone(log)
  {
    var log := [Put(k, v), Drop(k)];
    AppendOp([], Put(k, v));
    AppendOp([Put(k, v)], Drop(k));
    assert [] + [Put(k, v)] == [Put(k, v)] && [Put(k, v)] + [Drop(k)] == log;
    assert log[1] == Drop(k) && !PutAfter(log, 1, k);
  }

  // A key that is written twice counts twice.
  lemma SizeCountsWrites(k: Key, v: Value)
    ensures var log := [Put(k, v), Put(k, v)];
            Live(log) == map[k := v] && |Live(log)| == 1 && Puts(log) == 2
  {
    var log := [Put(k, v), Put(k, v)];
    AppendOp([], Put(k, v));
    AppendOp([Put(k, v)], Put(k, v));
    assert [] + [Put(k, v)] == [Put(k, v)] && [Put(k, v)] + [Put(k, v)] == log;
    assert Live(log).Keys == {k};
  }

  // ---- Size when deletes fire their hook --------------------------------------------------

  /** Writes of a key that was live already. */
  function Rewrites(log: seq<Op>): nat {
    if log == [] then 0
    else
      var before, op := log[..|log| - 1], log[|log| - 1];
      Rewrites(before) + if op.Put? && op.key in Live(before) then 1 else 0
  }

  /** Drops of a key that was not live. */
  function VoidDrops(log: seq<Op>): nat {
    if log == [] then 0
    else
      var before, op := log[..|log| - 1], log[|log| - 1];
      VoidDrops(before) + if op.Drop? && op.key !in Live(before) then 1 else 0
  }

  /** The counter is off by the rewrites less the void drops. */
  lemma {:induction false} HookedSize(log: seq<Op>)
    ensures Puts(log) - Drops(log) == |Live(log)| + Rewrites(log) - VoidDrops(log)
  {
    if log != [] {
      var before, op := log[..|log| - 1], log[|log| - 1];
      HookedSize(before);
      LiveCount(Live(before), op);
    }
  }

  lemma LiveCount(m: map<Key, Value>, op: Op)
    ensures |Apply(m, op)| - |m|
         == if op.Put? && op.key !in m then 1 else if op.Drop? && op.key in m then -1 else 0
  {
    var k, ks, ks' := op.key, m.Keys, Apply(m, op).Keys;
    assert |m| == |ks| && |Apply(m, op)| == |ks'|;
    if op.Put? {
      assert ks' == ks + {k};
      if k in m { assert ks' == ks; }
    } else {
      assert ks' == ks - {k};
    }
  }

  // ---- The store -----------------------------------------------------------------------

  function BatchLog(keys: seq<Key>, values: seq<Value>, n: nat): seq<Op>
    requires n <= |keys| && n <= |values|
  {
    if n == 0 then [] else BatchLog(keys, values, n - 1) + [Put(keys[n - 1], values[n - 1])]
  }

  function DropLog(keys: seq<Key>, n: nat): seq<Op>
    requires n <= |keys|
  {
    if n == 0 then [] else DropLog(keys, n - 1) + [Drop(keys[n - 1])]
  }

  lemma LastWroteAppend(log: seq<Op>, op: Op, k: Key, v: Value)
    ensures LastWrote(log + [op], k, v) <==> if op.key == k then op == Put(k, v) else LastWrote(log, k, v)
  {
    ReadsLastWrite(log, k, v);
    ReadsLastWrite(log + [op], k, v);
    AppendOp(log, op);
  }

  /** keys[i] is the last of the first n keys that equals k. */
  ghost predicate LastOf(keys: seq<Key>, n: nat, k: Key, i: int)
    requires n <= |keys|
  {
    0 <= i < n && keys[i] == k && k !in keys[i + 1..n]
  }

  /** After a batch a key reads as the value at its last place in the batch, and as before when it has none. */
  lemma {:induction false} BatchReads(log: seq<Op>, keys: seq<Key>, values: seq<Value>, n: nat, k: Key, v: Value)
    requires n <= |keys| && n <= |values|
    ensures LastWrote(log + BatchLog(keys, values, n), k, v) <==>
            if k in keys[..n] then exists i :: LastOf(keys, n, k, i) && values[i] == v else LastWrote(log, k, v)
  {
    if n == 0 {
      assert log + BatchLog(keys, values, 0) == log;
    } else {
      var m := n - 1;
      BatchReads(log, keys, values, m, k, v);
      assert log + BatchLog(keys, values, n) == (log + BatchLog(keys, values, m)) + [Put(keys[m], values[m])];
      LastWroteAppend(log + BatchLog(keys, values, m), Put(keys[m], values[m]), k, v);
      assert keys[..n] == keys[..m] + [keys[m]];
      forall i ensures LastOf(keys, n, k, i) <==> if i == m then keys[m] == k else LastOf(keys, m, k, i) && keys[m] != k {
        if 0 <= i < m { assert keys[i + 1..n] == keys[i + 1..m] + [keys[m]]; }
      }
    }
  }

  /** After a batch of deletes none of its keys reads, and every other one reads as before. */
  lemma {:induction false} DropReads(log: seq<Op>, keys: seq<Key>, n: nat, k: Key, v: Value)
    requires n <= |keys|
    ensures LastWrote(log + DropLog(keys, n), k, v) <==> k !in keys[..n] && LastWrote(log, k, v)
  {
    if n == 0 {
      assert log + DropLog(keys, 0) == log;
    } else {
      var m := n - 1;
      DropReads(log, keys, m, k, v);
      assert log + DropLog(keys, n) == (log + DropLog(keys, m)) + [Drop(keys[m])];
      LastWroteAppend(log + DropLog(keys, m), Drop(keys[m]), k, v);
      assert keys[..n] == keys[..m] + [keys[m]];
    }
  }

  function Drops(log: seq<Op>): int {
    |log| - Puts(log)
  }

  /** The keys the index holds after a history: every key ever written, unless deletes fire their hook. */
  function IndexedKeys(deletesFireHook: bool, log: seq<Op>): set<Key> {
    if deletesFireHook then Live(log).Keys else Written(log)
  }

  function IndexedSize(deletesFireHook: bool, log: seq<Op>): int {
    if deletesFireHook then Puts(log) - Drops(log) else Puts(log)
  }

  lemma IndexedStep(fire: bool, log: seq<Op>, op: Op)
    ensures IndexedKeys(fire, log + [op])
         == if op.Put? then IndexedKeys(fire, log) + {op.key}
            else if fire then IndexedKeys(fire, log) - {op.key} else IndexedKeys(fire, log)
    ensures IndexedSize(fire, log + [op])
         == if op.Put? then IndexedSize(fire, log) + 1
            else if fire then IndexedSize(fire, log) - 1 else IndexedSize(fire, log)
    ensures Live(log + [op]) == Apply(Live(log), op)
  {
    AppendOp(log, op);
  }

  lemma BatchLogNext(log: seq<Op>, now: seq<Op>, keys: seq<Key>, values: seq<Value>, i: nat)
    requires i < |keys| && i < |values| && now == log + BatchLog(keys, values, i)
    ensures now + [Put(keys[i], values[i])] == log + BatchLog(keys, values, i + 1)
  {
  }

  lemma DropLogNext(log: seq<Op>, now: seq<Op>, keys: seq<Key>, i: nat)
    requires i < |keys| && now == log + DropLog(keys, i)
    ensures now + [Drop(keys[i])] == log + DropLog(keys, i + 1)
  {
  }

  lemma BatchReadsAll(log: seq<Op>, keys: seq<Key>, values: seq<Value>, n: nat)
    requires n <= |keys| && n <= |values|
    ensures var log' := log + BatchLog(keys, values, n);
            && (forall i :: 0 <= i < n && keys[i] !in keys[i + 1..n] ==> LastWrote(log', keys[i], values[i]))
            && (forall k, v :: k !in keys[..n] ==> (LastWrote(log', k, v) <==> LastWrote(log, k, v)))
  {
    forall i | 0 <= i < n && keys[i] !in keys[i + 1..n] ensures LastWrote(log + BatchLog(keys, values, n), keys[i], values[i]) {
      BatchReads(log, keys, values, n, keys[i], values[i]);
      assert LastOf(keys, n, keys[i], i) && keys[..n][i] == keys[i];
    }
    forall k, v | k !in keys[..n]
      ensures LastWrote(log + BatchLog(keys, values, n), k, v) <==> LastWrote(log, k, v)
    {
      BatchReads(log, keys, values, n, k, v);
    }
  }

  lemma DropReadsAll(log: seq<Op>, keys: seq<Key>)
    ensures forall k, v :: LastWrote(log + DropLog(keys, |keys|), k, v) <==> k !in keys && LastWrote(log, k, v)
  {
    assert keys[..|keys|] == keys;
    forall k, v ensures LastWrote(log + DropLog(keys, |keys|), k, v) <==> k !in keys && LastWrote(log, k, v) {
      DropReads(log, keys, |keys|, k, v);
    }
  }

  class MemoryKVStorage {
    var reference: map<Key, Value>
    const sortKeys: KeyIndex.KeyTree
    /**
     false: as written, deletes never run the hook init registers for them.
     true: deletes run that hook, with the repaired tree delete.
     */
    const deletesFireHook: bool
    ghost var log: seq<Op>

    ghost var Repr: set<object>

    ghost predicate Valid()
      reads this, Repr
      ensures Valid() ==> this in Repr
    {
      && this in Repr && sortKeys in Repr && (forall n :: n in Cells(sortKeys.tree) ==> n in Repr)
      && sortKeys.Valid() && reference == Live(log)
      && Keys(sortKeys.tree) == IndexedKeys(deletesFireHook, log) && sortKeys.size == IndexedSize(deletesFireHook, log)
    }

    constructor (fire: bool)
      ensures Valid() && log == [] && deletesFireHook == fire && fresh(Repr)
    {
      reference, log, deletesFireHook := map[], [], fire;
      sortKeys := new KeyIndex.KeyTree();
      new;
      Repr := {this, sortKeys};
    }

    // One turn of Write: the BeforeWrite hook inserts into the index, then the map is set.
    method Write(key: Key, value: Value)
      requires Valid()
      modifies Repr
      ensures Valid() && log == old(log) + [Put(key, value)] && fresh(Repr - old(Repr))
    {
      sortKeys.Insert(key);
      Repr := Repr + Cells(sortKeys.tree);
      reference := reference[key := value];
      log := log + [Put(key, value)];
      IndexedStep(deletesFireHook, old(log), Put(key, value));
    }

    // values[i] panics when there are fewer values than keys; the writes before it stay.
    method WriteBatch(keys: seq<Key>, values: seq<Value>) returns (panicked: bool)
      requires Valid()
      modifies Repr
      ensures Valid() && fresh(Repr - old(Repr))
      ensures panicked <==> |values| < |keys|
      ensures log == old(log) + BatchLog(keys, values, if panicked then |values| else |keys|)
      ensures var n := if panicked then |values| else |keys|;
              && (forall i :: 0 <= i < n && keys[i] !in keys[i + 1..n] ==> LastWrote(log, keys[i], values[i]))
              && (forall k, v :: k !in keys[..n] ==> (LastWrote(log, k, v) <==> LastWrote(old(log), k, v)))
    {
      panicked := |values| < |keys|;
      var reached := if panicked then |values| else |keys|;
      WriteFirst(keys, values, reached);
      BatchReadsAll(old(log), keys, values, reached);
    }

    // The first n turns of the loop of WriteBatch.
    method WriteFirst(keys: seq<Key>, values: seq<Value>, n: nat)
      requires Valid() && n <= |keys| && n <= |values|
      modifies Repr
      ensures Valid() && fresh(Repr - old(Repr)) && log == old(log) + BatchLog(keys, values, n)
    {
      for i := 0 to n
        invariant Valid() && fresh(Repr - old(Repr))
        invariant log == old(log) + BatchLog(keys, values, i)
      {
        BatchLogNext(old(log), log, keys, values, i);
        Write(keys[i], values[i]);
      }
    }

    method Delete(key: Key)
      requires Valid()
      modifies Repr
      ensures Valid() && log == old(log) + [Drop(key)] && fresh(Repr - old(Repr))
    {
      if deletesFireHook {
        sortKeys.DeleteRepaired(key);
      }
      reference := reference - {key};
      log := log + [Drop(key)];
      IndexedStep(deletesFireHook, old(log), Drop(key));
    }

    method DeleteBatch(keys: seq<Key>)
      requires Valid()
      modifies Repr
      ensures Valid() && log == old(log) + DropLog(keys, |keys|) && fresh(Repr - old(Repr))
      ensures forall k, v :: LastWrote(log, k, v) <==> k !in keys && LastWrote(old(log), k, v)
    {
      for i := 0 to |keys|
        invariant Valid() && fresh(Repr - old(Repr))
        invariant log == old(log) + DropLog(keys, i)
      {
        DropLogNext(old(log), log, keys, i);
        Delete(keys[i]);
      }
      DropReadsAll(old(log), keys);
    }

    /** nil for a key that is not stored, and the last value written otherwise. */
    method Read(key: Key) returns (r: Option<Value>)
      requires Valid()
      ensures forall v :: r == Some(v) <==> LastWrote(log, key, v)
    {
      forall v ensures key in Live(log) && Live(log)[key] == v <==> LastWrote(log, key, v) {
        ReadsLastWrite(log, key, v);
      }
      r := if key in reference then Some(reference[key]) else None;
    }

    /** Size is the index's counter, not the number of stored keys. */
    method Size() returns (n: int)
      requires Valid()
      ensures !deletesFireHook ==> n >= |reference| && (n == |reference| <==> NoKeyPutTwice(log) && DropsUndone(log))
      ensures deletesFireHook ==> n == |reference| + Rewrites(log) - VoidDrops(log)
    {
      SizeExactly(log);
      HookedSize(log);
      n := sortKeys.size;
    }
  }

  lemma AppendOp(log: seq<Op>, op: Op)
    ensures Live(log + [op]) == Apply(Live(log), op)
    ensures Written(log + [op]) == Written(log) + if op.Put? then {op.key} else {}
    ensures Puts(log + [op]) == Puts(log) + if op.Put? then 1 else 0
  {
  }
}
