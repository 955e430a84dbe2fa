/**
 The key index of server/storage/kv.go as a value: a binary tree whose forks carry the
 heap cell they are stored in. The functions give the exact effect of the recursive
 methods of keyTree, including the runs that end in a Go panic.
 */
module SearchTree {
  import opened KeyOrder

  datatype Tree<C> =
    | Empty
    | Fork(left: Tree<C>, cell: C, key: Key, right: Tree<C>)

  ghost function Keys<C>(t: Tree<C>): set<Key> {
    match t
    case Empty => {}
    case Fork(l, _, k, r) => Keys(l) + {k} + Keys(r)
  }

  ghost function Cells<C>(t: Tree<C>): set<C> {
    match t
    case Empty => {}
    case Fork(l, c, _, r) => Cells(l) + {c} + Cells(r)
  }

  /** No cell occurs twice, so the cells form a tree and not a graph. */
  ghost predicate Distinct<C>(t: Tree<C>) {
    match t
    case Empty => true
    case Fork(l, c, _, r) =>
      c !in Cells(l) && c !in Cells(r) && Cells(l) !! Cells(r) && Distinct(l) && Distinct(r)
  }

  ghost predicate Ordered<C>(t: Tree<C>) {
    match t
    case Empty => true
    case Fork(l, _, k, r) => Ordered(l) && Ordered(r) && AllBelow(Keys(l), k) && AllAbove(k, Keys(r))
  }

  predicate IsLeaf<C>(t: Tree<C>) {
    t.Fork? && t.left.Empty? && t.right.Empty?
  }

  /** The subtree at key `v` along the search path, Empty when `v` is not found. */
  function At<C>(t: Tree<C>, v: Key): (s: Tree<C>)
    ensures s.Fork? ==> s.key == v
  {
    if t.Empty? || v == t.key then t
    else if Less(v, t.key) then At(t.left, v)
    else At(t.right, v)
  }

  // Searching decides membership in an ordered tree, and finds v on one side only.
  lemma {:induction false} SearchFinds<C>(t: Tree<C>, v: Key)
    requires Ordered(t)
    ensures At(t, v).Fork? <==> v in Keys(t)
    ensures Ordered(At(t, v))
  {
    if t.Fork? {
      SearchSide(t, v);
      SearchFinds(t.left, v);
      SearchFinds(t.right, v);
    }
  }

  lemma SearchSide<C>(t: Tree<C>, v: Key)
    requires t.Fork? && Ordered(t)
    ensures v == t.key ==> v !in Keys(t.left) && v !in Keys(t.right)
    ensures Less(v, t.key) ==> v !in Keys(t.right)
    ensures v != t.key && !Less(v, t.key) ==> Less(t.key, v) && v !in Keys(t.left)
  {
    LessTrichotomy(v, t.key);
    if v == t.key || Less(v, t.key) { AboveWeaken(t.key, Keys(t.right), v); }
    if v == t.key || !Less(v, t.key) { BelowWeaken(Keys(t.left), t.key, v); }
  }

  // ---- Insert -------------------------------------------------------------------------

  function Insert<C>(t: Tree<C>, v: Key, c: C): Tree<C> {
    if t.Empty? then Fork(Empty, c, v, Empty)
    else if Less(v, t.key) then t.(left := Insert(t.left, v, c))
    else if Less(t.key, v) then t.(right := Insert(t.right, v, c))
    else t
  }

  /** Insert adds exactly the given key, keeps the order, and is the identity on a present key. */
  lemma {:induction false} InsertAddsKey<C>(t: Tree<C>, v: Key, c: C)
    requires Ordered(t)
    ensures Ordered(Insert(t, v, c))
    ensures Keys(Insert(t, v, c)) == Keys(t) + {v}
    ensures v in Keys(t) <==> Insert(t, v, c) == t
    ensures v !in Keys(t) ==> At(Insert(t, v, c), v) == Fork(Empty, c, v, Empty)
  {
    if t.Fork? {
      SearchSide(t, v);
      InsertAddsKey(t.left, v, c);
      InsertAddsKey(t.right, v, c);
      LessTrichotomy(v, t.key);
    }
  }

  /** Insert links at most one new cell and shares none. */
  lemma {:induction false} InsertCells<C>(t: Tree<C>, v: Key, c: C)
    ensures Cells(Insert(t, v, c)) == if At(t, v).Fork? then Cells(t) else Cells(t) + {c}
    ensures At(t, v).Fork? ==> Insert(t, v, c) == t
    ensures Distinct(t) && (At(t, v).Fork? || c !in Cells(t)) ==> Distinct(Insert(t, v, c))
  {
    if t.Fork? {
      LessTrichotomy(v, t.key);
      InsertCells(t.left, v, c);
      InsertCells(t.right, v, c);
    }
  }

  // ---- Delete, with the repairs -------------------------------------------------------

  /** The leftmost fork. */
  function Leftmost<C>(t: Tree<C>): (m: Tree<C>)
    requires t.Fork?
    ensures m.Fork? && m.left.Empty?
  {
    if t.left.Empty? then t else Leftmost(t.left)
  }

  lemma {:induction false} LeftmostIsLeast<C>(t: Tree<C>)
    requires t.Fork? && Ordered(t)
    ensures Leftmost(t).key in Keys(t)
    ensures AllAbove(Leftmost(t).key, Keys(t) - {Leftmost(t).key})
  {
    if t.left.Fork? {
      LeftmostIsLeast(t.left);
      AboveWeaken(t.key, Keys(t.right), Leftmost(t).key);
    }
  }

  function Remove<C>(t: Tree<C>, v: Key): Tree<C> {
    if t.Empty? then Empty
    else if Less(v, t.key) then t.(left := Remove(t.left, v))
    else if Less(t.key, v) then t.(right := Remove(t.right, v))
    else if t.left.Fork? && t.right.Fork? then
      var m := Leftmost(t.right).key;
      t.(key := m, right := Remove(t.right, m))
    else if t.left.Empty? then t.right
    else t.left
  }

  lemma {:induction false} RemoveKey<C>(t: Tree<C>, v: Key)
    requires Ordered(t)
    ensures Ordered(Remove(t, v))
    ensures Keys(Remove(t, v)) == Keys(t) - {v}
  {
    if t.Fork? {
      SearchSide(t, v);
      LessTrichotomy(v, t.key);
      if Less(v, t.key) {
        RemoveKey(t.left, v);
      } else if Less(t.key, v) {
        RemoveKey(t.right, v);
      } else if t.left.Fork? && t.right.Fork? {
        var m := Leftmost(t.right).key;
        LeftmostIsLeast(t.right);
        RemoveKey(t.right, m);
        BelowWeaken(Keys(t.left), t.key, m);
      }
    }
  }

  /** Removing a key that was just inserted restores the tree, node by node. */
  lemma {:induction false} RemoveUndoesInsert<C>(t: Tree<C>, v: Key, c: C)
    requires Ordered(t) && v !in Keys(t)
    ensures Remove(Insert(t, v, c), v) == t
  {
    LessTrichotomy(v, v);
    if t.Fork? {
      LessTrichotomy(v, t.key);
      RemoveUndoesInsert(t.left, v, c);
      RemoveUndoesInsert(t.right, v, c);
    }
  }

  lemma {:induction false} RemoveCells<C>(t: Tree<C>, v: Key)
    requires Distinct(t)
    ensures Distinct(Remove(t, v)) && Cells(Remove(t, v)) <= Cells(t)
  {
    if t.Fork? {
      RemoveCells(t.left, v);
      RemoveCells(t.right, v);
      if t.right.Fork? { RemoveCells(t.right, Leftmost(t.right).key); }
    }
  }

  /** The repaired delete unlinks exactly one cell when the key is present, none otherwise. */
  lemma {:induction false} RemoveCellCount<C>(t: Tree<C>, v: Key)
    requires Distinct(t) && Ordered(t)
    ensures |Cells(Remove(t, v))| == |Cells(t)| - (if v in Keys(t) then 1 else 0)
  {
    if t.Fork? {
      SearchSide(t, v);
      LessTrichotomy(v, t.key);
      RemoveCells(t, v);
      CountCells(t);
      CountCells(Remove(t, v));
      if Less(v, t.key) {
        RemoveCellCount(t.left, v);
      } else if Less(t.key, v) {
        RemoveCellCount(t.right, v);
      } else if t.left.Fork? && t.right.Fork? {
        LeftmostIsLeast(t.right);
        RemoveCellCount(t.right, Leftmost(t.right).key);
      }
    }
  }

  lemma CountCells<C>(t: Tree<C>)
    requires Distinct(t)
    ensures |Cells(t)| == if t.Empty? then 0 else |Cells(t.left)| + 1 + |Cells(t.right)|
  {
  }

  // ---- Delete, as written -------------------------------------------------------------

  /** How a call ends: normally or in a panic; `tree` is what the call leaves behind. */
  datatype Outcome<C> = Returned(tree: Tree<C>) | Panicked(tree: Tree<C>)

  /** findMinNode as written: nil (here Empty) when the leftmost fork has a right child. */
  function FoundMin<C>(t: Tree<C>): (m: Tree<C>)
    ensures t.Fork? ==> m == if IsLeaf(Leftmost(t)) then Leftmost(t) else Empty
  {
    if t.Empty? || IsLeaf(t) then t else FoundMin(t.left)
  }

  /**
   deleteVal as written. `Returned(s)`: the caller links s in place of t. `Panicked(s)`: the
   links on the way down are untouched, so s is what hangs below t's old link.
   */
  function DeleteVal<C>(t: Tree<C>, v: Key): (o: Outcome<C>) {
    if t.Empty? then Returned(Empty)
    else if Less(v, t.key) then
      var o := DeleteVal(t.left, v);
      // root.left.parent is a nil dereference when the left subtree came back empty
      if o.Panicked? || o.tree.Empty? then Panicked(t.(left := o.tree)) else Returned(t.(left := o.tree))
    else if Less(t.key, v) then
      var o := DeleteVal(t.right, v);
      if o.Panicked? || o.tree.Empty? then Panicked(t.(right := o.tree)) else Returned(t.(right := o.tree))
    else if t.left.Fork? && t.right.Fork? then
      var m := FoundMin(t.right);
      if m.Empty? then Panicked(t)
      else
        var o := DeleteVal(t.right, m.key);
        if o.Panicked? then Panicked(t.(key := m.key, right := o.tree))
        else Returned(t.(key := m.key, right := o.tree))
    else if t.left.Empty? then Returned(t.right)
    else Returned(Cleared(t))
  }

  /** A fork whose links were set to nil. */
  function Cleared<C>(t: Tree<C>): Tree<C>
    requires t.Fork?
  {
    Fork(Empty, t.cell, t.key, Empty)
  }

  /** keyTree.Delete as written: the root returned by deleteVal is dropped. */
  function Delete<C>(t: Tree<C>, v: Key): (o: Outcome<C>) {
    if t.Fork? && t.key == v && (t.left.Empty? || t.right.Empty?) then Returned(Cleared(t))
    else DeleteVal(t, v)
  }

  /** The keys Delete removes correctly: what a caller can check before calling. */
  predicate Deletable<C>(t: Tree<C>, v: Key) {
    var s := At(t, v);
    t.Empty? || (s.Fork? && s.right.Fork? && if s.left.Empty? then t.key != v else IsLeaf(s.right))
  }

  /** The keys on which Delete panics. */
  predicate Panics<C>(t: Tree<C>, v: Key) {
    var s := At(t, v);
    t.Fork? && (s.Empty? || (IsLeaf(s) && t.key != v) || (s.left.Fork? && s.right.Fork? && !IsLeaf(s.right)))
  }

  /** Keys lost or kept by Delete in every case. */
  ghost function KeysAfterDelete<C>(t: Tree<C>, v: Key): set<Key> {
    var s := At(t, v);
    if s.Fork? && s.left.Fork? && s.right.Empty? then
      Keys(t) - Keys(s.left)                                    // the wrong subtree goes
    else if s.Fork? && s.left.Empty? && t.key == v then
      {v}                                                       // at the root the result is dropped
    else if s.Fork? && s.left.Fork? && !IsLeaf(Leftmost(s.right)) then
      Keys(t)                                                   // panic before any change
    else
      Keys(t) - {v}
  }

  // Deleting the least key of a tree whose least fork is a leaf: the unlinking happens, and
  // the call panics unless the tree was that leaf alone.
  lemma {:induction false} DeleteLeastLeaf<C>(t: Tree<C>)
    requires t.Fork? && Ordered(t) && IsLeaf(Leftmost(t))
    ensures var o := DeleteVal(t, Leftmost(t).key);
            && o.Panicked? == !IsLeaf(t)
            && (IsLeaf(t) ==> o.tree == Empty)
            && Ordered(o.tree) && Keys(o.tree) == Keys(t) - {Leftmost(t).key}
  {
    LeftmostIsLeast(t);
    SearchSide(t, Leftmost(t).key);
    if t.left.Fork? {
      LeftmostIsLeast(t.left);
      DeleteLeastLeaf(t.left);
    }
  }

  // When DeleteVal panics, and when it hands back nil.
  lemma {:induction false} DeleteValPanics<C>(t: Tree<C>, v: Key)
    requires Ordered(t)
    ensures var o, s := DeleteVal(t, v), At(t, v);
            && o.Panicked? == (t.Fork? && (s.Empty? || Panics(s, v) || (IsLeaf(s) && t.key != v)))
            && (o.tree.Empty? ==> t.Empty? || (IsLeaf(t) && t.key == v))
  {
    if t.Fork? {
      LessTrichotomy(v, t.key);
      if Less(v, t.key) {
        DeleteValPanics(t.left, v);
      } else if Less(t.key, v) {
        DeleteValPanics(t.right, v);
      } else if t.left.Fork? && t.right.Fork? && IsLeaf(Leftmost(t.right)) {
        DeleteLeastLeaf(t.right);
      }
    }
  }

  // The keys DeleteVal leaves; KeysAfterDelete differs from it at the root only.
  ghost function KeysAfterDeleteVal<C>(t: Tree<C>, v: Key): set<Key> {
    var s := At(t, v);
    if s.Fork? && s.left.Fork? && s.right.Empty? then Keys(t) - Keys(s.left)
    else if s.Fork? && s.left.Fork? && !IsLeaf(Leftmost(s.right)) then Keys(t)
    else Keys(t) - {v}
  }

  ghost predicate DeleteValLeaves<C>(t: Tree<C>, v: Key) {
    Ordered(DeleteVal(t, v).tree) && Keys(DeleteVal(t, v).tree) == KeysAfterDeleteVal(t, v)
  }

  lemma {:induction false} DeleteValKeys<C>(t: Tree<C>, v: Key)
    requires Ordered(t)
    ensures DeleteValLeaves(t, v)
  {
    if t.Fork? {
      LessTrichotomy(v, t.key);
      if Less(v, t.key) {
        DeleteValKeys(t.left, v);
        DeleteValKeysLeft(t, v);
      } else if Less(t.key, v) {
        DeleteValKeys(t.right, v);
        DeleteValKeysRight(t, v);
      } else {
        DeleteValKeysHere(t);
      }
    }
  }

  lemma DeleteValKeysLeft<C>(t: Tree<C>, v: Key)
    requires Ordered(t) && t.Fork? && Less(v, t.key) && DeleteValLeaves(t.left, v)
    ensures DeleteValLeaves(t, v)
  {
    SearchSide(t, v);
    DisjointSides(t);
    SubtreeKeys(t.left, v);
    assert At(t, v) == At(t.left, v);
    assert DeleteVal(t, v).tree == t.(left := DeleteVal(t.left, v).tree);
  }

  lemma DeleteValKeysRight<C>(t: Tree<C>, v: Key)
    requires Ordered(t) && t.Fork? && Less(t.key, v) && DeleteValLeaves(t.right, v)
    ensures DeleteValLeaves(t, v)
  {
    LessTrichotomy(v, t.key);
    SearchSide(t, v);
    DisjointSides(t);
    SubtreeKeys(t.right, v);
    assert At(t, v) == At(t.right, v);
    assert DeleteVal(t, v).tree == t.(right := DeleteVal(t.right, v).tree);
  }

  lemma DeleteValKeysHere<C>(t: Tree<C>)
    requires Ordered(t) && t.Fork?
    ensures DeleteValLeaves(t, t.key)
  {
    DisjointSides(t);
    if t.left.Fork? && t.right.Fork? && IsLeaf(Leftmost(t.right)) {
      LeftmostIsLeast(t.right);
      DeleteLeastLeaf(t.right);
      BelowWeaken(Keys(t.left), t.key, Leftmost(t.right).key);
    }
  }

  lemma DisjointSides<C>(t: Tree<C>)
    requires t.Fork? && Ordered(t)
    ensures Keys(t.left) !! Keys(t.right)
    ensures t.key !in Keys(t.left) && t.key !in Keys(t.right)
  {
    BelowWeaken(Keys(t.left), t.key, t.key);
    forall k | k in Keys(t.left) ensures k !in Keys(t.right) {
      AboveWeaken(t.key, Keys(t.right), k);
    }
  }

  lemma {:induction false} SubtreeKeys<C>(t: Tree<C>, v: Key)
    ensures Keys(At(t, v)) <= Keys(t)
  {
    if t.Fork? && v != t.key {
      SubtreeKeys(t.left, v);
      SubtreeKeys(t.right, v);
    }
  }

  /**
   Delete as written, on every ordered tree and every key: it always leaves an ordered
   tree, it panics exactly on Panics, and it returns with exactly the key removed if and
   only if the key is Deletable.
   */
  lemma DeleteExactly<C>(t: Tree<C>, v: Key)
    requires Ordered(t)
    ensures Ordered(Delete(t, v).tree)
    ensures Delete(t, v).Panicked? <==> Panics(t, v)
    ensures Keys(Delete(t, v).tree) == KeysAfterDelete(t, v)
    ensures Delete(t, v).Returned? && Keys(Delete(t, v).tree) == Keys(t) - {v} <==> Deletable(t, v)
  {
    SearchFinds(t, v);
    SubtreeKeys(t, v);
    DeleteValPanics(t, v);
    DeleteValKeys(t, v);
    if t.Fork? { SearchSide(t, v); DisjointSides(t); }
    var s := At(t, v);
    if s.Fork? {
      DisjointSides(s);
      if s.left.Fork? && s.right.Empty? { assert s.left.key in Keys(s.left); }
    }
  }

  lemma {:induction false} DeleteValCells<C>(t: Tree<C>, v: Key)
    requires Distinct(t)
    ensures Distinct(DeleteVal(t, v).tree) && Cells(DeleteVal(t, v).tree) <= Cells(t)
  {
    if t.Fork? {
      DeleteValCells(t.left, v);
      DeleteValCells(t.right, v);
      if FoundMin(t.right).Fork? { DeleteValCells(t.right, FoundMin(t.right).key); }
    }
  }

  // Four concrete trees on which Delete does not do its job, one per fault.
  lemma DeleteFaults()
    ensures var leaf := (k: Key) => Fork(Empty, (), k, Empty);
            // the root "1" of a chain stays and its right subtree goes
            && Delete(Fork(Empty, (), "1", leaf("2")), "1") == Returned(leaf("1"))
            // a node with a left child only stays and its left subtree goes
            && Delete(Fork(Empty, (), "1", Fork(leaf("2"), (), "3", Empty)), "3") == Returned(Fork(Empty, (), "1", leaf("3")))
            // an absent key and a leaf below the root both panic
            && Delete(leaf("1"), "2") == Panicked(leaf("1"))
            && Delete(Fork(leaf("1"), (), "2", Empty), "1") == Panicked(leaf("2"))
            // the minimum search misses a leftmost node with a right child
            && Delete(Fork(leaf("1"), (), "2", Fork(Empty, (), "3", leaf("4"))), "2")
               == Panicked(Fork(leaf("1"), (), "2", Fork(Empty, (), "3", leaf("4"))))
  {
  }
}
