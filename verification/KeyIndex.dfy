/** keyTree of server/storage/kv.go on the heap: nodes with parent links, updated in place. */
module KeyIndex {
  import opened KeyOrder
  import opened SearchTree
  import opened TreeQueries

  class Node {
    var val: Key
    var parent: Node?
    var left: Node?
    var right: Node?

    constructor (v: Key, parent: Node?)
      ensures val == v && this.parent == parent && left == null && right == null
    {
      val, this.parent, left, right := v, parent, null, null;
    }
  }

  /**
   The heap below `root` is exactly `t`: same cells, same keys, child links as in `t`, and
   every parent link is the inverse of a child link. All four fields of every cell are fixed.
   */
  ghost predicate Linked(t: Tree<Node>, root: Node?, parent: Node?)
    reads Cells(t)
  {
    match t
    case Empty => root == null
    case Fork(l, c, k, r) =>
      && root == c && c.val == k && c.parent == parent
      && Linked(l, c.left, c) && Linked(r, c.right, c)
  }

  /** As Linked, but the parent link of the topmost cell is left open. */
  ghost predicate LinkedBelow(t: Tree<Node>, root: Node?)
    reads Cells(t), root
  {
    Linked(t, root, if root == null then null else root.parent)
  }

  lemma {:induction false} CellsAllocated(t: Tree<Node>, root: Node?, parent: Node?)
    requires Linked(t, root, parent)
    ensures forall n :: n in Cells(t) ==> allocated(n)
  {
    if t.Fork? {
      CellsAllocated(t.left, t.cell.left, t.cell);
      CellsAllocated(t.right, t.cell.right, t.cell);
    }
  }

  /** insertVal */
  method InsertVal(v: Key, root: Node?, parent: Node?, ghost t: Tree<Node>, ghost up: Node?)
    returns (r: Node, ghost c: Node)
    requires Linked(t, root, up) && Distinct(t)
    modifies Cells(t)
    ensures Linked(Insert(t, v, c), r, if root == null then parent else up)
    ensures Distinct(Insert(t, v, c))
    ensures At(t, v).Empty? ==> fresh(c)
    ensures root != null ==> r == root
    decreases t
  {
    if root == null {
      r := new Node(v, parent);
      c := r;
    } else {
      CellsAllocated(t, root, up);
      LessTrichotomy(v, root.val);
      if Compare(v, root.val) < 0 {
        var l;
        l, c := InsertVal(v, root.left, root, t.left, root);
        InsertCells(t.left, v, c);
        root.left := l;
      } else if Compare(v, root.val) > 0 {
        CompareAntisymmetric(v, root.val);
        var l;
        l, c := InsertVal(v, root.right, root, t.right, root);
        InsertCells(t.right, v, c);
        root.right := l;
      } else {
        c := root;
      }
      r := root;
    }
  }

  // child.parent = p
  method Reparent(child: Node, p: Node, ghost t: Tree<Node>)
    requires LinkedBelow(t, child) && Distinct(t) && p !in Cells(t)
    modifies child`parent
    ensures Linked(t, child, p)
  {
    child.parent := p;
  }

  /** findMinNode, as written. */
  method FindMinNode(root: Node?, ghost t: Tree<Node>, ghost parent: Node?) returns (m: Node?)
    requires Linked(t, root, parent)
    ensures m != null <==> FoundMin(t).Fork?
    ensures m != null ==> m == FoundMin(t).cell && m.val == FoundMin(t).key
    decreases t
  {
    if root == null || (root.left == null && root.right == null) {
      m := root;
    } else {
      m := FindMinNode(root.left, t.left, root);
    }
  }

  /** The key is here and at most one child is: deleteVal unlinks or clears this very cell. */
  ghost predicate Here(t: Tree<Node>, v: Key) {
    t.Fork? && t.key == v && (t.left.Empty? || t.right.Empty?)
  }

  /** What a call of deleteVal on `t` at `root` leaves in the heap, given how it ended. */
  ghost predicate Deleted(t: Tree<Node>, v: Key, root: Node?, parent: Node?, panicked: bool, r: Node?)
    reads Cells(DeleteVal(t, v).tree), r
  {
    var o := DeleteVal(t, v);
    && panicked == o.Panicked?
    && (if panicked then Linked(o.tree, root, parent)
        else LinkedBelow(o.tree, r) && (!Here(t, v) ==> r == root && Linked(o.tree, root, parent)))
  }

  /**
   deleteVal, as written; a nil dereference ends the call with `panicked`. `t` is the tree
   below `root` and `parent` the parent link of `root`.
   */
  method DeleteNode(v: Key, root: Node?, ghost t: Tree<Node>, ghost parent: Node?) returns (panicked: bool, r: Node?)
    requires Linked(t, root, parent) && Distinct(t) && Ordered(t)
    modifies Cells(t)
    ensures Deleted(t, v, root, parent, panicked, r)
    ensures Here(t, v) ==> Linked(Cleared(t), root, null)
    decreases t, 2
  {
    if root == null {
      panicked, r := false, null;
    } else {
      LessTrichotomy(v, root.val);
      CompareAntisymmetric(v, root.val);
      if Compare(v, root.val) < 0 {
        panicked := DeleteFromLeft(v, root, t, parent);
        r := root;
      } else if Compare(v, root.val) > 0 {
        panicked := DeleteFromRight(v, root, t, parent);
        r := root;
      } else if root.left != null && root.right != null {
        panicked, r := ReplaceBySuccessor(root, t, parent);
      } else {
        panicked, r := false, root;
        if root.left == null {
          r := root.right;
        }
        root.left, root.right, root.parent := null, null, null;
      }
    }
  }

  // root.left = deleteVal(v, root.left); root.left.parent = root
  method DeleteFromLeft(v: Key, root: Node, ghost t: Tree<Node>, ghost parent: Node?) returns (panicked: bool)
    requires Linked(t, root, parent) && Distinct(t) && Ordered(t)
    modifies Cells(t)
    ensures var o := DeleteVal(t.left, v);
            panicked == (o.Panicked? || o.tree.Empty?) && Linked(t.(left := o.tree), root, parent)
    decreases t, 0
  {
    CellsAllocated(t, root, parent);
    DeleteValCells(t.left, v);
    var l;
    panicked, l := DeleteNode(v, root.left, t.left, root);
    if !panicked {
      root.left := l;
      if l == null {
        panicked := true;
      } else {
        Reparent(l, root, DeleteVal(t.left, v).tree);
      }
    }
  }

  // root.right = deleteVal(v, root.right); root.right.parent = root
  method DeleteFromRight(v: Key, root: Node, ghost t: Tree<Node>, ghost parent: Node?) returns (panicked: bool)
    requires Linked(t, root, parent) && Distinct(t) && Ordered(t)
    modifies Cells(t)
    ensures var o := DeleteVal(t.right, v);
            panicked == (o.Panicked? || o.tree.Empty?) && Linked(t.(right := o.tree), root, parent)
    decreases t, 0
  {
    CellsAllocated(t, root, parent);
    DeleteValCells(t.right, v);
    var l;
    panicked, l := DeleteNode(v, root.right, t.right, root);
    if !panicked {
      root.right := l;
      if l == null {
        panicked := true;
      } else {
        Reparent(l, root, DeleteVal(t.right, v).tree);
      }
    }
  }

  method ReplaceBySuccessor(root: Node, ghost t: Tree<Node>, ghost parent: Node?) returns (panicked: bool, r: Node?)
    requires Linked(t, root, parent) && Distinct(t) && Ordered(t) && t.left.Fork? && t.right.Fork?
    modifies Cells(t)
    ensures Deleted(t, old(root.val), root, parent, panicked, r)
    decreases t, 1
  {
    CellsAllocated(t, root, parent);
    LessTrichotomy(root.val, root.val);
    var rMin := FindMinNode(root.right, t.right, root);
    if rMin == null {
      panicked, r := true, root;
    } else {
      SuccessorDeleted(t);
      panicked, r := MoveSuccessorUp(root, rMin.val, t, parent);
    }
  }

  // root.val = rMin.val; root.right = deleteVal(rMin.val, root.right)
  method MoveSuccessorUp(root: Node, m: Key, ghost t: Tree<Node>, ghost parent: Node?) returns (panicked: bool, r: Node)
    requires Linked(t, root, parent) && Distinct(t) && Ordered(t)
    requires DeleteVal(t.right, m).Panicked? || DeleteVal(t.right, m).tree.Empty?
    modifies Cells(t)
    ensures r == root && panicked == DeleteVal(t.right, m).Panicked?
    ensures Linked(t.(key := m, right := DeleteVal(t.right, m).tree), root, parent)
    decreases t, 0
  {
    CellsAllocated(t, root, parent);
    DeleteValCells(t.right, m);
    r := root;
    root.val := m;
    var l;
    panicked, l := DeleteNode(m, root.right, t.right, root);
    if !panicked {
      root.right := l;
    }
  }

  lemma SuccessorDeleted(t: Tree<Node>)
    requires t.Fork? && t.left.Fork? && t.right.Fork? && Ordered(t) && FoundMin(t.right).Fork?
    ensures var m := FoundMin(t.right).key;
            var o, q := DeleteVal(t, t.key), DeleteVal(t.right, m);
            && o.Panicked? == q.Panicked? && o.tree == t.(key := m, right := q.tree)
            && (q.Panicked? || q.tree.Empty?)
  {
    LessTrichotomy(t.key, t.key);
    DeleteLeastLeaf(t.right);
  }

  // ---- deleteVal with the repairs ------------------------------------------------------
  // findMinNode stops at the leftmost node, a child is re-parented only when there is one,
  // a node with a left child only is replaced by that child, the successor's place is
  // re-parented too, and Delete keeps the new root.

  method LeftmostNode(root: Node, ghost t: Tree<Node>, ghost parent: Node?) returns (m: Node)
    requires Linked(t, root, parent)
    ensures m.val == Leftmost(t).key
    decreases t
  {
    if root.left == null {
      m := root;
    } else {
      m := LeftmostNode(root.left, t.left, root);
    }
  }

  method RemoveVal(v: Key, root: Node?, ghost t: Tree<Node>, ghost parent: Node?) returns (r: Node?)
    requires Linked(t, root, parent) && Distinct(t)
    modifies Cells(t)
    ensures LinkedBelow(Remove(t, v), r)
    decreases t, 1
  {
    r := root;
    if root != null {
      LessTrichotomy(v, root.val);
      CompareAntisymmetric(v, root.val);
      CellsAllocated(t, root, parent);
      if Compare(v, root.val) < 0 {
        RemoveFromLeft(v, root, t, parent);
      } else if Compare(v, root.val) > 0 {
        RemoveFromRight(v, root, t, parent);
      } else if root.left != null && root.right != null {
        var rMin := LeftmostNode(root.right, t.right, root);
        root.val := rMin.val;
        RemoveFromRight(rMin.val, root, t.(key := rMin.val), parent);
      } else {
        r := if root.left == null then root.right else root.left;
        root.left, root.right, root.parent := null, null, null;
      }
    }
  }

  method RemoveFromLeft(v: Key, root: Node, ghost t: Tree<Node>, ghost parent: Node?)
    requires Linked(t, root, parent) && Distinct(t)
    modifies Cells(t)
    ensures Linked(t.(left := Remove(t.left, v)), root, parent)
    decreases t.left, 2
  {
    CellsAllocated(t, root, parent);
    RemoveCells(t.left, v);
    var l := RemoveVal(v, root.left, t.left, root);
    root.left := l;
    if l != null { Reparent(l, root, Remove(t.left, v)); }
  }

  method RemoveFromRight(v: Key, root: Node, ghost t: Tree<Node>, ghost parent: Node?)
    requires Linked(t, root, parent) && Distinct(t)
    modifies Cells(t)
    ensures Linked(t.(right := Remove(t.right, v)), root, parent)
    decreases t.right, 2
  {
    CellsAllocated(t, root, parent);
    RemoveCells(t.right, v);
    var l := RemoveVal(v, root.right, t.right, root);
    root.right := l;
    if l != null { Reparent(l, root, Remove(t.right, v)); }
  }

  // ---- Queries -------------------------------------------------------------------------

  method FindNearbyLeftNode(v: Key, root: Node?, ghost t: Tree<Node>, ghost parent: Node?) returns (n: Node?)
    requires Linked(t, root, parent)
    ensures n != null <==> NearbyLeft(t, v).Fork?
    ensures n != null ==> n == NearbyLeft(t, v).cell && n.val == NearbyLeft(t, v).key
    ensures n != null && Less(n.val, v) ==> n.parent != null && n.parent.left == n && !Less(n.parent.val, v)
    decreases t
  {
    if root != null { CompareAntisymmetric(v, root.val); }
    if root == null {
      n := null;
    } else if Compare(v, root.val) <= 0 {
      if root.left != null {
        if Compare(v, root.left.val) > 0 {
          n := root.left;
        } else {
          n := FindNearbyLeftNode(v, root.left, t.left, root);
        }
      } else {
        n := root;
      }
    } else {
      n := FindNearbyLeftNode(v, root.right, t.right, root);
    }
  }

  lemma {:induction false} CellHoldsItsKey(t: Tree<Node>, root: Node?, parent: Node?, c: Node)
    requires Linked(t, root, parent) && c in Cells(t)
    ensures HoldsKey(t, c, c.val)
  {
    if c in Cells(t.left) { CellHoldsItsKey(t.left, root.left, root, c); }
    if c in Cells(t.right) { CellHoldsItsKey(t.right, root.right, root, c); }
  }

  lemma LevelKeys(t: Tree<Node>, root: Node?, parent: Node?, d: nat, i: nat, j: nat)
    requires Linked(t, root, parent) && Ordered(t) && Distinct(t) && i < j < |AtDepth(t, d)|
    ensures AtDepth(t, d)[i] in Cells(t) && AtDepth(t, d)[j] in Cells(t)
    ensures Less(AtDepth(t, d)[i].val, AtDepth(t, d)[j].val)
  {
    DepthCells(t, d);
    var a, b := AtDepth(t, d)[i], AtDepth(t, d)[j];
    CellHoldsItsKey(t, root, parent, a);
    CellHoldsItsKey(t, root, parent, b);
    LevelsIncrease(t, d, i, j, a.val, b.val);
  }

  /** Entry i of the queue is the root of the i-th subtree. */
  ghost predicate Queued(f: seq<Tree<Node>>, queue: seq<Node>)
    reads set i, n | 0 <= i < |f| && n in Cells(f[i]) :: n
    reads queue
  {
    && |f| == |queue| && AllForks(f)
    && forall i :: 0 <= i < |f| ==> Linked(f[i], queue[i], queue[i].parent)
  }

  function ChildNodes(p: Node): seq<Node>
    reads p
  {
    (if p.left != null then [p.left] else []) + (if p.right != null then [p.right] else [])
  }

  lemma Dequeue(cur: seq<Tree<Node>>, next: seq<Tree<Node>>, queue: seq<Node>)
    requires Queued(cur + next, queue) && cur != [] && cur[0].Fork?
    ensures Queued(cur[1..] + (next + NonEmpty(cur[0].left, cur[0].right)), queue[1..] + ChildNodes(queue[0]))
  {
    var p, t := queue[0], (cur + next)[0];
    assert Linked(t.left, p.left, p) && Linked(t.right, p.right, p);
    assert cur[1..] + (next + NonEmpty(t.left, t.right)) == (cur + next)[1..] + NonEmpty(t.left, t.right);
  }

  lemma StartLevel(ans: seq<seq<Node>>, tmp: seq<Node>, next: seq<Tree<Node>>)
    requires AllForks(next) && next != []
    ensures ans + Pending(tmp, [], next) == (ans + [tmp]) + Pending([], next, [])
  {
    PendingNextLevel(tmp, next);
    assert ans + ([tmp] + Pending([], next, [])) == (ans + [tmp]) + Pending([], next, []);
  }

  /** SeekLevel below a non-nil root. */
  method SeekLevelFrom(root: Node, ghost t: Tree<Node>, ghost parent: Node?) returns (ans: seq<seq<Node>>)
    requires Linked(t, root, parent)
    ensures ans == Levels(t)
  {
    ans := [];
    var tmp: seq<Node> := [];
    var queue: seq<Node> := [root];
    var nowNodeSize := |queue|;
    // the subtrees queued on the current level and on the next one
    ghost var cur, next := [t], [];
    StartPending(t);
    while |queue| != 0
      invariant nowNodeSize == |cur| && Queued(cur + next, queue)
      invariant ans + Pending(tmp, cur, next) == Levels(t)
      decreases ForestSize(cur + next)
    {
      if nowNodeSize == 0 {
        assert cur == [] && cur + next == next && next + [] == next;
        StartLevel(ans, tmp, next);
        ans := ans + [tmp];
        tmp := [];
        nowNodeSize := |queue|;
        cur, next := next, [];
      }
      assert cur[0] == (cur + next)[0];
      Dequeue(cur, next, queue);
      PendingPop(tmp, cur, next);
      var p := queue[0];
      cur, next := cur[1..], next + NonEmpty(cur[0].left, cur[0].right);
      ghost var queue' := queue[1..] + ChildNodes(p);
      queue := queue[1..];
      nowNodeSize := nowNodeSize - 1;
      tmp := tmp + [p];
      if p.left != null {
        queue := queue + [p.left];
      }
      if p.right != null {
        queue := queue + [p.right];
      }
      assert queue == queue';
    }
    PendingNextLevel<Node>(tmp, []);
    assert cur == [] && next == [];
    ans := ans + [tmp];
  }

  lemma StartPending(t: Tree<Node>)
    requires t.Fork?
    ensures [] + Pending([], [t], []) == Levels(t)
  {
    GenerationsOfOne(t);
    NextGeneration([t]);
    assert [] + Children([t]) == Children([t]) && [] + ForestDepth([t], 0) == ForestDepth([t], 0);
  }

  class KeyTree {
    var root: Node?
    var size: int
    /** The tree stored below root. */
    ghost var tree: Tree<Node>

    ghost predicate Valid()
      reads this, Cells(tree)
    {
      Linked(tree, root, null) && Distinct(tree) && Ordered(tree)
    }

    constructor ()
      ensures Valid() && tree == Empty && size == 0
    {
      root, size, tree := null, 0, Empty;
    }

    method Insert(v: Key)
      requires Valid()
      modifies this, Cells(tree)
      ensures Valid() && Keys(tree) == old(Keys(tree)) + {v} && size == old(size) + 1
      ensures v in old(Keys(tree)) ==> tree == old(tree)
      ensures v !in old(Keys(tree)) ==> exists c :: fresh(c) && tree == SearchTree.Insert(old(tree), v, c)
      ensures fresh(Cells(tree) - old(Cells(tree)))
    {
      ghost var c;
      SearchFinds(tree, v);
      root, c := InsertVal(v, root, root, tree, null);
      InsertAddsKey(tree, v, c);
      InsertCells(tree, v, c);
      tree := SearchTree.Insert(tree, v, c);
      size := size + 1;
    }

    /** Delete as written: see SearchTree.DeleteExactly for what the outcome means. */
    method Delete(v: Key) returns (panicked: bool)
      requires Valid()
      modifies this, Cells(tree)
      ensures Valid() && panicked == SearchTree.Delete(old(tree), v).Panicked?
      ensures tree == SearchTree.Delete(old(tree), v).tree
      ensures size == old(size) - if panicked then 0 else 1
      ensures Cells(tree) <= old(Cells(tree))
    {
      var r;
      panicked, r := DeleteNode(v, root, tree, null);
      DeleteExactly(tree, v);
      DeleteValCells(tree, v);
      tree := SearchTree.Delete(tree, v).tree;
      if !panicked {
        size := size - 1;
      }
    }

    /** Delete with the repairs. */
    method DeleteRepaired(v: Key)
      requires Valid()
      modifies this, Cells(tree)
      ensures Valid() && Keys(tree) == old(Keys(tree)) - {v}
      ensures tree == Remove(old(tree), v)
      ensures size == old(size) - 1
      ensures Cells(tree) <= old(Cells(tree))
    {
      RemoveKey(tree, v);
      RemoveCells(tree, v);
      root := RemoveVal(v, root, tree, null);
      if root != null { root.parent := null; }
      tree := Remove(tree, v);
      size := size - 1;
    }

    method FindNearbyLeft(v: Key) returns (n: Node?)
      requires Valid()
      ensures n == null <==> AllBelow(Keys(tree), v)
      ensures n != null ==> n.val in Keys(tree)
      ensures n != null && !Less(n.val, v) ==> forall k :: k in Keys(tree) && !Less(k, v) ==> !Less(k, n.val)
      ensures n != null && Less(n.val, v) ==>
                var s := At(tree, n.val);
                s.Fork? && s.cell == n && forall k :: k in Keys(tree) && Less(n.val, k) && Less(k, v) ==> k in Keys(s.right)
      ensures n != null && Less(n.val, v) ==> n.parent != null && n.parent.left == n && !Less(n.parent.val, v)
    {
      n := FindNearbyLeftNode(v, root, tree, null);
      NearbyLeftAnswer(tree, v);
      NearbyLeftFound(tree, v);
    }

    method SeekLevel() returns (ans: seq<seq<Node>>)
      requires Valid()
      ensures ans == Levels(tree)
      ensures multiset(Flatten(ans)) == multiset(Cells(tree)) && |ans| == Height(tree)
      ensures forall d, i, j :: 0 <= d < |ans| && 0 <= i < j < |ans[d]| ==> Less(ans[d][i].val, ans[d][j].val)
    {
      LevelsListEachCellOnce(tree);
      CellsAllocated(tree, root, null);
      if root == null {
        ans := [];
      } else {
        ans := SeekLevelFrom(root, tree, null);
      }
      forall d, i, j | 0 <= d < |ans| && 0 <= i < j < |ans[d]| ensures Less(ans[d][i].val, ans[d][j].val) {
        LevelKeys(tree, root, null, d, i, j);
      }
    }
  }
}
