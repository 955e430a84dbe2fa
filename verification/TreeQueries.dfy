/** The read-only queries of keyTree: nearest key to the left and level-order traversal. */
module TreeQueries {
  import opened KeyOrder
  import opened SearchTree

  // ---- findNearbyLeftNode -------------------------------------------------------------

  /** The subtree whose root findNearbyLeftNode returns; Empty stands for nil. */
  function NearbyLeft<C>(t: Tree<C>, v: Key): Tree<C> {
    if t.Empty? then Empty
    else if Compare(v, t.key) <= 0 then
      if t.left.Fork? then
        if Compare(v, t.left.key) > 0 then t.left else NearbyLeft(t.left, v)
      else t
    else NearbyLeft(t.right, v)
  }

  /** What a non-nil answer `r` says about the keys of `t`. */
  ghost predicate Nearby<C>(t: Tree<C>, v: Key, r: Tree<C>)
    requires r.Fork?
  {
    && r.key in Keys(t) && Keys(r) <= Keys(t)
    && (!Less(r.key, v) ==> forall k :: k in Keys(t) && !Less(k, v) ==> !Less(k, r.key))
    && (Less(r.key, v) ==> forall k :: k in Keys(t) && Less(r.key, k) && Less(k, v) ==> k in Keys(r.right))
  }

  /**
   nil exactly when every key is below v; a key at or above v is the least such key; below a
   smaller answer, the keys strictly between it and v all sit in its right subtree.
   */
  lemma {:induction false} NearbyLeftAnswer<C>(t: Tree<C>, v: Key)
    requires Ordered(t)
    ensures NearbyLeft(t, v).Empty? <==> AllBelow(Keys(t), v)
    ensures NearbyLeft(t, v).Fork? ==> Nearby(t, v, NearbyLeft(t, v))
  {
    if t.Fork? {
      CompareAntisymmetric(v, t.key);
      if Compare(v, t.key) > 0 {
        BelowWeaken(Keys(t.left), t.key, v);
        NearbyLeftAnswer(t.right, v);
        if NearbyLeft(t, v).Fork? { NearbyRightOfRoot(t, v, NearbyLeft(t, v)); }
      } else if t.left.Fork? && Compare(v, t.left.key) > 0 {
        NearbyLeftChild(t, v);
      } else if t.left.Fork? {
        NearbyLeftAnswer(t.left, v);
        CompareAntisymmetric(v, t.left.key);
        assert !Less(t.left.key, v) && t.left.key in Keys(t.left);
        NearbyLeftOfRoot(t, v, NearbyLeft(t, v));
      } else {
        forall k | k in Keys(t) ensures !Less(k, t.key) { LessTrichotomy(k, t.key); }
      }
    }
  }

  /** The first node at or above v on the right spine. */
  function FirstNotBelow<C>(t: Tree<C>, v: Key): Tree<C> {
    if t.Empty? || !Less(t.key, v) then t else FirstNotBelow(t.right, v)
  }

  /** The answer is below v exactly when the subtree of that node holds a key below v, its leftmost one say. */
  lemma {:induction false} NearbyLeftBelow<C>(t: Tree<C>, v: Key)
    requires Ordered(t)
    ensures NearbyLeft(t, v).Fork? <==> FirstNotBelow(t, v).Fork?
    ensures FirstNotBelow(t, v).Fork? ==>
              (Less(NearbyLeft(t, v).key, v) <==> Less(Leftmost(FirstNotBelow(t, v)).key, v))
  {
    if t.Fork? {
      CompareAntisymmetric(v, t.key);
      if Compare(v, t.key) > 0 {
        NearbyLeftBelow(t.right, v);
      } else if t.left.Fork? {
        CompareAntisymmetric(v, t.left.key);
        if Compare(v, t.left.key) > 0 {
          LeftmostNotAbove(t.left, v);
        } else {
          NearbyLeftBelow(t.left, v);
        }
      }
    }
  }

  /** A tree, its left subtree, and so on. */
  function LeftSpine<C>(t: Tree<C>): (spine: seq<Tree<C>>)
    ensures forall i :: 0 <= i < |spine| ==> spine[i].Fork?
  {
    if t.Empty? then [] else [t] + LeftSpine(t.left)
  }

  /** The first tree of the spine with a key below v, or the last one when there is none. */
  ghost predicate FirstBelow<C>(spine: seq<Tree<C>>, v: Key, i: int) {
    && 0 <= i < |spine| && (forall j :: 0 <= j <= i ==> spine[j].Fork?)
    && (forall j :: 0 <= j < i ==> !Less(spine[j].key, v))
    && (Less(spine[i].key, v) || i == |spine| - 1)
  }

  /** The answer exactly: down the right spine to the first key at or above v, then down the left spine. */
  lemma {:induction false} NearbyLeftExactly<C>(t: Tree<C>, v: Key)
    ensures NearbyLeft(t, v).Fork? <==> FirstNotBelow(t, v).Fork?
    ensures NearbyLeft(t, v).Fork? ==>
              exists i :: FirstBelow(LeftSpine(FirstNotBelow(t, v)), v, i) && LeftSpine(FirstNotBelow(t, v))[i] == NearbyLeft(t, v)
  {
    if t.Fork? {
      CompareAntisymmetric(v, t.key);
      if Compare(v, t.key) > 0 {
        NearbyLeftExactly(t.right, v);
      } else if t.left.Empty? {
        assert FirstBelow(LeftSpine(t), v, 0);
      } else {
        CompareAntisymmetric(v, t.left.key);
        assert LeftSpine(t)[1..] == LeftSpine(t.left) && LeftSpine(t.left)[0] == t.left;
        if Compare(v, t.left.key) > 0 {
          assert FirstBelow(LeftSpine(t), v, 1) && LeftSpine(t)[1] == t.left;
        } else {
          NearbyLeftExactly(t.left, v);
          var i :| FirstBelow(LeftSpine(t.left), v, i) && LeftSpine(t.left)[i] == NearbyLeft(t.left, v);
          assert FirstBelow(LeftSpine(t), v, i + 1) && LeftSpine(t)[i + 1] == NearbyLeft(t, v);
        }
      }
    }
  }

  lemma LeftmostNotAbove<C>(t: Tree<C>, v: Key)
    requires t.Fork? && Ordered(t) && Less(t.key, v)
    ensures Less(Leftmost(t).key, v)
  {
    LeftmostIsLeast(t);
    if Leftmost(t).key != t.key { LessTransitive(Leftmost(t).key, t.key, v); }
  }

  // The answer came from the right subtree, v above the root.
  lemma NearbyRightOfRoot<C>(t: Tree<C>, v: Key, r: Tree<C>)
    requires t.Fork? && r.Fork? && Ordered(t) && Less(t.key, v) && Nearby(t.right, v, r)
    ensures Nearby(t, v, r)
  {
    BelowWeaken(Keys(t.left), t.key, v);
    assert Less(t.key, r.key);
    BelowWeaken(Keys(t.left), t.key, r.key);
    forall k | k in Keys(t.left) + {t.key} ensures Less(k, v) && !Less(r.key, k) { LessTrichotomy(k, r.key); }
  }

  // The answer came from the left subtree, v at or below the root.
  lemma NearbyLeftOfRoot<C>(t: Tree<C>, v: Key, r: Tree<C>)
    requires t.Fork? && r.Fork? && Ordered(t) && !Less(t.key, v) && Nearby(t.left, v, r)
    ensures Nearby(t, v, r)
  {
    assert Less(r.key, t.key);
    AboveWeaken(t.key, Keys(t.right), r.key);
    LessTrichotomy(v, t.key);
    AboveWeaken(t.key, Keys(t.right), v);
    forall k | k in Keys(t.right) + {t.key} ensures !Less(k, v) && !Less(k, r.key) {
      LessTrichotomy(k, r.key);
      LessTrichotomy(k, v);
    }
  }

  // The answer is the left child, v between it and the root.
  lemma NearbyLeftChild<C>(t: Tree<C>, v: Key)
    requires t.Fork? && Ordered(t) && t.left.Fork? && !Less(t.key, v) && Compare(v, t.left.key) > 0
    ensures Nearby(t, v, t.left) && !AllBelow(Keys(t), v)
  {
    CompareAntisymmetric(v, t.left.key);
    forall k | k in Keys(t.left.left) ensures !Less(t.left.key, k) { LessTrichotomy(k, t.left.key); }
    LessTrichotomy(t.left.key, t.left.key);
    NearbyLeftOfRoot(t, v, t.left);
    assert t.key in Keys(t);
  }

  // The answer is the subtree the search for its key arrives at.
  lemma {:induction false} NearbyLeftFound<C>(t: Tree<C>, v: Key)
    requires Ordered(t)
    ensures NearbyLeft(t, v).Fork? ==> At(t, NearbyLeft(t, v).key) == NearbyLeft(t, v)
  {
    if t.Fork? && NearbyLeft(t, v).Fork? {
      var r := NearbyLeft(t, v);
      NearbyLeftFound(t.left, v);
      NearbyLeftFound(t.right, v);
      NearbyLeftAnswer(t.left, v);
      NearbyLeftAnswer(t.right, v);
      SearchSide(t, r.key);
    }
  }

  // The tree drawn above FindNearbyLeft. The comment there says that looking for 1 returns
  // nil; the code returns 1 (as the test asserts), and 3 for 5 although 4 is nearer: the answer is
  // below 5 because the subtree of 5 holds a key below 5, by NearbyLeftBelow.
  lemma NearbyLeftPicture()
    ensures var leaf := (k: Key) => Fork(Empty, (), k, Empty);
            var t := Fork(Fork(leaf("1"), (), "3", leaf("4")), (), "5", Fork(leaf("7"), (), "8", leaf("9")));
            && NearbyLeft(t, "5").Fork? && NearbyLeft(t, "5").key == "3"
            && NearbyLeft(t, "3").Fork? && NearbyLeft(t, "3").key == "1"
            && NearbyLeft(t, "1").Fork? && NearbyLeft(t, "1").key == "1"
  {
  }

  // ---- SeekLevel ----------------------------------------------------------------------

  function Height<C>(t: Tree<C>): nat {
    if t.Empty? then 0
    else 1 + if Height(t.left) > Height(t.right) then Height(t.left) else Height(t.right)
  }

  /** The cells at depth d, left to right. */
  function AtDepth<C>(t: Tree<C>, d: nat): seq<C> {
    if t.Empty? then []
    else if d == 0 then [t.cell]
    else AtDepth(t.left, d - 1) + AtDepth(t.right, d - 1)
  }

  /** The level lists: entry d holds the cells at depth d. */
  function Levels<C>(t: Tree<C>): seq<seq<C>> {
    seq(Height(t), d requires 0 <= d => AtDepth(t, d))
  }

  // Every cell of a tree without sharing occurs in the level lists exactly once.
  lemma LevelsListEachCellOnce<C>(t: Tree<C>)
    requires Distinct(t)
    ensures multiset(Flatten(Levels(t))) == multiset(Cells(t))
    ensures |Levels(t)| == Height(t)
    ensures forall d :: 0 <= d < Height(t) ==> Levels(t)[d] == AtDepth(t, d) && AtDepth(t, d) != []
  {
    FlattenIsUpTo(t, Height(t));
    UpToIsBag(t, Height(t));
    BagOfDistinct(t);
    forall d | 0 <= d < Height(t) ensures AtDepth(t, d) != [] { LevelsFilled(t, d); }
  }

  /** The cell holds the key. */
  ghost predicate HoldsKey<C>(t: Tree<C>, c: C, k: Key) {
    t.Fork? && ((t.cell == c && t.key == k) || HoldsKey(t.left, c, k) || HoldsKey(t.right, c, k))
  }

  lemma {:induction false} HoldsKeyIn<C>(t: Tree<C>, c: C, k: Key)
    requires HoldsKey(t, c, k)
    ensures c in Cells(t) && k in Keys(t)
  {
    if HoldsKey(t.left, c, k) { HoldsKeyIn(t.left, c, k); }
    if HoldsKey(t.right, c, k) { HoldsKeyIn(t.right, c, k); }
  }

  lemma {:induction false} DepthCells<C>(t: Tree<C>, d: nat)
    ensures forall c :: c in AtDepth(t, d) ==> c in Cells(t)
  {
    if t.Fork? && d > 0 {
      DepthCells(t.left, d - 1);
      DepthCells(t.right, d - 1);
    }
  }

  // In a tree without sharing a cell of one side holds its key there.
  lemma HoldsKeyBeside<C>(t: Tree<C>, c: C, k: Key)
    requires t.Fork? && Distinct(t) && HoldsKey(t, c, k)
    ensures c in Cells(t.left) ==> HoldsKey(t.left, c, k) && k in Keys(t.left)
    ensures c in Cells(t.right) ==> HoldsKey(t.right, c, k) && k in Keys(t.right)
  {
    if HoldsKey(t.left, c, k) { HoldsKeyIn(t.left, c, k); }
    if HoldsKey(t.right, c, k) { HoldsKeyIn(t.right, c, k); }
  }

  // A key on the left is less than one on the right.
  lemma AcrossIncreases<C>(t: Tree<C>, a: C, b: C, k: Key, l: Key)
    requires t.Fork? && Ordered(t) && Distinct(t) && HoldsKey(t, a, k) && HoldsKey(t, b, l)
    requires a in Cells(t.left) && b in Cells(t.right)
    ensures Less(k, l)
  {
    HoldsKeyBeside(t, a, k);
    HoldsKeyBeside(t, b, l);
    LessTransitive(k, t.key, l);
  }

  /** Within a level the keys increase, since levels go from left to right. */
  lemma {:induction false} LevelsIncrease<C>(t: Tree<C>, d: nat, i: nat, j: nat, k: Key, l: Key)
    requires Ordered(t) && Distinct(t) && i < j < |AtDepth(t, d)|
    requires HoldsKey(t, AtDepth(t, d)[i], k) && HoldsKey(t, AtDepth(t, d)[j], l)
    ensures Less(k, l)
    decreases t
  {
    assert t.Fork? && d > 0;
    var n := |AtDepth(t.left, d - 1)|;
    var a, b := AtDepth(t, d)[i], AtDepth(t, d)[j];
    DepthSide(t, d, i);
    DepthSide(t, d, j);
    if i < n <= j {
      AcrossIncreases(t, a, b, k, l);
    } else {
      HoldsKeyBeside(t, a, k);
      HoldsKeyBeside(t, b, l);
      if j < n {
        LevelsIncrease(t.left, d - 1, i, j, k, l);
      } else {
        LevelsIncrease(t.right, d - 1, i - n, j - n, k, l);
      }
    }
  }

  // Which side an entry of a level comes from.
  lemma DepthSide<C>(t: Tree<C>, d: nat, i: nat)
    requires t.Fork? && d > 0 && i < |AtDepth(t, d)|
    ensures var ls, rs, a := AtDepth(t.left, d - 1), AtDepth(t.right, d - 1), AtDepth(t, d)[i];
            && |AtDepth(t, d)| == |ls| + |rs|
            && (if i < |ls| then a == ls[i] && a in Cells(t.left) else a == rs[i - |ls|] && a in Cells(t.right))
  {
    DepthCells(t.left, d - 1);
    DepthCells(t.right, d - 1);
  }

  function Flatten<C>(ls: seq<seq<C>>): seq<C> {
    if ls == [] then [] else Flatten(ls[..|ls| - 1]) + ls[|ls| - 1]
  }

  // The first n levels, concatenated.
  function UpTo<C>(t: Tree<C>, n: nat): seq<C> {
    if n == 0 then [] else UpTo(t, n - 1) + AtDepth(t, n - 1)
  }

  ghost function Bag<C>(t: Tree<C>): multiset<C> {
    if t.Empty? then multiset{} else Bag(t.left) + multiset{t.cell} + Bag(t.right)
  }

  lemma {:induction false} FlattenIsUpTo<C>(t: Tree<C>, n: nat)
    ensures Flatten(seq(n, d requires 0 <= d => AtDepth(t, d))) == UpTo(t, n)
  {
    if n > 0 {
      var ls := seq(n, d requires 0 <= d => AtDepth(t, d));
      assert ls[..n - 1] == seq(n - 1, d requires 0 <= d => AtDepth(t, d));
      FlattenIsUpTo(t, n - 1);
    }
  }

  lemma UpToNothing<C>(t: Tree<C>)
    ensures UpTo(t, 0) == []
  {
  }

  lemma {:induction false} UpToSplits<C>(t: Tree<C>, n: nat)
    requires t.Fork?
    ensures multiset(UpTo(t, n + 1)) == multiset(UpTo(t.left, n)) + multiset{t.cell} + multiset(UpTo(t.right, n))
  {
    if n == 0 {
      UpToNothing(t.left);
      UpToNothing(t.right);
      UpToNothing(t);
      assert UpTo(t, 1) == UpTo(t, 0) + AtDepth(t, 0) == [t.cell];
    } else {
      var m := n - 1;
      UpToSplits(t, m);
      UpToNext(t, n);
      UpToNext(t.left, m);
      UpToNext(t.right, m);
      Regroup(multiset(UpTo(t.left, m)), multiset(UpTo(t.right, m)), multiset{t.cell},
              multiset(AtDepth(t.left, m)), multiset(AtDepth(t.right, m)));
    }
  }

  lemma Regroup<C>(a: multiset<C>, b: multiset<C>, x: multiset<C>, l: multiset<C>, r: multiset<C>)
    ensures (a + x + b) + (l + r) == (a + l) + x + (b + r)
  {
  }

  lemma UpToNext<C>(t: Tree<C>, n: nat)
    ensures multiset(UpTo(t, n + 1)) == multiset(UpTo(t, n)) + multiset(AtDepth(t, n))
    ensures t.Fork? && n > 0 ==> multiset(AtDepth(t, n)) == multiset(AtDepth(t.left, n - 1)) + multiset(AtDepth(t.right, n - 1))
  {
  }

  lemma {:induction false} UpToIsBag<C>(t: Tree<C>, n: nat)
    requires n >= Height(t)
    ensures multiset(UpTo(t, n)) == Bag(t)
  {
    if t.Empty? {
      UpToEmpty(t, n);
    } else {
      var m := n - 1;
      UpToIsBag(t.left, m);
      UpToIsBag(t.right, m);
      calc {
        multiset(UpTo(t, m + 1));
        { UpToSplits(t, m); }
        multiset(UpTo(t.left, m)) + multiset{t.cell} + multiset(UpTo(t.right, m));
        Bag(t);
      }
    }
  }

  lemma {:induction false} UpToEmpty<C>(t: Tree<C>, n: nat)
    requires t.Empty?
    ensures UpTo(t, n) == []
  {
    if n > 0 { UpToEmpty(t, n - 1); }
  }

  lemma {:induction false} BagOfDistinct<C>(t: Tree<C>)
    requires Distinct(t)
    ensures Bag(t) == multiset(Cells(t))
  {
    if t.Fork? {
      BagOfDistinct(t.left);
      BagOfDistinct(t.right);
    }
  }

  lemma {:induction false} LevelsFilled<C>(t: Tree<C>, d: nat)
    requires d < Height(t)
    ensures AtDepth(t, d) != []
  {
    if d > 0 {
      if d - 1 < Height(t.left) { LevelsFilled(t.left, d - 1); } else { LevelsFilled(t.right, d - 1); }
    }
  }

  // ---- The queue of subtrees the traversal works through --------------------------------

  ghost predicate AllForks<C>(f: seq<Tree<C>>) {
    forall i :: 0 <= i < |f| ==> f[i].Fork?
  }

  function ForestHeight<C>(f: seq<Tree<C>>): nat {
    if f == [] then 0
    else if Height(f[0]) > ForestHeight(f[1..]) then Height(f[0]) else ForestHeight(f[1..])
  }

  function ForestDepth<C>(f: seq<Tree<C>>, d: nat): seq<C> {
    if f == [] then [] else AtDepth(f[0], d) + ForestDepth(f[1..], d)
  }

  function ForestSize<C>(f: seq<Tree<C>>): nat {
    if f == [] then 0 else Size(f[0]) + ForestSize(f[1..])
  }

  function Size<C>(t: Tree<C>): nat {
    if t.Empty? then 0 else Size(t.left) + 1 + Size(t.right)
  }

  function NonEmpty<C>(l: Tree<C>, r: Tree<C>): seq<Tree<C>> {
    (if l.Fork? then [l] else []) + (if r.Fork? then [r] else [])
  }

  function Children<C>(f: seq<Tree<C>>): seq<Tree<C>> {
    if f == [] then []
    else (if f[0].Fork? then NonEmpty(f[0].left, f[0].right) else []) + Children(f[1..])
  }

  /** The level lists of a whole queue, one generation at a time. */
  function Generations<C>(f: seq<Tree<C>>): seq<seq<C>> {
    seq(ForestHeight(f), d requires 0 <= d => ForestDepth(f, d))
  }

  lemma {:induction false} ForestConcat<C>(f: seq<Tree<C>>, g: seq<Tree<C>>, d: nat)
    ensures ForestDepth(f + g, d) == ForestDepth(f, d) + ForestDepth(g, d)
  {
    if f == [] {
      assert f + g == g;
    } else {
      assert (f + g)[1..] == f[1..] + g;
      ForestConcat(f[1..], g, d);
    }
  }

  lemma {:induction false} ForestConcatMeasures<C>(f: seq<Tree<C>>, g: seq<Tree<C>>)
    ensures ForestHeight(f + g) == if ForestHeight(f) > ForestHeight(g) then ForestHeight(f) else ForestHeight(g)
    ensures ForestSize(f + g) == ForestSize(f) + ForestSize(g)
  {
    if f == [] {
      assert f + g == g;
    } else {
      assert (f + g)[1..] == f[1..] + g;
      ForestConcatMeasures(f[1..], g);
    }
  }

  lemma ForestPair<C>(l: Tree<C>, r: Tree<C>, d: nat)
    ensures ForestDepth(NonEmpty(l, r), d) == AtDepth(l, d) + AtDepth(r, d)
    ensures ForestHeight(NonEmpty(l, r)) == if Height(l) > Height(r) then Height(l) else Height(r)
    ensures ForestSize(NonEmpty(l, r)) == Size(l) + Size(r)
  {
    var fl, fr := if l.Fork? then [l] else [], if r.Fork? then [r] else [];
    ForestOne(l, d);
    ForestOne(r, d);
    ForestConcat(fl, fr, d);
    ForestConcatMeasures(fl, fr);
    assert AtDepth(l, d) == ForestDepth(fl, d) && AtDepth(r, d) == ForestDepth(fr, d);
  }

  lemma ForestOne<C>(t: Tree<C>, d: nat)
    ensures ForestDepth([t], d) == AtDepth(t, d)
    ensures ForestHeight([t]) == Height(t)
    ensures ForestSize([t]) == Size(t)
  {
  }

  lemma {:induction false} ChildrenAreNext<C>(f: seq<Tree<C>>, d: nat)
    requires AllForks(f)
    ensures ForestDepth(f, d + 1) == ForestDepth(Children(f), d)
  {
    if f != [] {
      ChildrenAreNext(f[1..], d);
      ForestPair(f[0].left, f[0].right, d);
      ForestConcat(NonEmpty(f[0].left, f[0].right), Children(f[1..]), d);
    }
  }

  lemma {:induction false} ChildrenAreLower<C>(f: seq<Tree<C>>)
    requires AllForks(f) && f != []
    ensures ForestHeight(f) == 1 + ForestHeight(Children(f))
  {
    ForestPair(f[0].left, f[0].right, 0);
    ForestConcatMeasures(NonEmpty(f[0].left, f[0].right), Children(f[1..]));
    if f[1..] != [] { ChildrenAreLower(f[1..]); }
  }

  /** The first generation is the roots of the queue; the others are those of its children. */
  lemma NextGeneration<C>(f: seq<Tree<C>>)
    requires AllForks(f) && f != []
    ensures Generations(f) == [ForestDepth(f, 0)] + Generations(Children(f))
  {
    ChildrenAreLower(f);
    var later := [ForestDepth(f, 0)] + Generations(Children(f));
    forall d | 0 <= d < ForestHeight(f) ensures Generations(f)[d] == later[d] { GenerationAt(f, d); }
  }

  lemma GenerationAt<C>(f: seq<Tree<C>>, d: nat)
    requires AllForks(f) && f != [] && d < ForestHeight(f) == 1 + ForestHeight(Children(f))
    ensures Generations(f)[d] == ([ForestDepth(f, 0)] + Generations(Children(f)))[d]
  {
    if d > 0 { ChildrenAreNext(f, d - 1); }
  }

  lemma GenerationsOfOne<C>(t: Tree<C>)
    ensures Generations([t]) == Levels(t)
  {
    ForestOne(t, 0);
    forall d | 0 <= d < Height(t) ensures Generations([t])[d] == Levels(t)[d] { ForestOne(t, d); }
  }

  /** The level lists still to come from the queue `cur + next`, with `done` part of the current level. */
  function Pending<C>(done: seq<C>, cur: seq<Tree<C>>, next: seq<Tree<C>>): seq<seq<C>> {
    [done + ForestDepth(cur, 0)] + Generations(next + Children(cur))
  }

  lemma PendingPop<C>(done: seq<C>, cur: seq<Tree<C>>, next: seq<Tree<C>>)
    requires cur != [] && cur[0].Fork?
    ensures Pending(done, cur, next)
         == Pending(done + [cur[0].cell], cur[1..], next + NonEmpty(cur[0].left, cur[0].right))
    ensures ForestSize(cur[1..] + (next + NonEmpty(cur[0].left, cur[0].right))) + 1 == ForestSize(cur + next)
  {
    var p := cur[0];
    var ch := NonEmpty(p.left, p.right);
    assert next + Children(cur) == (next + ch) + Children(cur[1..]);
    assert done + ForestDepth(cur, 0) == (done + [p.cell]) + ForestDepth(cur[1..], 0);
    ForestConcatMeasures(cur, next);
    ForestConcatMeasures(cur[1..], next + ch);
    ForestConcatMeasures(next, ch);
    ForestPair(p.left, p.right, 0);
  }

  lemma PendingNextLevel<C>(done: seq<C>, next: seq<Tree<C>>)
    requires AllForks(next)
    ensures Pending(done, [], next) == if next == [] then [done] else [done] + Pending([], next, [])
  {
    assert next + Children<C>([]) == next;
    assert done + ForestDepth<C>([], 0) == done;
    if next != [] {
      NextGeneration(next);
      assert [] + Children(next) == Children(next);
      assert [] + ForestDepth(next, 0) == ForestDepth(next, 0);
    }
  }
}
