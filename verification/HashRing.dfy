/** utils/consistency.go: the consistent-hash ring, for every hash function into 32-bit positions. */
module HashRing {
  import opened Common

  const POSITIONS := 0x1_0000_0000

  type Pos = p: int | 0 <= p < POSITIONS

  type Circle = map<Pos, string>

  // ---- Ownership: the first position clockwise ------------------------------------------

  /** p is the least position at or after code, or the least of all when there is none. */
  ghost predicate IsSuccessor(ps: set<Pos>, code: Pos, p: Pos) {
    && p in ps
    && forall q :: q in ps ==> if p >= code then q < code || p <= q else q < code && p <= q
  }

  lemma SuccessorUnique(ps: set<Pos>, code: Pos, p: Pos, q: Pos)
    requires IsSuccessor(ps, code, p) && IsSuccessor(ps, code, q)
    ensures p == q
  {
  }

  lemma {:induction false} SuccessorExists(ps: set<Pos>, code: Pos) returns (p: Pos)
    requires ps != {}
    ensures IsSuccessor(ps, code, p)
  {
    var x :| x in ps;
    var rest := ps - {x};
    assert ps == rest + {x};
    if rest == {} {
      p := x;
    } else {
      var y := SuccessorExists(rest, code);
      if x >= code {
        p := if y < code || x < y then x else y;
      } else {
        p := if y < code && x < y then x else y;
      }
    }
  }

  /** The owner of a key whose hash is code. */
  ghost function Owner(circle: Circle, code: Pos): (n: string)
    requires circle != map[]
    ensures exists p :: IsSuccessor(circle.Keys, code, p) && n == circle[p]
  {
    assert circle.Keys != {} by { var p :| p in circle; }
    assert exists p :: IsSuccessor(circle.Keys, code, p) by { var p := SuccessorExists(circle.Keys, code); }
    var p :| IsSuccessor(circle.Keys, code, p);
    circle[p]
  }

  // The position an owner comes from.
  lemma OwnerPosition(circle: Circle, code: Pos) returns (p: Pos)
    requires circle != map[]
    ensures IsSuccessor(circle.Keys, code, p) && Owner(circle, code) == circle[p]
  {
    var n := Owner(circle, code);
    p :| IsSuccessor(circle.Keys, code, p) && n == circle[p];
  }

  lemma OwnerAt(circle: Circle, code: Pos, p: Pos)
    requires IsSuccessor(circle.Keys, code, p)
    ensures circle != map[] && Owner(circle, code) == circle[p]
  {
  }

  function Without(circle: Circle, n: string): Circle {
    map p | p in circle && circle[p] != n :: circle[p]
  }

  /** bigger is smaller with some free positions given to n. */
  ghost predicate Extends(bigger: Circle, smaller: Circle, n: string) {
    && smaller.Keys <= bigger.Keys
    && forall p :: p in bigger ==> if p in smaller then bigger[p] == smaller[p] else bigger[p] == n
  }

  /** Adding a node moves keys only to that node. */
  lemma AddMovesOnlyToNew(before: Circle, after: Circle, n: string, code: Pos)
    requires before != map[] && after != map[] && Extends(after, before, n)
    ensures Owner(after, code) == Owner(before, code) || Owner(after, code) == n
  {
  }

  /** Removing a node changes the owner only of the keys it owned. */
  lemma RemoveMovesOnlyOwned(before: Circle, n: string, code: Pos)
    requires before != map[] && Without(before, n) != map[]
    ensures Owner(before, code) != n ==> Owner(Without(before, n), code) == Owner(before, code)
    ensures Owner(Without(before, n), code) != n
  {
    var after := Without(before, n);
    var q := OwnerPosition(after, code);
    assert q in before;
    var p := OwnerPosition(before, code);
    if before[p] != n { SuccessorUnique(after.Keys, code, p, q); }
  }

  /** Removing undoes adding. */
  lemma RemoveUndoesAdd(before: Circle, after: Circle, n: string)
    requires Extends(after, before, n) && !(exists p :: p in before && before[p] == n)
    ensures Without(after, n) == before
  {
  }

  // ---- Sorted positions -------------------------------------------------------------------

  ghost predicate Increasing(s: seq<Pos>) {
    forall i, j :: 0 <= i < j < |s| ==> s[i] < s[j]
  }

  ghost predicate Lists(s: seq<Pos>, ps: set<Pos>) {
    forall p :: p in s <==> p in ps
  }

  /** A strictly increasing list is determined by its elements. */
  lemma {:induction false} IncreasingUnique(s: seq<Pos>, t: seq<Pos>)
    requires Increasing(s) && Increasing(t) && forall p :: p in s <==> p in t
    ensures s == t
  {
    assert (s != [] ==> s[0] in s) && (t != [] ==> t[0] in t);
    if s != [] && t != [] {
      assert s[0] in t;
      assert t[0] in s;
      assert s[0] == t[0];
      forall p ensures p in s[1..] <==> p in t[1..] {
        if p in s[1..] { assert p in s && p > s[0]; }
        if p in t[1..] { assert p in t && p > t[0]; }
      }
      IncreasingUnique(s[1..], t[1..]);
    }
  }

  // Puts p before the first larger element.
  method Place(s: seq<Pos>, p: Pos) returns (r: seq<Pos>)
    requires Increasing(s) && p !in s
    ensures Increasing(r) && forall q :: q in r <==> q in s || q == p
  {
    var i := 0;
    while i < |s| && s[i] < p
      invariant 0 <= i <= |s| && forall k :: 0 <= k < i ==> s[k] < p
    {
      i := i + 1;
    }
    assert forall k :: i <= k < |s| ==> p < s[k];
    r := s[..i] + [p] + s[i..];
    assert forall q :: q in s <==> q in s[..i] || q in s[i..];
  }

  /** sort.Slice on positions without repetitions. */
  method SortSlice(s: seq<Pos>) returns (r: seq<Pos>)
    requires NoRepeats(s)
    ensures Increasing(r) && forall p :: p in r <==> p in s
  {
    r := [];
    for i := 0 to |s|
      invariant Increasing(r) && forall p :: p in r <==> p in s[..i]
    {
      assert s[i] !in s[..i];
      r := Place(r, s[i]);
      assert s[..i + 1] == s[..i] + [s[i]];
    }
    assert s[..|s|] == s;
  }

  // ---- The ring ---------------------------------------------------------------------------

  /** The probe loop of AddNode ends within k turns. Nothing in the loop changes its position. */
  predicate ProbeEnds(circle: Circle, position: Pos, k: nat) {
    k > 0 && (position !in circle || ProbeEnds(circle, position, k - 1))
  }

  lemma {:induction false} ProbeSpins(circle: Circle, position: Pos, k: nat)
    ensures position in circle ==> !ProbeEnds(circle, position, k)
    ensures position !in circle ==> ProbeEnds(circle, position, k + 1)
  {
    if k > 0 { ProbeSpins(circle, position, k - 1); }
  }

  /** A linear scan for the first position at or after code. */
  function Scan(s: seq<Pos>, code: Pos): (i: nat)
    ensures i <= |s|
  {
    if s == [] || code <= s[0] then 0 else 1 + Scan(s[1..], code)
  }

  lemma {:induction false} ScanIsFirst(s: seq<Pos>, code: Pos, i: nat)
    requires i <= |s|
    requires (forall k :: 0 <= k < i ==> s[k] < code) && (i < |s| ==> code <= s[i])
    ensures i == Scan(s, code)
  {
    if i > 0 {
      ScanIsFirst(s[1..], code, i - 1);
    }
  }

  /** The index GetNode picks from the search result. */
  function IndexAsWritten(s: seq<Pos>, code: Pos): (p: nat)
    requires s != []
    ensures p < |s|
  {
    var position := Scan(s, code);
    if position < |s| then if position == |s| - 1 then 0 else position else |s| - 1
  }

  /** The owner GetNode finds, as written, in a ring with the sorted positions s. */
  ghost function OwnerAsWritten(circle: Circle, s: seq<Pos>, code: Pos): string
    requires s != [] && Lists(s, circle.Keys)
  {
    assert s[IndexAsWritten(s, code)] in s;
    circle[s[IndexAsWritten(s, code)]]
  }

  // Where one new position goes in the sorted list, and the scan with it.
  lemma InsertedAt(s: seq<Pos>, t: seq<Pos>, p: Pos) returns (j: nat)
    requires Increasing(s) && Increasing(t) && p !in s && forall q :: q in t <==> q in s || q == p
    ensures j <= |s| && t == s[..j] + [p] + s[j..]
    ensures (forall k :: 0 <= k < j ==> s[k] < p) && (forall k :: j <= k < |s| ==> p < s[k])
  {
    j := Scan(s, p);
    ScanAt(s, p);
    var u := s[..j] + [p] + s[j..];
    assert forall q :: q in s <==> q in s[..j] || q in s[j..];
    IncreasingUnique(t, u);
  }

  lemma {:induction false} ScanAt(s: seq<Pos>, code: Pos)
    requires Increasing(s)
    ensures forall k :: 0 <= k < Scan(s, code) ==> s[k] < code
    ensures forall k :: Scan(s, code) <= k < |s| ==> code <= s[k]
  {
    if s != [] && code > s[0] {
      ScanAt(s[1..], code);
      forall k | 0 <= k < Scan(s, code) ensures s[k] < code { if k > 0 { assert s[k] == s[1..][k - 1]; } }
      forall k | Scan(s, code) <= k < |s| ensures code <= s[k] { assert s[k] == s[1..][k - 1]; }
    }
  }

  /** The keys whose owner, as written, can change between two old nodes when p is added. */
  predicate Shaken(s: seq<Pos>, p: Pos, code: Pos)
    requires s != []
  {
    s[|s| - 1] < p && code <= p && (|s| == 1 || s[|s| - 2] < code)
  }

  /**
   As written, adding a node at p keeps the owner of a key or gives the key to the new node if
   and only if the key is not shaken or both ends of the old ring have one owner.
   */
  lemma AddMovesAsWritten(circle: Circle, s: seq<Pos>, n: string, p: Pos, t: seq<Pos>, code: Pos)
    requires Increasing(s) && s != [] && Lists(s, circle.Keys) && p !in circle
    requires forall q :: q in circle ==> circle[q] != n
    requires Increasing(t) && Lists(t, circle.Keys + {p})
    ensures t != [] && s[0] in circle && s[|s| - 1] in circle && Lists(t, circle[p := n].Keys)
    ensures var before, after := OwnerAsWritten(circle, s, code), OwnerAsWritten(circle[p := n], t, code);
            (after == before || after == n) <==> (!Shaken(s, p, code) || circle[s[0]] == circle[s[|s| - 1]])
  {
    assert p in t && s[0] in s && s[|s| - 1] in s;
    var j := InsertedAt(s, t, p);
    PositionMoves(s, t, p, j, code);
    var b := s[IndexAsWritten(s, code)];
    assert b in s && b in circle;
  }

  // The position GetNode ends up at, before and after.
  lemma PositionMoves(s: seq<Pos>, t: seq<Pos>, p: Pos, j: nat, code: Pos)
    requires Increasing(s) && s != [] && j <= |s| && t == s[..j] + [p] + s[j..]
    requires (forall k :: 0 <= k < j ==> s[k] < p) && (forall k :: j <= k < |s| ==> p < s[k])
    ensures var b, a, last := s[IndexAsWritten(s, code)], t[IndexAsWritten(t, code)], s[|s| - 1];
            if Shaken(s, p, code) then (a == last && b == s[0]) || (a == s[0] && b == last) else a == b || a == p
  {
    ScanAt(s, code);
    var i := Scan(s, code);
    var i' := if p < code then i + 1 else i;
    assert i < j ==> code <= s[i] < p;
    assert j < i ==> p < s[j] < code;
    forall k | 0 <= k < i' ensures t[k] < code { if k < j { assert t[k] == s[k]; } else if k > j { assert t[k] == s[k - 1]; } }
    if i' < |t| { assert t[i'] == if i' < j then s[i'] else if i' == j then p else s[i' - 1]; }
    ScanIsFirst(t, code, i');
  }

  // As written, adding node "c" at 30 moves a key hashed to 15 from "a" to "b".
  lemma AddMovesBetweenOldNodes()
    ensures var circle: Circle := map[10 := "a", 20 := "b"];
            && circle[[10, 20][IndexAsWritten([10, 20], 15)]] == "a"
            && circle[30 := "c"][[10, 20, 30][IndexAsWritten([10, 20, 30], 15)]] == "b"
            && Owner(circle, 15) == Owner(circle[30 := "c"], 15) == "b"
  {
  }

  /** Every position is owned by a node of the ring. */
  ghost predicate Live(circle: Circle, nodes: set<string>) {
    forall p :: p in circle ==> circle[p] in nodes
  }

  class ConsistentHash {
    var sortNode: seq<Pos>
    const virtualNodeNum: int
    var nodeMap: set<string>
    var circleMap: Circle
    /** crc32.ChecksumIEEE */
    const crc: string -> Pos

    ghost predicate Valid()
      reads this
    {
      Increasing(sortNode) && Lists(sortNode, circleMap.Keys) && Live(circleMap, nodeMap)
    }

    constructor (virtualNodeNum: int, crc: string -> Pos)
      ensures Valid() && circleMap == map[] && nodeMap == {}
      ensures this.virtualNodeNum == virtualNodeNum && this.crc == crc
    {
      sortNode, nodeMap, circleMap := [], {}, map[];
      this.virtualNodeNum, this.crc := virtualNodeNum, crc;
    }

    /**
     As written. Every probe is at crc(n), so the call never returns (see ProbeSpins) when
     it must place two virtual nodes or the position is taken.
     */
    method AddNode(n: string) returns (spins: bool)
      requires Valid()
      modifies this
      ensures spins <==> n !in old(nodeMap) && (virtualNodeNum >= 2 || (virtualNodeNum == 1 && crc(n) in old(circleMap)))
      ensures !spins ==> Valid() && nodeMap == old(nodeMap) + {n} && Extends(circleMap, old(circleMap), n)
      ensures !spins ==> circleMap.Keys - old(circleMap).Keys == if n in old(nodeMap) || virtualNodeNum <= 0 then {} else {crc(n)}
    {
      spins := false;
      if n !in nodeMap {
        nodeMap := nodeMap + {n};
        var i := 0;
        while i < virtualNodeNum
          invariant i == 0 ==> circleMap == old(circleMap) && sortNode == old(sortNode)
          invariant i <= 1 && (i == 1 ==> virtualNodeNum >= 1)
          invariant i == 1 ==> crc(n) !in old(circleMap) && circleMap == old(circleMap)[crc(n) := n]
          invariant i == 1 ==> sortNode == old(sortNode) + [crc(n)]
          invariant nodeMap == old(nodeMap) + {n}
        {
          var position := crc(n);
          if position in circleMap { spins := true; return; }
          circleMap := circleMap[position := n];
          sortNode := sortNode + [position];
          i := i + 1;
        }
      }
      assert NoRepeats(sortNode) && Lists(sortNode, circleMap.Keys);
      sortNode := SortSlice(sortNode);
    }

    /** The loop of RemoveNode: the circle without n's positions, sorted. */
    method Rebuild(n: string)
      modifies this`sortNode, this`circleMap
      ensures circleMap == Without(old(circleMap), n)
      ensures Increasing(sortNode) && Lists(sortNode, circleMap.Keys)
    {
      var newCircle: Circle := map[];
      var newSortNode: seq<Pos> := [];
      var todo := circleMap.Keys;
      while todo != {}
        invariant todo <= circleMap.Keys
        invariant newCircle == map p | p in circleMap.Keys - todo && circleMap[p] != n :: circleMap[p]
        invariant Lists(newSortNode, newCircle.Keys) && NoRepeats(newSortNode)
        decreases todo
      {
        var k :| k in todo;
        todo := todo - {k};
        if circleMap[k] != n {
          assert k !in newCircle && k !in newSortNode;
          newCircle := newCircle[k := circleMap[k]];
          newSortNode := newSortNode + [k];
        }
      }
      circleMap := newCircle;
      sortNode := SortSlice(newSortNode);
    }

    /** As written: the guard lets only absent nodes through, so no call changes anything. */
    method RemoveNode(n: string)
      requires Valid()
      modifies this
      ensures Valid()
      ensures sortNode == old(sortNode) && nodeMap == old(nodeMap) && circleMap == old(circleMap)
    {
      if n !in nodeMap {
        nodeMap := nodeMap - {n};
        assert Without(circleMap, n) == circleMap;
        Rebuild(n);
        IncreasingUnique(sortNode, old(sortNode));
      }
    }

    /** RemoveNode with the guard the right way round. */
    method RemoveNodeRepaired(n: string)
      requires Valid()
      modifies this
      ensures Valid() && nodeMap == old(nodeMap) - {n} && circleMap == Without(old(circleMap), n)
    {
      if n in nodeMap {
        nodeMap := nodeMap - {n};
        Rebuild(n);
      } else {
        assert Without(circleMap, n) == circleMap;
      }
    }

    /** AddNode probing the next position while the current one is taken. */
    method AddNodeRepaired(n: string)
      requires Valid()
      requires n in nodeMap || |circleMap| + virtualNodeNum <= POSITIONS
      modifies this
      ensures Valid() && nodeMap == old(nodeMap) + {n} && Extends(circleMap, old(circleMap), n)
      ensures |circleMap| == |old(circleMap)| + if n in old(nodeMap) || virtualNodeNum < 0 then 0 else virtualNodeNum
      ensures forall p, q: Pos :: p in circleMap && p !in old(circleMap) && Offset(crc(n), q) < Offset(crc(n), p) ==> q in circleMap
    {
      if n !in nodeMap {
        nodeMap := nodeMap + {n};
        for i := 0 to if virtualNodeNum < 0 then 0 else virtualNodeNum
          invariant nodeMap == old(nodeMap) + {n} && Extends(circleMap, old(circleMap), n)
          invariant NoRepeats(sortNode) && Lists(sortNode, circleMap.Keys) && Live(circleMap, nodeMap)
          invariant |circleMap| == |old(circleMap)| + i
          invariant forall p, q: Pos :: p in circleMap && p !in old(circleMap) && Offset(crc(n), q) < Offset(crc(n), p) ==>
                      q in circleMap
        {
          var position := FreePosition(circleMap, crc(n));
          circleMap := circleMap[position := n];
          sortNode := sortNode + [position];
        }
        sortNode := SortSlice(sortNode);
      }
    }

    /** sort.Search: the least index whose position is at or after code. */
    method Search(code: Pos) returns (i: nat)
      requires Increasing(sortNode)
      ensures i == Scan(sortNode, code)
      ensures forall k :: 0 <= k < i ==> sortNode[k] < code
      ensures forall k :: i <= k < |sortNode| ==> code <= sortNode[k]
    {
      i := 0;
      var j := |sortNode|;
      while i < j
        invariant 0 <= i <= j <= |sortNode|
        invariant forall k :: 0 <= k < i ==> sortNode[k] < code
        invariant forall k :: j <= k < |sortNode| ==> code <= sortNode[k]
      {
        var h := (i + j) / 2;
        if sortNode[h] < code {
          i := h + 1;
        } else {
          j := h;
        }
      }
      ScanIsFirst(sortNode, code, i);
    }

    /**
     As written: an empty ring panics. The answer is the clockwise owner exactly when the
     key hashes at or below the last position but one, or both ends have one owner.
     */
    method GetNode(key: string) returns (panicked: bool, owner: string)
      requires Valid()
      ensures panicked <==> circleMap == map[]
      ensures !panicked ==>
                var last := |sortNode| - 1;
                && last >= 0 && owner == circleMap[sortNode[IndexAsWritten(sortNode, crc(key))]]
                && sortNode[0] in circleMap && sortNode[last] in circleMap && owner in nodeMap
                && (owner == Owner(circleMap, crc(key)) <==>
                    (last > 0 && crc(key) <= sortNode[last - 1]) || circleMap[sortNode[0]] == circleMap[sortNode[last]])
    {
      var code := crc(key);
      var position := Search(code);
      panicked, owner := false, "";
      if position < |sortNode| {
        var p := if position == |sortNode| - 1 then 0 else position;
        owner := circleMap[sortNode[p]];
      } else {
        if |sortNode| == 0 { panicked := true; assert forall p :: p !in circleMap; return; }
        owner := circleMap[sortNode[|sortNode| - 1]];
      }
      OwnerAt(circleMap, code, sortNode[if position < |sortNode| then position else 0]);
    }

    /** GetNode wrapping past the last position. */
    method GetNodeRepaired(key: string) returns (panicked: bool, owner: string)
      requires Valid()
      ensures panicked <==> circleMap == map[]
      ensures !panicked ==> owner == Owner(circleMap, crc(key)) && owner in nodeMap
    {
      var code := crc(key);
      var position := Search(code);
      panicked, owner := false, "";
      if |sortNode| == 0 { panicked := true; assert forall p :: p !in circleMap; return; }
      var p := if position == |sortNode| then 0 else position;
      owner := circleMap[sortNode[p]];
      OwnerAt(circleMap, code, sortNode[p]);
    }
  }

  // The first free position at or after start, going round.
  method FreePosition(circle: Circle, start: Pos) returns (p: Pos)
    requires |circle| < POSITIONS
    ensures p !in circle && forall q: Pos :: Offset(start, q) < Offset(start, p) ==> q in circle
  {
    p := start;
    ghost var tried: set<Pos> := {};
    while p in circle
      invariant tried <= circle.Keys && Offset(start, p) == |tried|
      invariant forall q :: q in tried <==> Offset(start, q) < |tried|
      decreases |circle| - |tried|
    {
      tried := tried + {p};
      SubsetSize(tried, circle.Keys);
      p := (p + 1) % POSITIONS;
    }
  }

  // The number of steps from start to q.
  function Offset(start: Pos, q: Pos): (d: nat)
    ensures d < POSITIONS
  {
    if q >= start then q - start else q - start + POSITIONS
  }
}
