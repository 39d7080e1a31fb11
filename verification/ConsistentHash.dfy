/** The load balancer's ring: virtual nodes on a circle of 2^32 points, a key belongs to the next point. */
module ConsistentHashing {
  import opened Bytes
  import opened Text

  type Ring = map<uint32, string>

  function VirtualName(node: string, i: nat): (r: string)
  {
    node + "#" + Decimal(i)
  }

  /** The points of the first `n` virtual nodes. */
  function PointsUpTo(hash: string -> uint32, n: int, node: string): (r: set<uint32>)
  {
    set i | 0 <= i < n :: hash(VirtualName(node, i))
  }

  lemma PointsAre(hash: string -> uint32, n: int, node: string)
    ensures forall i :: 0 <= i < n ==> hash(node + "#" + Decimal(i)) in PointsUpTo(hash, n, node)
  {
    forall i | 0 <= i < n ensures hash(node + "#" + Decimal(i)) in PointsUpTo(hash, n, node) {
      assert VirtualName(node, i) == node + "#" + Decimal(i);
    }
  }

  /** Names of virtual nodes never coincide, so points are shared only where the hash collides. */
  lemma VirtualNameInjective(m: string, i: nat, n: string, j: nat)
    requires VirtualName(m, i) == VirtualName(n, j)
    ensures m == n && i == j
  {
    var s := VirtualName(m, i);
    NoHash(i);
    NoHash(j);
    assert s[|m|] == '#' && s[|n|] == '#';
    assert s[|m| + 1..] == Decimal(i) && s[|n| + 1..] == Decimal(j);
    forall k | |m| < k < |s| ensures s[k] != '#' { assert s[k] == Decimal(i)[k - |m| - 1]; }
    forall k | |n| < k < |s| ensures s[k] != '#' { assert s[k] == Decimal(j)[k - |n| - 1]; }
    assert |m| == |n|;
    assert s[..|m|] == m && s[..|n|] == n;
    DecimalInjective(i, j);
  }

  lemma {:induction false} NoHash(n: nat)
    ensures '#' !in Decimal(n)
  {
    if n >= 10 { NoHash(n / 10); }
  }

  // ---------- The owner of a key ----------

  /** Clockwise steps from just past `h` to `p`. */
  function Distance(h: uint32, p: uint32): (d: nat)
  {
    (p - h - 1) % TWO_32
  }

  lemma DistanceInjective(h: uint32, p: uint32, q: uint32)
    requires Distance(h, p) == Distance(h, q)
    ensures p == q
  {
    DistanceExactly(h, p);
    DistanceExactly(h, q);
  }

  lemma DistanceExactly(h: uint32, p: uint32)
    ensures Distance(h, p) == if p > h then p - h - 1 else p - h - 1 + 0x1_0000_0000
  {
  }

  predicate Closest(points: set<uint32>, h: uint32, p: uint32)
  {
    p in points && forall q :: q in points ==> Distance(h, p) <= Distance(h, q)
  }

  lemma {:induction false} HasClosest(points: set<uint32>, h: uint32)
    requires points != {}
    ensures exists p :: Closest(points, h, p)
    decreases points
  {
    hide Distance;
    var p :| p in points;
    if points == {p} {
      assert Closest(points, h, p);
    } else {
      var rest := points - {p};
      HasClosest(rest, h);
      var q :| Closest(rest, h, q);
      var best := if Distance(h, p) <= Distance(h, q) then p else q;
      forall x | x in points ensures Distance(h, best) <= Distance(h, x) {
        assert x == p || x in rest;
      }
      assert Closest(points, h, best);
    }
  }

  lemma ClosestUnique(points: set<uint32>, h: uint32, p: uint32, q: uint32)
    requires Closest(points, h, p) && Closest(points, h, q)
    ensures p == q
  {
    DistanceInjective(h, p, q);
  }

  /** The point that owns hash value `h`. */
  ghost function Successor(r: Ring, h: uint32): (p: uint32)
    requires r != map[]
    ensures Closest(r.Keys, h, p)
  {
    assert r.Keys != {} by { var k :| k in r; assert k in r.Keys; }
    HasClosest(r.Keys, h);
    var p :| Closest(r.Keys, h, p);
    p
  }

  ghost function Owner(r: Ring, h: uint32): (node: string)
  {
    if r == map[] then "" else r[Successor(r, h)]
  }

  // ---------- Adding and removing ----------

  function Add(r: Ring, points: set<uint32>, node: string): (t: Ring)
  {
    r + map p | p in points :: node
  }

  function Remove(r: Ring, points: set<uint32>): (t: Ring)
  {
    r - points
  }

  /** A key goes to the new node or stays where it was, collisions or not. */
  lemma AddMovesOnlyToNew(r: Ring, points: set<uint32>, node: string, h: uint32)
    ensures Owner(Add(r, points, node), h) == node || Owner(Add(r, points, node), h) == Owner(r, h)
    ensures var t := Add(r, points, node);
            t != map[] ==> (Owner(t, h) == Owner(r, h) || Successor(t, h) in points)
  {
    hide Distance;
    var t := Add(r, points, node);
    assert t.Keys == r.Keys + points;
    if t != map[] && Successor(t, h) !in points {
      assert Successor(t, h) in r;
      ClosestUnique(r.Keys, h, Successor(t, h), Successor(r, h));
    } else if t == map[] {
      assert r.Keys == {};
    }
  }

  /** A key whose point survives keeps it; a key whose point goes moves. */
  lemma RemoveKeepsSuccessor(r: Ring, points: set<uint32>, h: uint32)
    requires r != map[]
    ensures Successor(r, h) in points ==> Remove(r, points) == map[] || Successor(Remove(r, points), h) != Successor(r, h)
    ensures Successor(r, h) !in points ==> Remove(r, points) != map[] && Successor(Remove(r, points), h) == Successor(r, h)
  {
    hide Distance;
    var t := Remove(r, points);
    if Successor(r, h) !in points {
      assert Successor(r, h) in t;
      ClosestUnique(t.Keys, h, Successor(r, h), Successor(t, h));
    }
  }

  /** No point of `node` has been taken over by another node. */
  predicate Unshared(r: Ring, points: set<uint32>, node: string)
  {
    forall p :: p in r && p in points ==> r[p] == node
  }

  /** Minimal disruption: only keys the removed node owned move. */
  lemma RemoveMovesOnlyOwn(r: Ring, points: set<uint32>, node: string, h: uint32)
    requires Unshared(r, points, node) && Owner(r, h) != node
    ensures Owner(Remove(r, points), h) == Owner(r, h)
  {
    if r != map[] {
      RemoveKeepsSuccessor(r, points, h);
    } else {
      assert Remove(r, points) == map[];
    }
  }

  /** Seen from anywhere short of the point `s`, what lies beyond `s` is as far as seen from just before it. */
  lemma DistanceBeyond(h: uint32, s: uint32, q: uint32)
    requires Distance(h, s) <= Distance(h, q)
    ensures Distance(h, q) == Distance(h, s) + Distance(Before(s), q)
  {
    DistanceExactly(h, s);
    DistanceExactly(h, q);
    DistanceExactly(Before(s), q);
  }

  lemma SuccessorBeyond(points: set<uint32>, h: uint32, s: uint32, p: uint32)
    requires forall q :: q in points ==> Distance(h, s) <= Distance(h, q)
    requires Closest(points, Before(s), p)
    ensures Closest(points, h, p)
  {
    hide Distance, Before;
    forall q | q in points ensures Distance(h, p) <= Distance(h, q) {
      DistanceBeyond(h, s, p);
      DistanceBeyond(h, s, q);
    }
  }

  /** A key whose point goes is owned afterwards like the key just before that point. */
  lemma LostPointOwner(r: Ring, points: set<uint32>, h: uint32)
    requires r != map[]
    ensures Owner(Remove(r, points), h) == Owner(Remove(r, points), Before(Successor(r, h)))
         || Successor(r, h) !in points
  {
    hide Distance, Before;
    var t, s := Remove(r, points), Successor(r, h);
    if t != map[] {
      var p := Successor(t, Before(s));
      SuccessorBeyond(t.Keys, h, s, p);
      ClosestUnique(t.Keys, h, p, Successor(t, h));
    }
  }

  /** Removal moves only keys the node owned, exactly if at every point taken from another node the next
      point left belongs to that other node too. */
  lemma RemoveMovesOnlyOwnExactly(r: Ring, points: set<uint32>, node: string)
    ensures (forall h: uint32 :: Owner(r, h) != node ==> Owner(Remove(r, points), h) == Owner(r, h))
       <==> (forall p :: p in r && p in points && r[p] != node ==> Owner(Remove(r, points), Before(p)) == r[p])
  {
    hide Distance, Before, Successor;
    var t := Remove(r, points);
    if forall p :: p in r && p in points && r[p] != node ==> Owner(t, Before(p)) == r[p] {
      forall h: uint32 | Owner(r, h) != node ensures Owner(t, h) == Owner(r, h) {
        if r != map[] {
          SuccessorIsPoint(r, h);
          RemoveKeepsSuccessor(r, points, h);
          LostPointOwner(r, points, h);
        } else {
          assert t == map[];
        }
      }
    }
    if forall h: uint32 :: Owner(r, h) != node ==> Owner(t, h) == Owner(r, h) {
      forall p | p in r && p in points && r[p] != node ensures Owner(t, Before(p)) == r[p] {
        BeforeReaches(r, p);
        assert Owner(r, Before(p)) != node;
      }
    }
  }

  lemma SuccessorIsPoint(r: Ring, h: uint32)
    requires r != map[]
    ensures Successor(r, h) in r
  {
  }

  /** The hash value just before point `p`. */
  function Before(p: uint32): (h: uint32)
    ensures Distance(h, p) == 0
  {
    if p == 0 then 0xffff_ffff else p - 1
  }

  lemma BeforeReaches(r: Ring, p: uint32)
    requires p in r
    ensures Successor(r, Before(p)) == p
  {
    assert Closest(r.Keys, Before(p), p);
    ClosestUnique(r.Keys, Before(p), p, Successor(r, Before(p)));
  }

  /** A hash under which the only virtual nodes of "a" and "b" fall on the same point. */
  function CollidingHash(): (hash: string -> uint32)
  {
    key => if key == "a#0" || key == "b#0" then 10 else 50
  }

  lemma CollidingPoints()
    ensures var h := CollidingHash();
            PointsUpTo(h, 1, "a") == {10} && PointsUpTo(h, 1, "b") == {10} && PointsUpTo(h, 1, "c") == {50}
  {
    assert VirtualName("a", 0) == "a#0" && VirtualName("b", 0) == "b#0" && VirtualName("c", 0)[0] == 'c';
  }

  lemma OwnerIs(r: Ring, h: uint32, p: uint32)
    requires Closest(r.Keys, h, p)
    ensures Owner(r, h) == r[p]
  {
    hide Distance;
    ClosestUnique(r.Keys, h, p, Successor(r, h));
  }

  lemma TwoPoints(r: Ring)
    requires r == map[50 := "c", 10 := "a"]
    ensures Owner(r, 7) == "a"
  {
    DistanceExactly(7, 10);
    DistanceExactly(7, 50);
    hide Distance;
    assert r.Keys == {10, 50};
    OwnerIs(r, 7, 10);
  }

  /** With a shared point the claim fails: "a" takes over the point of "b", removing "b" takes it away
      from "a", and its keys go to "c". */
  lemma SharedPointDisturbsOthers()
    ensures (var points := n => PointsUpTo(CollidingHash(), 1, n);
             var r := Add(Add(Add(map[], points("c"), "c"), points("b"), "b"), points("a"), "a");
             Owner(r, 7) == "a" && Owner(Remove(r, points("b")), 7) == "c")
  {
    CollidingPoints();
    hide VirtualName, PointsUpTo, Distance, CollidingHash, Owner, Closest;
    var r0, r1 := Add(map[], {50}, "c"), map[50 := "c", 10 := "b"];
    assert r0 == map[50 := "c"] && Add(r0, {10}, "b") == r1;
    var r := Add(r1, {10}, "a");
    assert r == map[50 := "c", 10 := "a"];
    hide Add;
    TwoPoints(r);
    assert Remove(r, {10}) == map[50 := "c"];
    OnePoint(Remove(r, {10}));
  }

  lemma OnePoint(r: Ring)
    requires r == map[50 := "c"]
    ensures Owner(r, 7) == "c"
  {
    hide Distance;
    assert r.Keys == {50};
    OwnerIs(r, 7, 50);
  }

  /** Removing undoes adding exactly when the node's points were all free. */
  lemma RemoveUndoesAdd(r: Ring, points: set<uint32>, node: string)
    ensures Remove(Add(r, points, node), points) == r <==> points !! r.Keys
  {
    var t := Remove(Add(r, points, node), points);
    assert t.Keys == r.Keys - points;
    if points !! r.Keys { assert t == r; }
  }

  // ---------- Whole histories ----------

  datatype Op = AddNode(node: string) | RemoveNode(node: string)

  function Apply(r: Ring, points: string -> set<uint32>, op: Op): (t: Ring)
  {
    match op
    case AddNode(n) => Add(r, points(n), n)
    case RemoveNode(n) => Remove(r, points(n))
  }

  function Run(points: string -> set<uint32>, ops: seq<Op>): (r: Ring)
  {
    if ops == [] then map[] else Apply(Run(points, ops[..|ops| - 1]), points, ops[|ops| - 1])
  }

  /** The nodes whose last operation was an addition. */
  function Live(ops: seq<Op>): (r: set<string>)
  {
    if ops == [] then {}
    else
      var op, before := ops[|ops| - 1], Live(ops[..|ops| - 1]);
      if op.AddNode? then before + {op.node} else before - {op.node}
  }

  /** Every entry sits on a point of the node it names. */
  predicate OnOwnPoints(r: Ring, points: string -> set<uint32>)
  {
    forall p :: p in r ==> p in points(r[p])
  }

  /** Kept by every history, collisions or not, and so removal leaves nothing to the removed node. */
  lemma {:induction false} RunOnOwnPoints(points: string -> set<uint32>, ops: seq<Op>)
    ensures OnOwnPoints(Run(points, ops), points)
    ensures ops != [] && ops[|ops| - 1].RemoveNode? ==> ops[|ops| - 1].node !in Run(points, ops).Values
  {
    if ops != [] { RunOnOwnPoints(points, ops[..|ops| - 1]); }
  }

  /** No key goes to a node right after its removal. */
  lemma NoKeyForRemoved(points: string -> set<uint32>, ops: seq<Op>, node: string, h: uint32)
    requires Run(points, ops + [RemoveNode(node)]) != map[]
    ensures Owner(Run(points, ops + [RemoveNode(node)]), h) != node
  {
    RunOnOwnPoints(points, ops + [RemoveNode(node)]);
  }

  /** The ring holds exactly the points of the live nodes. */
  ghost predicate Exactly(r: Ring, points: string -> set<uint32>, live: set<string>)
  {
    && (forall p :: p in r ==> r[p] in live && p in points(r[p]))
    && (forall n, p :: n in live && p in points(n) ==> p in r && r[p] == n)
  }

  ghost predicate CollisionFree(points: string -> set<uint32>, ops: seq<Op>)
  {
    forall i, j :: 0 <= i < |ops| && 0 <= j < |ops| && ops[i].node != ops[j].node ==>
      points(ops[i].node) !! points(ops[j].node)
  }

  lemma {:induction false} LiveWereAdded(ops: seq<Op>, n: string)
    requires n in Live(ops)
    ensures exists i :: 0 <= i < |ops| && ops[i].node == n
  {
    var last := |ops| - 1;
    if ops[last].node != n {
      LiveWereAdded(ops[..last], n);
      var i :| 0 <= i < last && ops[..last][i].node == n;
      assert ops[i].node == n;
    }
  }

  /** Without collisions the ring depends only on which nodes are live, not on the order of events. */
  lemma {:induction false} HistoryIndependent(points: string -> set<uint32>, ops: seq<Op>)
    requires CollisionFree(points, ops)
    ensures Exactly(Run(points, ops), points, Live(ops))
  {
    if ops != [] {
      var last := |ops| - 1;
      var before := ops[..last];
      HistoryIndependent(points, before);
      forall n | n in Live(before) && n != ops[last].node ensures points(n) !! points(ops[last].node) {
        LiveWereAdded(before, n);
      }
    }
  }

  lemma ExactlyUnique(r: Ring, t: Ring, points: string -> set<uint32>, live: set<string>)
    requires Exactly(r, points, live) && Exactly(t, points, live)
    ensures r == t
  {
    assert forall p :: p in r ==> p in t && t[p] == r[p];
    assert forall p :: p in t ==> p in r;
  }

  lemma SameNodesSameRing(points: string -> set<uint32>, ops: seq<Op>, others: seq<Op>)
    requires CollisionFree(points, ops) && CollisionFree(points, others) && Live(ops) == Live(others)
    ensures Run(points, ops) == Run(points, others)
  {
    HistoryIndependent(points, ops);
    HistoryIndependent(points, others);
    hide Run, Live, CollisionFree, Exactly;
    ExactlyUnique(Run(points, ops), Run(points, others), points, Live(ops));
  }

  // ---------- The class ----------

  /** `std::map::upper_bound`: the least key above `h`. */
  method UpperBound(ring: Ring, h: uint32) returns (it: Option<uint32>)
    ensures it.None? <==> forall p :: p in ring ==> p <= h
    ensures it.Some? ==> it.value in ring && it.value > h && forall p :: p in ring && p > h ==> it.value <= p
  {
    it := None;
    var keys := ring.Keys;
    while keys != {}
      invariant keys <= ring.Keys
      invariant it.None? ==> forall p :: p in ring && p !in keys ==> p <= h
      invariant it.Some? ==> it.value in ring && it.value > h
      invariant it.Some? ==> forall p :: p in ring && p !in keys && p > h ==> it.value <= p
      decreases keys
    {
      var p :| p in keys;
      keys := keys - {p};
      if p > h && (it.None? || p < it.value) { it := Some(p); }
    }
  }

  /** `std::map::begin`: the least key. */
  method Begin(ring: Ring) returns (it: uint32)
    requires ring != map[]
    ensures it in ring && forall p :: p in ring ==> it <= p
  {
    it :| it in ring.Keys;
    var keys := ring.Keys;
    while keys != {}
      invariant keys <= ring.Keys && it in ring
      invariant forall p :: p in ring && p !in keys ==> it <= p
      decreases keys
    {
      var p :| p in keys;
      keys := keys - {p};
      if p < it { it := p; }
    }
  }

  /** Of the points above the hash the least; if there is none, the least of all. */
  predicate FirstFrom(ring: Ring, h: uint32, p: uint32)
  {
    if exists q :: q in ring && q > h
    then p > h && forall q :: q in ring && q > h ==> p <= q
    else forall q :: q in ring ==> p <= q
  }

  lemma AddOne(r: Ring, points: set<uint32>, node: string, p: uint32)
    ensures Add(r, points, node)[p := node] == Add(r, points + {p}, node)
  {
  }

  lemma AddPuts(r: Ring, points: set<uint32>, node: string)
    ensures forall p :: p in points ==> p in Add(r, points, node) && Add(r, points, node)[p] == node
  {
  }

  class ConsistentHash {
    var hashRing: Ring
    const virtualNodeNum: int
    const getHash: string -> uint32

    constructor (virtualNodeNum: int, getHash: string -> uint32)
      ensures hashRing == map[] && this.virtualNodeNum == virtualNodeNum && this.getHash == getHash
    {
      hashRing := map[];
      this.virtualNodeNum, this.getHash := virtualNodeNum, getHash;
    }

    function Points(node: string): (r: set<uint32>)
    {
      PointsUpTo(getHash, virtualNodeNum, node)
    }

    method AddNode(node: string)
      modifies this
      ensures hashRing == Add(old(hashRing), Points(node), node)
      ensures forall i :: 0 <= i < virtualNodeNum ==>
                getHash(node + "#" + Decimal(i)) in hashRing && hashRing[getHash(node + "#" + Decimal(i))] == node
    {
      assert hashRing == Add(hashRing, {}, node);
      AddPuts(old(hashRing), Points(node), node);
      hide VirtualName, Add;
      var i := 0;
      while i < virtualNodeNum
        invariant 0 <= i && (i <= virtualNodeNum || i == 0)
        invariant hashRing == Add(old(hashRing), PointsUpTo(getHash, i, node), node)
      {
        var p := getHash(VirtualName(node, i));
        assert PointsUpTo(getHash, i + 1, node) == PointsUpTo(getHash, i, node) + {p};
        AddOne(old(hashRing), PointsUpTo(getHash, i, node), node, p);
        hashRing := hashRing[p := node];
        i := i + 1;
      }
      assert PointsUpTo(getHash, i, node) == Points(node);
      PointsAre(getHash, virtualNodeNum, node);
    }

    method RemoveNode(node: string)
      modifies this
      ensures hashRing == Remove(old(hashRing), Points(node))
      ensures forall i :: 0 <= i < virtualNodeNum ==> getHash(node + "#" + Decimal(i)) !in hashRing
    {
      var i := 0;
      while i < virtualNodeNum
        invariant 0 <= i && (i <= virtualNodeNum || i == 0)
        invariant hashRing == Remove(old(hashRing), PointsUpTo(getHash, i, node))
      {
        var p := getHash(VirtualName(node, i));
        assert PointsUpTo(getHash, i + 1, node) == PointsUpTo(getHash, i, node) + {p};
        hashRing := hashRing - {p};
        i := i + 1;
      }
      assert PointsUpTo(getHash, i, node) == Points(node);
      PointsAre(getHash, virtualNodeNum, node);
    }

    /** The code's search - first point above the hash, else the first of all - finds the owner. */
    method GetNode(requestData: string) returns (node: string)
      ensures node == Owner(hashRing, getHash(requestData))
      ensures hashRing == map[] ==> node == ""
      ensures hashRing != map[] ==>
                exists p :: p in hashRing && node == hashRing[p] && FirstFrom(hashRing, getHash(requestData), p)
    {
      if hashRing == map[] { return ""; }
      var h := getHash(requestData);
      var it := UpperBound(hashRing, h);
      var p: uint32;
      if it == None { p := Begin(hashRing); } else { p := it.value; }
      forall q | q in hashRing ensures Distance(h, p) <= Distance(h, q) {
        DistanceExactly(h, p);
        DistanceExactly(h, q);
      }
      ClosestUnique(hashRing.Keys, h, p, Successor(hashRing, h));
      node := hashRing[p];
      assert FirstFrom(hashRing, h, p);
    }
  }
}
