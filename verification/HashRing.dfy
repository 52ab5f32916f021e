/**
  The consistent-hashing ring: every active node owns `weight` virtual points, and a key
  belongs to the owner of the first point above the key's hash.
 */
module HashRing {
  import opened Decimal
  import opened HashManager
  import opened Sorting

  // ---------- what the ring means ----------

  /** The text hashed for the idx-th virtual point of a node. */
  function VirtualKey(key: string, idx: nat): string {
    key + "-" + ToDecimal(idx)
  }

  ghost predicate HasPoint(hash: string -> int, node: HashNode, p: int) {
    exists idx: nat :: idx < node.weight && hash(VirtualKey(node.key, idx)) == p
  }

  ghost predicate Owned(hash: string -> int, nodes: seq<HashNode>, p: int) {
    exists i :: 0 <= i < |nodes| && HasPoint(hash, nodes[i], p)
  }

  /** When points collide, the node listed first has the point. */
  ghost function Owner(hash: string -> int, nodes: seq<HashNode>, p: int): (node: HashNode)
    requires Owned(hash, nodes, p)
    ensures node in nodes && HasPoint(hash, node, p)
  {
    if HasPoint(hash, nodes[0], p) then nodes[0]
    else
      assert Owned(hash, nodes[1..], p) by {
        var i :| 0 <= i < |nodes| && HasPoint(hash, nodes[i], p);
        assert nodes[1..][i - 1] == nodes[i];
      }
      Owner(hash, nodes[1..], p)
  }

  /** p is the least point strictly above h, or the least point of all when none is above h. */
  ghost predicate IsSuccessor(hash: string -> int, nodes: seq<HashNode>, h: int, p: int) {
    && Owned(hash, nodes, p)
    && (if p > h then forall q :: Owned(hash, nodes, q) && q > h ==> p <= q
        else forall q :: Owned(hash, nodes, q) ==> p <= q <= h)
  }

  /** The node that a key with hash h is routed to. */
  ghost predicate RoutesTo(hash: string -> int, nodes: seq<HashNode>, h: int, node: HashNode) {
    exists p :: IsSuccessor(hash, nodes, h, p) && Owner(hash, nodes, p) == node
  }

  /** A key is routed to at most one node. */
  lemma RouteIsUnique(hash: string -> int, nodes: seq<HashNode>, h: int, a: HashNode, b: HashNode)
    requires RoutesTo(hash, nodes, h, a) && RoutesTo(hash, nodes, h, b)
    ensures a == b
  {
    var p :| IsSuccessor(hash, nodes, h, p) && Owner(hash, nodes, p) == a;
    var q :| IsSuccessor(hash, nodes, h, q) && Owner(hash, nodes, q) == b;
    assert p == q;
  }

  lemma FirstPoint(hash: string -> int, node: HashNode)
    ensures node.weight >= 1 <==> exists p :: HasPoint(hash, node, p)
  {
    if node.weight >= 1 {
      assert HasPoint(hash, node, hash(VirtualKey(node.key, 0)));
    }
  }

  // ---------- how routes move when nodes come and go ----------

  lemma OwnedInTail(hash: string -> int, nodes: seq<HashNode>, p: int)
    requires nodes != []
    ensures Owned(hash, nodes, p) <==> HasPoint(hash, nodes[0], p) || Owned(hash, nodes[1..], p)
  {
    if Owned(hash, nodes, p) && !HasPoint(hash, nodes[0], p) {
      var i :| 0 <= i < |nodes| && HasPoint(hash, nodes[i], p);
      assert nodes[1..][i - 1] == nodes[i];
    }
    if Owned(hash, nodes[1..], p) {
      var i :| 0 <= i < |nodes[1..]| && HasPoint(hash, nodes[1..][i], p);
      assert nodes[i + 1] == nodes[1..][i];
    }
  }

  /** Taking a node away removes no point of another node and changes no other ownership. */
  lemma {:induction false} OwnerWithout(hash: string -> int, nodes: seq<HashNode>, node: HashNode, p: int)
    requires Distinct(nodes)
    ensures Owned(hash, Without(nodes, node), p) ==> Owned(hash, nodes, p)
    ensures Owned(hash, nodes, p) && Owner(hash, nodes, p) != node ==>
      Owned(hash, Without(nodes, node), p) && Owner(hash, Without(nodes, node), p) == Owner(hash, nodes, p)
  {
    if nodes != [] {
      OwnedInTail(hash, nodes, p);
      var rest := Without(nodes, node);
      if nodes[0] != node {
        assert rest[1..] == Without(nodes[1..], node);
        OwnedInTail(hash, rest, p);
        OwnerWithout(hash, nodes[1..], node, p);
      }
    }
  }

  /** Removing or disabling a node leaves every key it did not own where it was. */
  lemma RemovalMovesOnlyItsOwnKeys(hash: string -> int, nodes: seq<HashNode>, node: HashNode, h: int, owner: HashNode)
    requires Distinct(nodes) && RoutesTo(hash, nodes, h, owner) && owner != node
    ensures RoutesTo(hash, Without(nodes, node), h, owner)
  {
    var p :| IsSuccessor(hash, nodes, h, p) && Owner(hash, nodes, p) == owner;
    OwnerWithout(hash, nodes, node, p);
    forall q | Owned(hash, Without(nodes, node), q)
      ensures Owned(hash, nodes, q)
    {
      OwnerWithout(hash, nodes, node, q);
    }
    assert IsSuccessor(hash, Without(nodes, node), h, p);
  }

  /** Adding or enabling a node moves keys to that node only. */
  lemma AdditionMovesKeysOnlyToTheNewNode(hash: string -> int, nodes: seq<HashNode>, node: HashNode, h: int, owner: HashNode)
    requires Distinct(nodes) && node !in nodes
    requires RoutesTo(hash, nodes + [node], h, owner)
    ensures owner == node || RoutesTo(hash, nodes, h, owner)
  {
    if owner != node {
      RemovalMovesOnlyItsOwnKeys(hash, nodes + [node], node, h, owner);
      WithoutLast(nodes, node);
    }
  }

  /** Points and first owners once a node has gone to the end of the list. */
  lemma {:induction false} OwnerAtEnd(hash: string -> int, nodes: seq<HashNode>, node: HashNode, p: int)
    ensures Owned(hash, nodes + [node], p) <==> Owned(hash, nodes, p) || HasPoint(hash, node, p)
    ensures Owned(hash, nodes, p) ==> Owner(hash, nodes + [node], p) == Owner(hash, nodes, p)
    ensures !Owned(hash, nodes, p) && HasPoint(hash, node, p) ==> Owner(hash, nodes + [node], p) == node
  {
    var all := nodes + [node];
    OwnedInTail(hash, all, p);
    if nodes == [] {
      assert all[1..] == [];
    } else {
      assert all[1..] == nodes[1..] + [node];
      OwnedInTail(hash, nodes, p);
      OwnerAtEnd(hash, nodes[1..], node, p);
    }
  }

  lemma OwnedByNodeOrOthers(hash: string -> int, nodes: seq<HashNode>, node: HashNode, p: int)
    requires Distinct(nodes) && node in nodes
    ensures Owned(hash, nodes, p) <==> Owned(hash, Without(nodes, node), p) || HasPoint(hash, node, p)
  {
    OwnerWithout(hash, nodes, node, p);
  }

  /**
    Disabling a node and enabling it again sends it to the end of the list. The route of h
    comes back exactly when it did not end on a point the node shares with another one.
   */
  lemma ReenablingRestoresRoutesIffNoSharedPoint(
    hash: string -> int, nodes: seq<HashNode>, node: HashNode, h: int, p: int)
    requires Distinct(nodes) && node in nodes && IsSuccessor(hash, nodes, h, p)
    ensures RoutesTo(hash, Without(nodes, node) + [node], h, Owner(hash, nodes, p))
      <==> !(Owner(hash, nodes, p) == node && Owned(hash, Without(nodes, node), p))
  {
    var others := Without(nodes, node);
    WithoutStaysDistinct(nodes, node);
    forall q
      ensures Owned(hash, others + [node], q) <==> Owned(hash, nodes, q)
    {
      OwnedByNodeOrOthers(hash, nodes, node, q);
      OwnerAtEnd(hash, others, node, q);
    }
    assert IsSuccessor(hash, others + [node], h, p);
    OwnerAtEnd(hash, others, node, p);
    OwnerWithout(hash, nodes, node, p);
    var back := Owner(hash, others + [node], p);
    assert RoutesTo(hash, others + [node], h, back);
    if RoutesTo(hash, others + [node], h, Owner(hash, nodes, p)) {
      RouteIsUnique(hash, others + [node], h, back, Owner(hash, nodes, p));
    }
  }

  // ---------- the virtual points, one by one ----------

  /** A node has the points with the numbers from 0 to weight - 1. */
  lemma PointsOfNode(hash: string -> int, node: HashNode, p: int)
    ensures HasPoint(hash, node, p) <==> exists idx: nat :: idx < node.weight && hash(node.key + "-" + ToDecimal(idx)) == p
  {
    if idx: nat :| idx < node.weight && hash(node.key + "-" + ToDecimal(idx)) == p {
      assert hash(VirtualKey(node.key, idx)) == p;
    }
    if HasPoint(hash, node, p) {
      var idx: nat :| idx < node.weight && hash(VirtualKey(node.key, idx)) == p;
      assert hash(node.key + "-" + ToDecimal(idx)) == p;
    }
  }

  /** A point is owned if one of the nodes has it, and its owner is the first of them. */
  lemma {:induction false} PointIsOwned(hash: string -> int, nodes: seq<HashNode>, p: int, i: nat, idx: nat)
    requires i < |nodes| && idx < nodes[i].weight && hash(nodes[i].key + "-" + ToDecimal(idx)) == p
    ensures Owned(hash, nodes, p)
    ensures (forall j, k: nat :: 0 <= j < i && k < nodes[j].weight ==> hash(nodes[j].key + "-" + ToDecimal(k)) != p) ==>
      Owner(hash, nodes, p) == nodes[i]
  {
    PointsOfNode(hash, nodes[i], p);
    PointsOfNode(hash, nodes[0], p);
    if i > 0 {
      var rest := nodes[1..];
      assert forall j :: 0 <= j < |rest| ==> rest[j] == nodes[j + 1];
      PointIsOwned(hash, rest, p, i - 1, idx);
    }
  }

  // ---------- the ring itself ----------

  datatype Lookup = NoNodes | Found(node: HashNode) | IndexError

  class HashRing {
    const hash: string -> int
    const manager: HashManager
    var lookupTable: map<int, HashNode>
    var sortedKeys: seq<int>

    /** The registry is consistent and the index is the one its active nodes call for. */
    ghost predicate Valid()
      reads this, manager, manager.objects.Values
    {
      manager.Valid() && Indexed()
    }

    ghost predicate Indexed()
      reads this, manager
    {
      && (forall p :: p in lookupTable <==> Owned(hash, manager.nodes, p))
      && (forall p :: p in lookupTable ==> lookupTable[p] == Owner(hash, manager.nodes, p))
      && Ascending(sortedKeys)
      && (forall p :: p in lookupTable <==> p in sortedKeys)
    }

    constructor (hash: string -> int, md5: string -> int)
      ensures Valid() && fresh(manager) && manager.md5 == md5 && this.hash == hash
      ensures manager.objects == map[] && manager.nodes == []
    {
      this.hash := hash;
      manager := new HashManager(md5);
      lookupTable := map[];
      sortedKeys := [];
    }

    /** Rebuilds the index from scratch; the first node to claim a point keeps it. */
    method Rehash()
      modifies this
      ensures Indexed()
    {
      lookupTable, sortedKeys := map[], [];
      if manager.nodes == [] {
        return;
      }
      var nodes := manager.nodes;
      ghost var done: seq<HashNode> := [];
      for i := 0 to |nodes|
        invariant nodes == manager.nodes && done == nodes[..i]
        invariant forall p :: p in lookupTable <==> Owned(hash, done, p)
        invariant forall p :: p in lookupTable ==> lookupTable[p] == Owner(hash, done, p)
      {
        var node := nodes[i];
        ghost var before := lookupTable;
        var idx := 0;
        while idx < node.weight
          invariant 0 <= idx && nodes == manager.nodes
          invariant forall p :: p in lookupTable <==> p in before || ClaimedBy(node, idx, p)
          invariant forall p :: p in lookupTable ==> lookupTable[p] == if p in before then before[p] else node
        {
          var virtualKey := hash(VirtualKey(node.key, idx));
          ghost var earlier := lookupTable;
          if virtualKey !in lookupTable {
            lookupTable := lookupTable[virtualKey := node];
          }
          idx := idx + 1;
          assert forall p :: ClaimedBy(node, idx, p) <==> ClaimedBy(node, idx - 1, p) || p == virtualKey;
        }
        forall p
          ensures ClaimedBy(node, idx, p) <==> HasPoint(hash, node, p)
        {
        }
        forall p
          ensures p in lookupTable <==> Owned(hash, done + [node], p)
          ensures p in lookupTable ==> lookupTable[p] == Owner(hash, done + [node], p)
        {
          OwnerAtEnd(hash, done, node, p);
        }
        done := done + [node];
      }
      assert done == manager.nodes;
      sortedKeys := Sorted(lookupTable.Keys);
    }

    /** The index holds exactly the points numbered from 0 to weight - 1 of the active nodes. */
    lemma IndexedPoints(p: int)
      requires Indexed()
      ensures p in lookupTable <==> p in sortedKeys
      ensures p in lookupTable <==>
        exists i, idx: nat :: 0 <= i < |manager.nodes| && idx < manager.nodes[i].weight
          && hash(manager.nodes[i].key + "-" + ToDecimal(idx)) == p
    {
      if p in lookupTable {
        var i :| 0 <= i < |manager.nodes| && HasPoint(hash, manager.nodes[i], p);
        PointsOfNode(hash, manager.nodes[i], p);
      }
      hide HasPoint, Owner;
      if i: nat, idx: nat :| (i < |manager.nodes| && idx < manager.nodes[i].weight
          && hash(manager.nodes[i].key + "-" + ToDecimal(idx)) == p) {
        PointIsOwned(hash, manager.nodes, p, i, idx);
      }
    }

    /** And each point with the first node that has it. */
    lemma IndexedNode(i: nat, idx: nat)
      requires Indexed() && i < |manager.nodes| && idx < manager.nodes[i].weight
      requires var p := hash(manager.nodes[i].key + "-" + ToDecimal(idx));
        forall j, k: nat :: 0 <= j < i && k < manager.nodes[j].weight ==> hash(manager.nodes[j].key + "-" + ToDecimal(k)) != p
      ensures var p := hash(manager.nodes[i].key + "-" + ToDecimal(idx));
        p in lookupTable && lookupTable[p] == manager.nodes[i]
    {
      PointIsOwned(hash, manager.nodes, hash(manager.nodes[i].key + "-" + ToDecimal(idx)), i, idx);
    }

    /** Every point of every active node is there, the last one too. */
    lemma PointsAreIndexed(i: nat, idx: nat)
      requires Indexed() && i < |manager.nodes| && idx < manager.nodes[i].weight
      ensures hash(manager.nodes[i].key + "-" + ToDecimal(idx)) in sortedKeys
    {
      PointIsOwned(hash, manager.nodes, hash(manager.nodes[i].key + "-" + ToDecimal(idx)), i, idx);
    }

    /** p is one of the first n virtual points of the node. */
    ghost predicate ClaimedBy(node: HashNode, n: nat, p: int) {
      exists idx: nat :: idx < n && idx < node.weight && hash(VirtualKey(node.key, idx)) == p
    }

    /**
      Looking a key up agrees with the scan for its successor. It fails on a non-empty list of
      nodes exactly when no node has a virtual point, that is when every weight is below 1.
     */
    method GetNode(key: string) returns (r: Lookup)
      requires Valid()
      ensures r == NoNodes <==> manager.nodes == []
      ensures r == IndexError <==> manager.nodes != [] && forall n :: n in manager.nodes ==> n.weight < 1
      ensures r.Found? ==> RoutesTo(hash, manager.nodes, hash(key), r.node)
      ensures r.Found? ==>
        exists p :: (
          && p in lookupTable && lookupTable[p] == r.node
          && (if p > hash(key) then forall q :: q in lookupTable && q > hash(key) ==> p <= q
              else forall q :: q in lookupTable ==> p <= q <= hash(key)))
    {
      if manager.nodes == [] {
        return NoNodes;
      }
      var virtualKey := hash(key);
      var pos := Bisect(sortedKeys, virtualKey);
      if sortedKeys == [] {
        forall i | 0 <= i < |manager.nodes|
          ensures manager.nodes[i].weight < 1
        {
          FirstPoint(hash, manager.nodes[i]);
          assert forall p :: HasPoint(hash, manager.nodes[i], p) ==> p in lookupTable;
        }
        return IndexError;
      }
      var p := sortedKeys[if pos < |sortedKeys| then pos else 0];
      assert p in sortedKeys;
      forall q | Owned(hash, manager.nodes, q)
        ensures q in sortedKeys
      {
      }
      assert IsSuccessor(hash, manager.nodes, virtualKey, p);
      r := Found(lookupTable[p]);
      assert p in lookupTable;
      assert if p > virtualKey then forall q :: q in lookupTable && q > virtualKey ==> p <= q
        else forall q :: q in lookupTable ==> p <= q <= virtualKey;
      assert HasPoint(hash, r.node, p);
    }

    method AddNode(node: HashNode)
      requires Valid() && node.hashedKey == manager.md5(node.key) && manager.NoCollision(node.key)
      modifies this, manager
      ensures Valid()
      ensures manager.objects == old(if node.key in manager.objects then manager.objects else manager.objects[node.key := node])
      ensures manager.nodes == old(if node.key !in manager.objects && node.enabled then manager.nodes + [node] else manager.nodes)
      ensures forall h: int, owner: HashNode :: owner != node && RoutesTo(hash, manager.nodes, h, owner) ==>
        RoutesTo(hash, old(manager.nodes), h, owner)
    {
      ghost var before := manager.nodes;
      var rehash := manager.AddNode(node);
      if rehash {
        Rehash();
        assert node !in before;
        forall h: int, owner: HashNode | owner != node && RoutesTo(hash, manager.nodes, h, owner)
          ensures RoutesTo(hash, before, h, owner)
        {
          AdditionMovesKeysOnlyToTheNewNode(hash, before, node, h, owner);
        }
      }
    }

    method RemoveNode(node: HashNode)
      requires Valid() && node.hashedKey == manager.md5(node.key) && manager.NoCollision(node.key)
      modifies this, manager
      ensures Valid() && manager.objects == old(manager.objects) - {node.key}
      ensures manager.nodes == old(if node.key in manager.objects then Without(manager.nodes, manager.objects[node.key]) else manager.nodes)
      ensures forall h: int, owner: HashNode :: RoutesTo(hash, old(manager.nodes), h, owner) && owner.key != node.key ==>
        RoutesTo(hash, manager.nodes, h, owner)
    {
      ghost var before, registered := manager.nodes, manager.objects;
      manager.RemoveNode(node);
      Rehash();
      forall h: int, owner: HashNode | RoutesTo(hash, before, h, owner) && owner.key != node.key
        ensures RoutesTo(hash, manager.nodes, h, owner)
      {
        if node.key in registered {
          RemovalMovesOnlyItsOwnKeys(hash, before, registered[node.key], h, owner);
        }
      }
    }

    method EnableNode(key: string)
      requires Valid()
      modifies this, manager, if key in manager.objects then {manager.objects[key]} else {}
      ensures Valid() && manager.objects == old(manager.objects)
      ensures key in manager.objects ==> manager.objects[key].enabled
      ensures manager.nodes == old(manager.nodes)
        + if key in manager.objects && old(!manager.objects[key].enabled) then [manager.objects[key]] else []
      ensures forall h: int, owner: HashNode :: owner.key != key && RoutesTo(hash, manager.nodes, h, owner) ==>
        RoutesTo(hash, old(manager.nodes), h, owner)
    {
      ghost var before := manager.nodes;
      var rehash := manager.EnableNode(key);
      if rehash {
        Rehash();
        forall h: int, owner: HashNode | owner.key != key && RoutesTo(hash, manager.nodes, h, owner)
          ensures RoutesTo(hash, before, h, owner)
        {
          AdditionMovesKeysOnlyToTheNewNode(hash, before, manager.objects[key], h, owner);
        }
      }
    }

    method DisableNode(key: string)
      requires Valid()
      modifies this, manager, if key in manager.objects then {manager.objects[key]} else {}
      ensures Valid() && manager.objects == old(manager.objects)
      ensures key in manager.objects ==> !manager.objects[key].enabled && manager.objects[key] !in manager.nodes
      ensures manager.nodes == if key in manager.objects then Without(old(manager.nodes), manager.objects[key]) else old(manager.nodes)
      ensures forall h: int, owner: HashNode :: RoutesTo(hash, old(manager.nodes), h, owner) && owner.key != key ==>
        RoutesTo(hash, manager.nodes, h, owner)
    {
      ghost var before := manager.nodes;
      var rehash := manager.DisableNode(key);
      if rehash {
        Rehash();
        forall h: int, owner: HashNode | RoutesTo(hash, before, h, owner) && owner.key != key
          ensures RoutesTo(hash, manager.nodes, h, owner)
        {
          RemovalMovesOnlyItsOwnKeys(hash, before, manager.objects[key], h, owner);
        }
      }
    }

    method Reset()
      requires Valid()
      modifies this, manager
      ensures Valid() && manager.objects == map[] && manager.nodes == []
      ensures lookupTable == map[] && sortedKeys == []
    {
      manager.Reset();
      lookupTable, sortedKeys := map[], [];
    }

    method Apply(call: Call, ghost universe: set<HashNode>)
      requires Valid() && manager.Within(universe) && Universe(manager.md5, universe) && Meets(call, universe)
      modifies this, manager, universe
      ensures Valid() && manager.Within(universe)
      ensures manager.Holds(universe) == AfterCall(old(manager.Holds(universe)), call)
    {
      hide RoutesTo, HashRing.Valid, HashManager.Valid, Universe, Without, HashManager.NoCollision;
      if call.Enable? || call.Disable? {
        Switch(call, universe);
      } else {
        Register(call, universe);
      }
    }

    method Register(call: Call, ghost universe: set<HashNode>)
      requires Valid() && manager.Within(universe) && Universe(manager.md5, universe) && Meets(call, universe)
      requires call.Add? || call.Remove? || call.Reset?
      modifies this, manager
      ensures Valid() && manager.Within(universe)
      ensures manager.Holds(universe) == AfterCall(old(manager.Holds(universe)), call)
    {
      if !call.Reset? { manager.KeysAreToldApart(call.node, universe); }
      hide RoutesTo, HashRing.Valid, HashManager.Valid, Universe, Without, HashManager.NoCollision;
      if call.Add? {
        AddNode(call.node);
      } else if call.Remove? {
        RemoveNode(call.node);
      } else {
        Reset();
      }
    }

    method Switch(call: Call, ghost universe: set<HashNode>)
      requires Valid() && manager.Within(universe) && (call.Enable? || call.Disable?)
      modifies this, manager, universe
      ensures Valid() && manager.Within(universe)
      ensures manager.Holds(universe) == AfterCall(old(manager.Holds(universe)), call)
    {
      hide RoutesTo, HashRing.Valid, HashManager.Valid, Universe, Without, HashManager.NoCollision;
      if call.Enable? {
        EnableNode(call.key);
      } else {
        DisableNode(call.key);
      }
    }

    /** Any sequence of calls keeps registry, active nodes and index in step. */
    method ApplyAll(calls: seq<Call>, ghost universe: set<HashNode>)
      requires Valid() && manager.Within(universe) && Universe(manager.md5, universe)
      requires forall i :: 0 <= i < |calls| ==> Meets(calls[i], universe)
      modifies this, manager, universe
      ensures Valid() && manager.Within(universe)
      ensures manager.Holds(universe) == AfterCalls(old(manager.Holds(universe)), calls)
    {
      ghost var start := manager.Holds(universe);
      assert calls[0..] == calls;
      for i := 0 to |calls|
        invariant Valid() && manager.Within(universe)
        invariant AfterCalls(manager.Holds(universe), calls[i..]) == AfterCalls(start, calls)
      {
        assert calls[i..][1..] == calls[i + 1..];
        Apply(calls[i], universe);
      }
    }
  }
}
