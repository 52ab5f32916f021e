/**
  The node registry shared by the ring and the Maglev table (`BaseHashManager`): which
  nodes are registered, and which of them, in which order, take part in hashing.
 */
module HashManager {

  class HashNode {
    const key: string
    const hashedKey: int
    const weight: int
    var enabled: bool

    constructor (md5: string -> int, key: string, weight: int, enabled: bool)
      ensures this.key == key && this.hashedKey == md5(key)
      ensures this.weight == weight && this.enabled == enabled
    {
      this.key := key;
      this.hashedKey := md5(key);
      this.weight := weight;
      this.enabled := enabled;
    }
  }

  ghost predicate Distinct(nodes: seq<HashNode>) {
    forall i, j :: 0 <= i < j < |nodes| ==> nodes[i] != nodes[j]
  }

  /** The list without the given node. */
  function Without(nodes: seq<HashNode>, node: HashNode): (rest: seq<HashNode>)
    ensures forall n :: n in rest ==> n in nodes
    ensures forall n :: n in nodes && n != node ==> n in rest
    ensures node !in nodes ==> rest == nodes
  {
    if nodes == [] then []
    else if nodes[0] == node then assert forall n :: n in nodes[1..] ==> n in nodes; nodes[1..]
    else [nodes[0]] + Without(nodes[1..], node)
  }

  lemma WithoutStaysDistinct(nodes: seq<HashNode>, node: HashNode)
    requires Distinct(nodes)
    ensures Distinct(Without(nodes, node)) && node !in Without(nodes, node)
  {
    if nodes != [] {
      assert forall i :: 1 <= i < |nodes| ==> nodes[i] == nodes[1..][i - 1];
      assert nodes[0] !in nodes[1..];
      WithoutStaysDistinct(nodes[1..], node);
      var rest := Without(nodes[1..], node);
      assert nodes[0] !in rest;
    }
  }

  lemma WithoutLast(nodes: seq<HashNode>, node: HashNode)
    requires node !in nodes
    ensures Without(nodes + [node], node) == nodes
  {
    if nodes == [] {
    } else {
      assert (nodes + [node])[1..] == nodes[1..] + [node];
      WithoutLast(nodes[1..], node);
    }
  }

  lemma {:induction false} RemoveAt(s: seq<HashNode>, i: nat)
    requires i < |s| && Distinct(s)
    ensures s[..i] + s[i + 1..] == Without(s, s[i])
  {
    if i == 0 {
      assert s[..0] + s[1..] == s[1..];
    } else {
      var t := s[1..];
      assert t[i - 1] == s[i] && s[0] != s[i];
      RemoveAt(t, i - 1);
      assert s[..i] == [s[0]] + t[..i - 1];
      assert s[i + 1..] == t[i..];
    }
  }

  // ---------- any sequence of calls ----------

  /** What a manager holds: the registered nodes, the active ones in their order, and all that are enabled. */
  datatype Registry = Registry(objects: map<string, HashNode>, nodes: seq<HashNode>, enabled: set<HashNode>)

  datatype Call = Add(node: HashNode) | Remove(node: HashNode) | Enable(key: string) | Disable(key: string) | Reset

  function AfterCall(r: Registry, call: Call): Registry {
    match call
    case Add(n) =>
      if n.key in r.objects then r
      else r.(objects := r.objects[n.key := n], nodes := if n in r.enabled then r.nodes + [n] else r.nodes)
    case Remove(n) =>
      r.(objects := r.objects - {n.key},
         nodes := if n.key in r.objects then Without(r.nodes, r.objects[n.key]) else r.nodes)
    case Enable(key) =>
      if key !in r.objects then r
      else
        var n := r.objects[key];
        r.(nodes := if n in r.enabled then r.nodes else r.nodes + [n], enabled := r.enabled + {n})
    case Disable(key) =>
      if key !in r.objects then r
      else r.(nodes := Without(r.nodes, r.objects[key]), enabled := r.enabled - {r.objects[key]})
    case Reset => r.(objects := map[], nodes := [])
  }

  function AfterCalls(r: Registry, calls: seq<Call>): Registry
    decreases |calls|
  {
    if calls == [] then r else AfterCalls(AfterCall(r, calls[0]), calls[1..])
  }

  /** A sequence of calls is one call after the other. */
  lemma {:induction false} CallsInParts(r: Registry, a: seq<Call>, b: seq<Call>, call: Call)
    ensures AfterCalls(r, a + b) == AfterCalls(AfterCalls(r, a), b) && AfterCalls(r, [call]) == AfterCall(r, call)
    decreases |a|
  {
    assert [call][1..] == [];
    if a == [] {
      assert a + b == b;
    } else {
      assert (a + b)[1..] == a[1..] + b;
      CallsInParts(AfterCall(r, a[0]), a[1..], b, call);
    }
  }

  /** The nodes that the calls may meet, whose keys MD5 tells apart. */
  ghost predicate Universe(md5: string -> int, nodes: set<HashNode>) {
    && (forall n :: n in nodes ==> n.hashedKey == md5(n.key))
    && (forall m, n :: m in nodes && n in nodes && md5(m.key) == md5(n.key) ==> m.key == n.key)
  }

  ghost predicate Meets(call: Call, nodes: set<HashNode>) {
    call.Add? || call.Remove? ==> call.node in nodes
  }

  /**
    `objects` and `nodes` of a manager. Each method says by its result whether the source
    goes on to call `rehash`; the ring and the Maglev table below do so.
   */
  class HashManager {
    const md5: string -> int
    var objects: map<string, HashNode>
    var nodes: seq<HashNode>

    /** The active nodes are exactly the registered and enabled ones, each listed once. */
    ghost predicate Valid()
      reads this, objects.Values
    {
      && (forall k :: k in objects ==> objects[k].key == k && objects[k].hashedKey == md5(k))
      && (forall k, l :: k in objects && l in objects && md5(k) == md5(l) ==> k == l)
      && Distinct(nodes)
      && (forall n :: n in nodes ==> Registered(n) && n.enabled)
      && (forall k :: k in objects && objects[k].enabled ==> objects[k] in nodes)
    }

    ghost predicate Registered(node: HashNode)
      reads this
    {
      node.key in objects && objects[node.key] == node
    }

    /** What is assumed of MD5: no registered key collides with this one. */
    ghost predicate NoCollision(key: string)
      reads this
    {
      forall k :: k in objects && md5(k) == md5(key) ==> k == key
    }

    /** All registered nodes are among these. */
    ghost predicate Within(nodes: set<HashNode>)
      reads this
    {
      forall k :: k in objects ==> objects[k] in nodes
    }

    lemma KeysAreToldApart(node: HashNode, universe: set<HashNode>)
      requires Valid() && Within(universe) && Universe(md5, universe) && node in universe
      ensures NoCollision(node.key) && node.hashedKey == md5(node.key)
    {
      forall k | k in objects && md5(k) == md5(node.key)
        ensures k == node.key
      {
        assert objects[k] in universe && objects[k].key == k;
      }
    }

    ghost function Holds(universe: set<HashNode>): Registry
      reads this, universe
    {
      Registry(objects, nodes, set n | n in universe && n.enabled)
    }

    constructor (md5: string -> int)
      ensures Valid() && objects == map[] && nodes == [] && this.md5 == md5
    {
      this.md5 := md5;
      objects, nodes := map[], [];
    }

    /** Position of the first active node equal to the given one; nodes are equal when their hashed keys are. */
    method IndexOf(node: HashNode) returns (i: nat)
      ensures i <= |nodes|
      ensures i < |nodes| ==> nodes[i].hashedKey == node.hashedKey
      ensures forall j :: 0 <= j < i ==> nodes[j].hashedKey != node.hashedKey
    {
      i := 0;
      while i < |nodes| && nodes[i].hashedKey != node.hashedKey
        invariant i <= |nodes|
        invariant forall j :: 0 <= j < i ==> nodes[j].hashedKey != node.hashedKey
      {
        i := i + 1;
      }
    }

    /** Appends a new node; a key that is already registered is left alone. */
    method AddNode(node: HashNode) returns (rehash: bool)
      requires Valid() && node.hashedKey == md5(node.key) && NoCollision(node.key)
      modifies this
      ensures Valid()
      ensures old(node.key in objects) ==> !rehash && objects == old(objects) && nodes == old(nodes)
      ensures old(node.key !in objects) ==>
        && rehash == node.enabled
        && objects == old(objects)[node.key := node]
        && nodes == if node.enabled then old(nodes) + [node] else old(nodes)
    {
      if node.key in objects {
        return false;
      }
      objects := objects[node.key := node];
      rehash := node.enabled;
      if node.enabled {
        nodes := nodes + [node];
      }
    }

    /** Unregisters whatever node has this key, enabled or not; the source rehashes in any case. */
    method RemoveNode(node: HashNode)
      requires Valid() && node.hashedKey == md5(node.key) && NoCollision(node.key)
      modifies this
      ensures Valid()
      ensures objects == old(objects) - {node.key}
      ensures nodes == old(if node.key in objects then Without(nodes, objects[node.key]) else nodes)
    {
      ghost var registered, active := objects, nodes;
      if node.key in objects {
        objects := objects - {node.key};
      }
      var i := IndexOf(node);
      if i < |nodes| {
        assert active[i] in active && node.key in registered && registered[node.key] == active[i];
        RemoveAt(nodes, i);
        WithoutStaysDistinct(nodes, nodes[i]);
        nodes := nodes[..i] + nodes[i + 1..];
      } else {
        assert node.key in registered ==> registered[node.key] !in active;
      }
      assert nodes == if node.key in registered then Without(active, registered[node.key]) else active;
      forall n | n in nodes
        ensures Registered(n) && n.enabled
      {
        assert n in active;
      }
    }

    /** A node that is enabled again goes to the end of the list. */
    method EnableNode(key: string) returns (rehash: bool)
      requires Valid()
      modifies this, if key in objects then {objects[key]} else {}
      ensures Valid() && objects == old(objects)
      ensures key in objects ==> objects[key].enabled
      ensures rehash == (key in objects && old(!objects[key].enabled))
      ensures nodes == if rehash then old(nodes) + [objects[key]] else old(nodes)
    {
      if key !in objects {
        return false;
      }
      var node := objects[key];
      node.enabled := true;
      var i := IndexOf(node);
      assert i < |nodes| ==> Registered(nodes[i]) && nodes[i] == node;
      rehash := i == |nodes|;
      if rehash {
        nodes := nodes + [node];
      }
    }

    method DisableNode(key: string) returns (rehash: bool)
      requires Valid()
      modifies this, if key in objects then {objects[key]} else {}
      ensures Valid() && objects == old(objects)
      ensures key in objects ==> !objects[key].enabled
      ensures rehash == (key in objects && old(objects[key].enabled))
      ensures nodes == if key in objects then Without(old(nodes), objects[key]) else old(nodes)
    {
      hide Without;
      if key !in objects {
        return false;
      }
      var node := objects[key];
      node.enabled := false;
      var i := IndexOf(node);
      assert i < |nodes| ==> Registered(nodes[i]) && nodes[i] == node;
      rehash := i < |nodes|;
      if rehash {
        RemoveAt(nodes, i);
        WithoutStaysDistinct(nodes, nodes[i]);
        nodes := nodes[..i] + nodes[i + 1..];
      }
      assert forall n :: n in nodes ==> n in old(nodes);
    }

    method Reset()
      modifies this
      ensures Valid() && objects == map[] && nodes == []
    {
      objects, nodes := map[], [];
    }
  }
}
