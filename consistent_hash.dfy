/**
 * The `ConsistentHash` class: a ring of hash positions kept twice, as a map
 * from position to node (`hashRing`) and as the ascending list of the same
 * positions (`sortedKeys`). Every method is proved to follow the value-level
 * functions of RingSpec, so the properties proved there hold of the object.
 */
module HashRing {
  import opened Wrappers
  import opened Bisect
  import opened RingSpec

  class ConsistentHash {
    /** Virtual nodes placed per node; a value below zero places none, as `range` does. */
    const virtualNodes: int
    /** The deterministic hash from identifiers and keys to ring positions. */
    const hash: string -> nat
    var hashRing: map<nat, string>
    var sortedKeys: seq<nat>

    /** The list is strictly ascending and holds exactly the positions of the map. */
    ghost predicate Valid()
      reads this
    {
      StrictlySorted(sortedKeys) && Elems(sortedKeys) == hashRing.Keys
    }

    /** How many times `range(self.virtual_nodes)` iterates. */
    function Replicas(): nat {
      if virtualNodes < 0 then 0 else virtualNodes
    }

    /** `__init__`: an empty ring to which each of `nodes` is added in order. */
    constructor (nodes: seq<string>, virtualNodes: int, hash: string -> nat)
      ensures Valid()
      ensures this.virtualNodes == virtualNodes && this.hash == hash
      ensures hashRing == AddNodes(map[], hash, nodes, Replicas())
    {
      this.virtualNodes := virtualNodes;
      this.hash := hash;
      hashRing := map[];
      sortedKeys := [];
      new;
      for j := 0 to |nodes|
        invariant Valid()
        invariant hashRing == AddNodes(map[], hash, nodes[..j], Replicas())
      {
        AddNode(nodes[j]);
        assert nodes[..j + 1][..j] == nodes[..j];
      }
      assert nodes[..|nodes|] == nodes;
    }

    /**
     * `add_node`: places each virtual node of `node` at its hash unless that
     * position is already taken. When all of them are already taken, as after
     * an earlier call for the same node, neither the map nor the list changes.
     */
    method AddNode(node: string)
      requires Valid()
      modifies this
      ensures Valid()
      ensures hashRing == AddVirtualNodes(old(hashRing), hash, node, Replicas())
      ensures Positions(hash, node, Replicas()) <= hashRing.Keys
      ensures Positions(hash, node, Replicas()) <= old(hashRing).Keys ==>
                hashRing == old(hashRing) && sortedKeys == old(sortedKeys)
    {
      for i := 0 to Replicas()
        invariant Valid()
        invariant hashRing == AddVirtualNodes(old(hashRing), hash, node, i)
      {
        var virtualNodeId := VirtualId(node, i);
        var hashVal := hash(virtualNodeId);
        if hashVal !in hashRing {
          sortedKeys := Insort(sortedKeys, hashVal);
          hashRing := hashRing[hashVal := node];
        }
      }
      AddEffect(old(hashRing), hash, node, Replicas());
      if Positions(hash, node, Replicas()) <= old(hashRing).Keys {
        AddCovered(old(hashRing), hash, node, Replicas());
        SortedUnique(sortedKeys, old(sortedKeys));
      }
    }

    /**
     * `remove_node`: deletes each virtual-node position of `node` that the
     * binary search finds in the list, from both the list and the map.
     */
    method RemoveNode(node: string)
      requires Valid()
      modifies this
      ensures Valid()
      ensures hashRing == RemoveVirtualNodes(old(hashRing), hash, node, Replicas())
    {
      for i := 0 to Replicas()
        invariant Valid()
        invariant hashRing == RemoveVirtualNodes(old(hashRing), hash, node, i)
      {
        var virtualNodeId := VirtualId(node, i);
        var hashVal := hash(virtualNodeId);
        var index := BisectLeft(sortedKeys, hashVal);
        BisectFinds(sortedKeys, hashVal, index);
        if index < |sortedKeys| && sortedKeys[index] == hashVal {
          DeleteAt(sortedKeys, index);
          hashRing := hashRing - {hashVal};
          sortedKeys := sortedKeys[..index] + sortedKeys[index + 1..];
        }
      }
    }

    /**
     * `get_node`: `None` on an empty ring; otherwise the owner of the first
     * position at or after the key's hash, wrapping to the first position.
     */
    method GetNode(key: string) returns (r: Option<string>)
      requires Valid()
      ensures r == Owner(hashRing, hash(key))
    {
      if hashRing == map[] {
        return None;
      }
      var hashVal := hash(key);
      var index := BisectLeft(sortedKeys, hashVal);
      ElemsEmpty(sortedKeys);
      BisectLands(sortedKeys, hashVal, index);
      if index == |sortedKeys| {
        index := 0;
      }
      var p := sortedKeys[index];
      OwnerAt(hashRing, hashVal, p);
      r := Some(hashRing[p]);
    }
  }

  /**
   * Minimal disruption, on the object: when no position of `node` belongs to
   * another node, a key that `get_node` routed elsewhere than `node` before
   * `remove_node(node)` is routed to the same node afterwards.
   */
  method RouteSurvivesRemoval(ring: ConsistentHash, node: string, key: string)
    returns (before: Option<string>, after: Option<string>)
    requires ring.Valid()
    requires OwnsItsPositions(ring.hashRing, ring.hash, node, ring.Replicas())
    modifies ring
    ensures ring.Valid()
    ensures before == Owner(old(ring.hashRing), ring.hash(key))
    ensures ring.hashRing == RemoveVirtualNodes(old(ring.hashRing), ring.hash, node, ring.Replicas())
    ensures after == Owner(ring.hashRing, ring.hash(key))
    ensures before.Some? && before.value != node ==> after == before
  {
    before := ring.GetNode(key);
    ghost var ringBefore := ring.hashRing;
    ring.RemoveNode(node);
    after := ring.GetNode(key);
    if before.Some? && before.value != node {
      RemoveKeepsOtherRoutes(ringBefore, ring.hash, node, ring.Replicas(), ring.hash(key));
    }
  }

  /**
   * On a strictly ascending list, the index `bisect_left` returns holds the
   * searched value exactly when the value is in the list.
   */
  lemma BisectFinds(a: seq<nat>, x: nat, k: nat)
    requires StrictlySorted(a) && k <= |a|
    requires forall j :: 0 <= j < k ==> a[j] < x
    requires forall j :: k <= j < |a| ==> x <= a[j]
    ensures x in Elems(a) <==> k < |a| && a[k] == x
  {
  }

  /**
   * On a non-empty strictly ascending list, the element at the index
   * `bisect_left` returns, or the first element when that index is past the
   * end, is where the searched hash lands on the ring.
   */
  lemma BisectLands(a: seq<nat>, hv: nat, k: nat)
    requires StrictlySorted(a) && a != [] && k <= |a|
    requires forall j :: 0 <= j < k ==> a[j] < hv
    requires forall j :: k <= j < |a| ==> hv <= a[j]
    ensures IsSuccessor(Elems(a), hv, a[if k == |a| then 0 else k])
  {
  }
}
