# Consistent-hash ring — a verified Dafny model

This project models the consistent-hashing ring of the Website-Visit-Counter
service. The ring is the class `ConsistentHash` in `app/core/consistent_hash.py`.
It routes a page key to one of several backing counter stores ("nodes").

Each node is placed on the ring `virtual_nodes` times. Virtual node `i` of
`node` sits at position `hash(f"{node}#{i}")`. The ring keeps its state twice:

- `hash_ring`, a map from position to owning node;
- `sorted_keys`, the ascending list of the same positions.

Three operations use that state. `add_node` inserts the positions that are
still free, so the first writer of a position wins. `remove_node` deletes the
node's positions wherever the binary search finds them. `get_node` returns the
owner of the first position at or after the key's hash. It wraps to the first
position when there is none, and returns `None` on an empty ring.

Layout:

- `wrappers.dfy`: module `Wrappers`, the `Option` type returned by `get_node`.
- `bisect.dfy`: module `Bisect`, the parts of Python's `bisect` module the ring
  uses. `bisect_left` and `bisect_right` are verified binary-search loops;
  `insort` inserts at the `bisect_right` index. A list mutated in place is a
  sequence that the caller reassigns.
- `ring_spec.dfy`: module `RingSpec`, the ring as values. It defines what adding
  and removing a node do (`AddVirtualNodes`, `RemoveVirtualNodes`, `AddNodes`)
  and where a key lands (`IsSuccessor`, `Owner`), with the lemmas about them.
- `consistent_hash.dfy`: module `HashRing`, the class `ConsistentHash` with the
  fields `hashRing: map<nat, string>` and `sortedKeys: seq<nat>`. `Valid()`
  says that `sortedKeys` is strictly ascending and holds exactly the keys of
  `hashRing`. Every method keeps `Valid()` and is proved to follow the
  `RingSpec` functions.

The MD5 hash (`_hash`) is a constructor parameter `hash: string -> nat`. Every
property holds for any deterministic hash; no property depends on MD5.

Two behaviours of the code are worth stating plainly, because the model keeps them:

- The code performs no validation of node identifiers. `add_node` places an
  empty string like any other node; no "invalid node" error exists.
- `remove_node` deletes every one of the node's positions that it finds,
  whichever node owns it. It does not check that the owner is the node being
  removed. So removing `B` also deletes a position of `B#i` that an earlier
  node `A` won by collision (see `RingSpec.RemoveEffect`).

## Model

| member | source | states |
|---|---|---|
| `HashRing.ConsistentHash.constructor` | app/core/consistent_hash.py:6-19 | the new ring is valid, keeps `virtual_nodes` and the hash, and holds the result of adding every listed node in order to the empty ring |
| `HashRing.ConsistentHash.AddNode` | app/core/consistent_hash.py:25-38 | keeps the list/map invariant; the new map is `AddVirtualNodes` of the old one; afterwards every virtual position of the node is occupied; when all were already occupied (as after an earlier `add_node` of the same node), neither the map nor the list changes |
| `HashRing.ConsistentHash.RemoveNode` | app/core/consistent_hash.py:40-54 | keeps the list/map invariant; the new map is `RemoveVirtualNodes` of the old one, so it is the old map without the node's positions (`RemoveEffect`) |
| `HashRing.ConsistentHash.GetNode` | app/core/consistent_hash.py:56-75 | reads and changes nothing; returns exactly `Owner(hashRing, hash(key))`: `None` iff the map is empty, otherwise the owner of the position where the key lands, which is a node stored in the map |
| `HashRing.RouteSurvivesRemoval` | app/core/consistent_hash.py:40-75 | on the object: `before` is the lookup result on the old ring, the ring is then changed exactly as `RemoveNode(node)` changes it, and `after` is the lookup result on the new ring; if no position of `node` is owned by another node, a key routed to some other node before is routed to that same node afterwards |
| `HashRing.BisectFinds` | app/core/consistent_hash.py:51-52 | on the strictly ascending list, the value is present iff the `bisect_left` index is in range and holds it, so the test on line 52 is exact membership |
| `HashRing.BisectLands` | app/core/consistent_hash.py:69-75 | the element at the `bisect_left` index, or the first element when the index is past the end, is the landing position of the hash: the least position at or after it, or the least position overall |
| `Bisect.BisectLeft` | app/core/consistent_hash.py:51 | returns an index in `0..len` with every earlier element below the value and every later element at or above it |
| `Bisect.BisectRight` | app/core/consistent_hash.py:37 | returns an index in `0..len` with every earlier element at or below the value and every later element above it |
| `Bisect.Insort` | app/core/consistent_hash.py:37 | the result is ascending and a permutation of the input plus the value; inserting a value not yet present into a strictly ascending list keeps it strictly ascending |
| `Bisect.DeleteAt` | app/core/consistent_hash.py:54 | deleting an index of a strictly ascending list keeps it strictly ascending and removes exactly the value at that index |
| `Bisect.SortedUnique` | app/core/consistent_hash.py:32-38 | two strictly ascending lists holding the same values are equal, so `sorted_keys` is determined by the keys of `hash_ring` |
| `RingSpec.DecimalString` | app/core/consistent_hash.py:33 | the numeral written for `i` in `f"{node}#{i}"`, never empty; what it denotes is stated by `DecimalStringValue` |
| `RingSpec.DecimalStringValue` | app/core/consistent_hash.py:33 | `DecimalString(i)` is the canonical numeral `str(i)`: decimal digits whose value is `i`, with no leading zero |
| `RingSpec.VirtualIdFormat` | app/core/consistent_hash.py:33 | the virtual-node identifier `VirtualId(node, i)` is `node`, then `#`, then digits whose value is `i` |
| `RingSpec.AddEffect` | app/core/consistent_hash.py:32-38 | after adding a node, the occupied positions are the old ones plus the node's own; every old position keeps its owner (first writer wins); every new position is one of the node's virtual positions and maps to the node |
| `RingSpec.AddCovered` | app/core/consistent_hash.py:36 | adding a node whose positions are all occupied leaves the map unchanged |
| `RingSpec.AddIdempotent` | app/core/consistent_hash.py:32-38 | adding the same node a second time leaves the map as the first addition left it |
| `RingSpec.RemoveEffect` | app/core/consistent_hash.py:47-54 | removing a node deletes exactly its virtual positions that are present, whoever owned them; every other position keeps its owner |
| `RingSpec.RemoveAbsent` | app/core/consistent_hash.py:47-54 | removing a node none of whose positions is occupied (a node never added, with no collisions) changes nothing |
| `RingSpec.AddNodesEffect` | app/core/consistent_hash.py:18-19 | after the constructor's loop, every virtual position of every listed node is occupied and every position is owned by a listed node |
| `RingSpec.SuccessorExists` | app/core/consistent_hash.py:69-75 | on a non-empty ring every hash lands on some position |
| `RingSpec.Owner` | app/core/consistent_hash.py:66-75 | the routed node is `None` iff the ring is empty, and otherwise a node stored in the ring |
| `RingSpec.OwnerAt` | app/core/consistent_hash.py:75 | the routed node is the owner of the landing position, which is unique |
| `RingSpec.RemoveKeepsOtherRoutes` | app/core/consistent_hash.py:40-75 | if no position of `node` is owned by another node, every hash routed to a node other than `node` before the removal is routed to the same node after it |
| `RingSpec.AddMovesOnlyToNewNode` | app/core/consistent_hash.py:25-75 | on any ring, including the empty one, after adding `node` every hash is routed either where it was before or to `node` |
| `HashRing.ConsistentHash.Replicas` | app/core/consistent_hash.py:32 | the number of iterations of `range(self.virtual_nodes)`: `virtual_nodes` when it is not negative, and zero otherwise; the loops at lines 32 and 47 run over `0 .. Replicas() - 1` |
| `RingSpec.AddVirtualNodes` | app/core/consistent_hash.py:32-38 | defines the add loop on values: for `i` in order, the position of `node#i` is mapped to `node` unless it is already occupied; its meaning is stated by `AddEffect` |
| `RingSpec.RemoveVirtualNodes` | app/core/consistent_hash.py:47-54 | defines the remove loop on values: for `i` in order, the position of `node#i` is deleted when present; its meaning is stated by `RemoveEffect` |
| `RingSpec.AddNodes` | app/core/consistent_hash.py:18-19 | defines the constructor loop on values: each listed node is added in order, starting from the empty ring; its meaning is stated by `AddNodesEffect` |
| `RingSpec.IsSuccessor` | app/core/consistent_hash.py:69-75 | defines where a hash lands: the least occupied position at or after it, or the least position overall when every position is below it |

## Left out

- `app/services/visit_counter.py`: an asynchronous wrapper that forwards to a Redis client, which is not part of this model. It has no logic of its own.
- The MD5 digest and the conversion of its hex digest to an integer (`_hash`, app/core/consistent_hash.py:21-23). The hash is a parameter; its 128-bit range is not modelled (positions are unbounded naturals), and nothing in the ring's logic depends on it.
- Load-distribution claims (for example that about a third of the keys move when one of three nodes leaves). They depend on the hash being uniform and cannot be stated about an arbitrary hash.
- The encoding error of `_hash`: `key.encode()` (app/core/consistent_hash.py:23) is strict UTF-8, so a node or key containing a lone surrogate code point raises `UnicodeEncodeError`. `get_node` would raise on a non-empty ring, and `add_node` and `remove_node` would raise on their first iteration, before changing anything. The model's hash is total, and Dafny's `char` cannot hold a surrogate, so these inputs cannot be expressed.
- Concurrency. The class is used from one thread of control in the model. The code contains no read cache and no refresh locks, so there is nothing of that kind to model.
- Python's default arguments of `__init__` (`nodes=[]`, `virtual_nodes=100`): the constructor takes both explicitly.
