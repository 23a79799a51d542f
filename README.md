# Consistent-hashing ring in Dafny

This project models the consistent-hashing ring of `HashRing.java` and its storage backend
`InMemoryStorageNode.java`, and proves properties of the model.

The ring keeps storage nodes in slots on a circle of `maxNumberOfNodes` positions. The
slots form a doubly linked cycle reached from `head`. An index `nodeIdToNode` maps each
storage id to its slot. A key goes to the slot at its position, or else to the first slot
clockwise after it. Adding a node splices a new slot into the cycle and moves to it the keys
it now owns. Removing a node puts its entries into the next slot and unlinks its slot.

Modules:

- `RingMath` (`ring_math.dfy`): pure arithmetic.
  - Clockwise distance.
  - Ownership of a position by the nearest slot clockwise.
  - The free-position probe.
  - Java's truncating `%` and `Math.abs`.
- `RingModel` (`ring_model.dfy`): the value-level specification.
  - Slot positions in clockwise order.
  - The findNode walk as a function (`Route`).
  - The placement map from slot position to stored data.
  - The abstract effect of adding a node, removing a node, putting a key and removing a key.
  - Lemmas that every lookup survives node changes.
- `Wrappers` and `Storage` (`storage.dfy`): `Option` and `Result`, and the
  `InMemoryStorageNode` class over a `map<K, V>`.
- `HashRings` (`hash_ring.dfy`): the heap model.
  - `Slot` (HashRingNode) objects with `next`/`prev` fields.
  - The `HashRing` class with `nodeIdToNode` and `head`.
  - Ghost bookkeeping:
    - `ring`: the member slots in clockwise order;
    - `stale`: removed slots that `head` still reaches before the first member;
    - `storages`.
  - The state-changing methods are proved against the `RingModel` functions, with head a
    member slot (`stale == []`):
    - `AddNode` (which requires it) ends with `Placement()` equal to `AfterAdd` of the
      placement before the call;
    - `RemoveNode` ends with `Placement()` equal to `AfterRemove`;
    - `Put` ends with `Placement()` equal to `AfterPut`;
    - `Remove` ends with `Placement()` equal to `AfterRemoveKey`.
  - `FindNode` and `Get` change no placement. They are stated by the routed slot (`RouteSlot`),
    with or without a detached head. With head a member, `Get` also answers the ring's answer
    (`Answer`).

Inputs outside the model are parameters:

- The key hash (Java serialisation plus MurmurHash3) is the function `murmur: K -> int`. The
  model then applies `Math.abs(x % maxNumberOfNodes)` to it, with Java's truncating remainder
  written out.
- The position supplier is a `PositionSupplier`. It holds a function `values: nat -> int` and
  a counter `drawn` of the values handed out so far.
- Storage ids are constructor arguments.

## Model

| member | source | states |
|---|---|---|
| RingMath.Distance | src/main/java/com/lesson/dsfms/chapter1/HashRing.java:190-193 | for positions in range, the clockwise distance lies in [0, M) and is 0 exactly when the positions are equal |
| RingMath.DistanceIsModular | src/main/java/com/lesson/dsfms/chapter1/HashRing.java:190-193 | the distance from a to b equals (b - a) mod M |
| RingMath.DistanceSplit | src/main/java/com/lesson/dsfms/chapter1/HashRing.java:190-193 | going a to b to c adds the distances, less one full turn when c is passed; no turn when b comes first |
| RingMath.DistanceVia | src/main/java/com/lesson/dsfms/chapter1/HashRing.java:190-193 | the distance between two positions in terms of their distances from a third |
| RingMath.OwnerUnique | src/main/java/com/lesson/dsfms/chapter1/HashRing.java:178-188 | a position has at most one owner (the nearest slot at or after it clockwise) |
| RingMath.Owner | src/main/java/com/lesson/dsfms/chapter1/HashRing.java:178-188 | on a non-empty set of positions every position has an owner |
| RingMath.OwnerAfterInsert | src/main/java/com/lesson/dsfms/chapter1/HashRing.java:57-67 | after a new position p is added, a position's owner is p when p is nearer than the old owner, and otherwise is unchanged; in the first case the old owner is also the owner of p |
| RingMath.OwnerAfterRemove | src/main/java/com/lesson/dsfms/chapter1/HashRing.java:106-109 | after position r is removed, the positions r owned pass to the owner of r among the rest, and no other owner changes |
| RingMath.FreePositionExists | src/main/java/com/lesson/dsfms/chapter1/HashRing.java:199-201 | fewer than M taken positions leave a free one, so the probe ends |
| RingMath.FirstFreeUnique | src/main/java/com/lesson/dsfms/chapter1/HashRing.java:195-203 | the probe's answer is determined by the taken set and the start |
| RingMath.ProbeAfterCollision | src/test/java/com/lesson/dsfms/chapter1/HashRingTest.java:155-171 | with M = 4, a draw of 0 gives 0 on an empty ring, and a second draw of 0 gives 1 |
| RingMath.JavaRemainder | src/main/java/com/lesson/dsfms/chapter1/HashRing.java:216 | the remainder has the sign of the dividend, is smaller than M in magnitude, and with Java's truncating quotient rebuilds the dividend (quotient * M + remainder == x), which fixes its value |
| RingMath.BucketOf | src/main/java/com/lesson/dsfms/chapter1/HashRing.java:216 | Math.abs(x % M) lies in [0, M) and equals abs(x) mod M |
| RingModel.ClockwiseDistinct | src/main/java/com/lesson/dsfms/chapter1/HashRing.java:195-203 | positions in strict clockwise order are distinct |
| RingModel.WalkFrom | src/main/java/com/lesson/dsfms/chapter1/HashRing.java:182-186 | the findNode loop stops at a slot of the chain; it terminates because the distance to h strictly decreases |
| RingModel.Route | src/main/java/com/lesson/dsfms/chapter1/HashRing.java:178-188 | findNode answers a slot of the chain |
| RingModel.WalkStops | src/main/java/com/lesson/dsfms/chapter1/HashRing.java:182-186 | on a clockwise ring the walk stops at the last slot at or before h, seen from the first slot |
| RingModel.RouteFindsOwner | src/main/java/com/lesson/dsfms/chapter1/HashRing.java:178-188 | on a clockwise ring, findNode answers the slot at h if there is one, else the first slot clockwise after h |
| RingModel.RouteIsOwner | src/main/java/com/lesson/dsfms/chapter1/HashRing.java:178-188 | the findNode answer is the owner function's value |
| RingModel.SuccessorOwnsRemoved | src/main/java/com/lesson/dsfms/chapter1/HashRing.java:106-109 | once slot j leaves, its position is owned by the slot after it |
| RingModel.InsertKeepsClockwise | src/main/java/com/lesson/dsfms/chapter1/HashRing.java:62-66 | splicing the new position in front of its owner keeps the clockwise order |
| RingModel.SplitPoint | src/main/java/com/lesson/dsfms/chapter1/HashRing.java:62-66 | the findNode answer for a free position is its owner, and splicing before it keeps the order |
| RingModel.RemoveKeepsClockwise | src/main/java/com/lesson/dsfms/chapter1/HashRing.java:108-109 | unlinking any slot keeps the clockwise order |
| RingModel.MovedStep | src/main/java/com/lesson/dsfms/chapter1/HashRing.java:88-94 | one step of the moveKeys loop: the key joins the moved set exactly when it is strictly nearer to the new slot |
| RingModel.AfterAdd | src/main/java/com/lesson/dsfms/chapter1/HashRing.java:49-96 | adding a node gives a placement over the old positions plus the new one |
| RingModel.PlacementOf | src/main/java/com/lesson/dsfms/chapter1/HashRing.java:20 | the placement of a slot sequence is keyed by exactly its positions |
| RingModel.AddedAt | src/main/java/com/lesson/dsfms/chapter1/HashRing.java:61-67 | the source's split (the new slot gets its own data plus the keys moved from the owner; the owner keeps the rest) equals AfterAdd |
| RingModel.AfterRemove | src/main/java/com/lesson/dsfms/chapter1/HashRing.java:98-111 | removing a node gives a placement over the old positions less the removed one |
| RingModel.RemovedAt | src/main/java/com/lesson/dsfms/chapter1/HashRing.java:106-109 | putting every entry of slot j into the next slot and unlinking j equals AfterRemove |
| RingModel.AfterPut | src/main/java/com/lesson/dsfms/chapter1/HashRing.java:137-146 | a put keeps the set of positions |
| RingModel.AfterRemoveKey | src/main/java/com/lesson/dsfms/chapter1/HashRing.java:157-164 | a key removal keeps the set of positions |
| RingModel.AddKeepsLookups | src/main/java/com/lesson/dsfms/chapter1/HashRing.java:49-96 | adding an empty node changes no key's lookup |
| RingModel.AddKeepsKeysPlaced | src/main/java/com/lesson/dsfms/chapter1/HashRing.java:87-96 | after adding an empty node, every key still sits with its owner |
| RingModel.AddMovesOwnedKeys | src/main/java/com/lesson/dsfms/chapter1/HashRing.java:87-96 | a key of the split slot moves to the new slot exactly when the new slot owns the key's position |
| RingModel.RemoveKeepsLookups | src/main/java/com/lesson/dsfms/chapter1/HashRing.java:98-111 | removing a node (not the last) changes no key's lookup |
| RingModel.RemoveKeepsKeysPlaced | src/main/java/com/lesson/dsfms/chapter1/HashRing.java:98-111 | after removing a node, every key still sits with its owner |
| RingModel.PutThenLookup | src/main/java/com/lesson/dsfms/chapter1/HashRing.java:137-155 | get after put answers the value; other keys and key placement are kept |
| RingModel.RemoveKeyThenLookup | src/main/java/com/lesson/dsfms/chapter1/HashRing.java:148-164 | get after remove answers nothing; other keys and key placement are kept |
| RingModel.LookupsSurviveChanges | src/main/java/com/lesson/dsfms/chapter1/HashRing.java:49-111 | any sequence of node additions and removals keeps every lookup and key placement |
| Storage.InMemoryStorageNode.constructor | src/main/java/com/lesson/dsfms/chapter1/InMemoryStorageNode.java:11-12 | the storage starts empty with the given id |
| Storage.InMemoryStorageNode.Put | src/main/java/com/lesson/dsfms/chapter1/InMemoryStorageNode.java:20-23 | put maps the key to the value, returns that value, and leaves every other key alone |
| Storage.InMemoryStorageNode.Remove | src/main/java/com/lesson/dsfms/chapter1/InMemoryStorageNode.java:26-28 | remove returns the old mapping and deletes it; an absent key leaves the map as it was; other keys are kept |
| Storage.InMemoryStorageNode.Get | src/main/java/com/lesson/dsfms/chapter1/InMemoryStorageNode.java:31-33 | get answers the value exactly when the key is mapped, and changes nothing |
| HashRings.Slot.constructor | src/main/java/com/lesson/dsfms/chapter1/HashRing.java:227-230 | a slot holds its storage and position, unlinked |
| HashRings.Data | src/main/java/com/lesson/dsfms/chapter1/HashRing.java:222 | the data of a slot sequence, slot by slot |
| HashRings.PlacementOfSlots | src/main/java/com/lesson/dsfms/chapter1/HashRing.java:20-21 | the placement of the member slots is keyed by their positions |
| HashRings.JoinedAt | src/main/java/com/lesson/dsfms/chapter1/HashRing.java:61-67 | the slots after the splice and the key move hold AfterAdd of the old placement |
| HashRings.DroppedAt | src/main/java/com/lesson/dsfms/chapter1/HashRing.java:106-109 | the slots after the hand-over and the unlink hold AfterRemove of the old placement |
| HashRings.SpliceCycle | src/main/java/com/lesson/dsfms/chapter1/HashRing.java:63-66 | the four pointer writes give a well-formed cycle through the new slot |
| HashRings.UnspliceCycle | src/main/java/com/lesson/dsfms/chapter1/HashRing.java:108-109 | the two pointer writes give a well-formed cycle without the slot |
| HashRings.Wire | src/main/java/com/lesson/dsfms/chapter1/HashRing.java:63-66 | the new slot points both ways to its neighbours, and they point back to it |
| HashRings.Splice | src/main/java/com/lesson/dsfms/chapter1/HashRing.java:56-66 | a fresh slot is linked in front of the next slot, the cycle stays well formed, and no data changes |
| HashRings.Relink | src/main/java/com/lesson/dsfms/chapter1/HashRing.java:108-109 | unlinking keeps a well-formed cycle and the chain from head, and changes no data |
| HashRings.CopyEntries | src/main/java/com/lesson/dsfms/chapter1/HashRing.java:107 | the forEach over the removed storage puts every entry into the next storage |
| HashRings.Transfer | src/main/java/com/lesson/dsfms/chapter1/HashRing.java:107 | only the next slot's data changes, to its old data plus the removed slot's data |
| HashRings.Detach | src/main/java/com/lesson/dsfms/chapter1/HashRing.java:106-110 | hand-over plus unlink: the remaining slots hold AfterRemove of the old placement |
| HashRings.Walk | src/main/java/com/lesson/dsfms/chapter1/HashRing.java:182-187 | the findNode loop answers the slot Route names |
| HashRings.Probe | src/main/java/com/lesson/dsfms/chapter1/HashRing.java:199-201 | the probe loop answers the first free position clockwise from its start |
| HashRings.PositionSupplier.Get | src/main/java/com/lesson/dsfms/chapter1/HashRing.java:198 | each draw answers the next supplier value and counts it |
| HashRings.NewRing | src/main/java/com/lesson/dsfms/chapter1/HashRing.java:27-41 | a non-positive number of positions is refused; otherwise the ring starts empty and valid |
| HashRings.HashRing.constructor | src/main/java/com/lesson/dsfms/chapter1/HashRing.java:27-34 | a new ring is valid, has no slots, no head and an empty placement |
| HashRings.HashRing.KeyHash | src/main/java/com/lesson/dsfms/chapter1/HashRing.java:205-218 | a key's position lies in [0, M) |
| HashRings.HashRing.Size | src/main/java/com/lesson/dsfms/chapter1/HashRing.java:129-135 | size is the number of members and of positions, and stays below M |
| HashRings.HashRing.FindNode | src/main/java/com/lesson/dsfms/chapter1/HashRing.java:178-188 | nothing exactly when the ring is empty, otherwise the routed slot; no data changes |
| HashRings.HashRing.RouteOwns | src/main/java/com/lesson/dsfms/chapter1/HashRing.java:178-188 | with head a member, findNode answers the owner of h and that slot holds the placement's data at the owner's position |
| HashRings.HashRing.SingleSlotRoute | src/main/java/com/lesson/dsfms/chapter1/HashRing.java:178-188 | with a single member, findNode answers it for every position |
| HashRings.HashRing.IndexedPositions | src/main/java/com/lesson/dsfms/chapter1/HashRing.java:196-197 | the positions of the indexed slots are the ring's positions |
| HashRings.HashRing.NodeFreeHash | src/main/java/com/lesson/dsfms/chapter1/HashRing.java:195-203 | exactly one supplier value is drawn, and the answer is the first free position clockwise from it |
| HashRings.HashRing.MoveKeys | src/main/java/com/lesson/dsfms/chapter1/HashRing.java:87-96 | the destination gains the source keys strictly nearer to it, and the source loses every key the destination then holds |
| HashRings.HashRing.HandOver | src/main/java/com/lesson/dsfms/chapter1/HashRing.java:67 | moveKeys from the next slot to the new slot changes only those two storages |
| HashRings.HashRing.Link | src/main/java/com/lesson/dsfms/chapter1/HashRing.java:56-67 | splice plus key move: the cycle goes through the new slot and only the two storages change |
| HashRings.HashRing.Found | src/main/java/com/lesson/dsfms/chapter1/HashRing.java:57-69 | on an empty ring the new slot becomes head, links to itself and is indexed; the placement is AfterAdd |
| HashRings.HashRing.Grow | src/main/java/com/lesson/dsfms/chapter1/HashRing.java:61-69 | on a non-empty ring the new slot is spliced before its owner and indexed, the index otherwise unchanged and head kept; the placement is AfterAdd |
| HashRings.HashRing.Admit | src/main/java/com/lesson/dsfms/chapter1/HashRing.java:55-69 | a node at a free position is added, the index gains only its id, head is kept on a non-empty ring; the placement is AfterAdd |
| HashRings.HashRing.AddNode | src/main/java/com/lesson/dsfms/chapter1/HashRing.java:49-85 | a duplicate id or a full ring (M - 1 members) is refused with nothing changed; otherwise one value is drawn, the node is indexed at the probed position with every other index entry kept, head is kept when the ring was non-empty, and the placement is AfterAdd; only the member storages and the new storage may change (the frame) |
| HashRings.HashRing.Retire | src/main/java/com/lesson/dsfms/chapter1/HashRing.java:106-109 | the ghost member list after an unlink; no link or data changes |
| HashRings.HashRing.Unregister | src/main/java/com/lesson/dsfms/chapter1/HashRing.java:103 | the id leaves the index; nothing else changes |
| HashRings.HashRing.Clear | src/main/java/com/lesson/dsfms/chapter1/HashRing.java:104-105 | removing the last node clears head and leaves an empty placement |
| HashRings.HashRing.DropMember | src/main/java/com/lesson/dsfms/chapter1/HashRing.java:106-110 | with members left, the placement is AfterRemove and head is not moved |
| HashRings.HashRing.Settle | src/main/java/com/lesson/dsfms/chapter1/HashRing.java:108-110 | after the unlink the removed slot joins the detached chain exactly when it was the first member |
| HashRings.HashRing.Drop | src/main/java/com/lesson/dsfms/chapter1/HashRing.java:103-110 | the id is unregistered, the placement is AfterRemove, and head becomes null only when no node remains |
| HashRings.HashRing.RemoveNode | src/main/java/com/lesson/dsfms/chapter1/HashRing.java:98-127 | an unknown id is refused with nothing changed; otherwise the id leaves, the position leaves, the placement is AfterRemove, and head is kept unless the ring empties; only the member storages may change (the frame), so storages removed earlier keep their entries |
| HashRings.HashRing.HeadDetached | src/main/java/com/lesson/dsfms/chapter1/HashRing.java:98-111 | when head's storage is no longer registered, head is the first detached slot and findNode answers it for its own position |
| HashRings.HashRing.HeadMember | src/main/java/com/lesson/dsfms/chapter1/HashRing.java:21 | when head is an indexed slot, no detached chain is in front of the members |
| HashRings.HashRing.Advance | src/main/java/com/lesson/dsfms/chapter1/HashRing.java:21-111 | moving head from a detached slot to its next slot leaves no detached chain and changes no member or data |
| HashRings.HashRing.RemoveNodeAdvancingHead | src/main/java/com/lesson/dsfms/chapter1/HashRing.java:98-111 | removeNode with head moved to the next slot when head is removed: same outcome and placement as RemoveNode, and head stays a member |
| HashRings.HashRing.AnswerRouted | src/main/java/com/lesson/dsfms/chapter1/HashRing.java:148-155 | the ring's answer for a key is what the routed storage holds for it |
| HashRings.HashRing.KeyOwner | src/main/java/com/lesson/dsfms/chapter1/HashRing.java:141-143 | with head a member, the slot a key is routed to sits at the owner of the key's position |
| HashRings.HashRing.StorePlaced | src/main/java/com/lesson/dsfms/chapter1/HashRing.java:143-144 | a change to one member's storage changes the placement at that member's position alone |
| HashRings.HashRing.StoredAtRoute | src/main/java/com/lesson/dsfms/chapter1/HashRing.java:143-163 | a change to the routed storage alone keeps the ring valid and changes the placement only at the key's owner |
| HashRings.HashRing.Put | src/main/java/com/lesson/dsfms/chapter1/HashRing.java:137-146 | fails on an empty ring; otherwise stores the pair in the routed storage only and returns the value; with head a member the placement is AfterPut |
| HashRings.HashRing.Get | src/main/java/com/lesson/dsfms/chapter1/HashRing.java:148-155 | nothing on an empty ring; otherwise the routed storage's value; with head a member, the ring's answer |
| HashRings.HashRing.Remove | src/main/java/com/lesson/dsfms/chapter1/HashRing.java:157-164 | nothing on an empty ring; otherwise removes the key from the routed storage only and returns its old value; with head a member the placement is AfterRemoveKey |

## Left out

- Key hashing: Java serialisation and MurmurHash3 are the parameter `murmur`. Only the
  reduction `Math.abs(x % maxNumberOfNodes)` is modelled. Any 32-bit range of the raw hash is
  not modelled (`Math.abs(Integer.MIN_VALUE)` cannot matter after `% M` for M >= 1).
- The default `new Random().nextInt(maxNumberOfNodes)` supplier (line 24) is not modelled. The
  supplier is a parameter, and its values lying in [0, M) is a precondition of the
  constructor, because the source never checks them.
- UUID ids: the storage id is a constructor argument. The `id()` getter is the field itself.
- Logging and `toString` are not modelled; they have no behaviour.
- Null checks of nodes, ids, keys and values are not modelled; Dafny references and values
  are never null. A null supplier is not modelled either.
- Exceptions are not modelled. Each `IllegalArgumentException` becomes a `Rejected` outcome
  or a `Failure` result that leaves the state unchanged.
- HashMap iteration order in `forEach`: each loop visits the keys of a shrinking set, so
  every entry is visited exactly once, in no stated order.
- `StorageNode.java` is an interface; `InMemoryStorageNode` gives it its meaning.
- `storages` is a ghost superset of the storages that slots reachable from head hold.
- Concurrency: the source has none.
- HashRings.HashRing.AddNode: requires `stale == []`, that is, head is a member slot. The
  source also allows a call after removeNode has left head on a removed slot, which is
  the state described under "Findings"; the model does not cover that call.
- HashRings.HashRing.RemoveNode: does not state that the removed storage keeps its entries
  (the source never clears it). The frame that shows it is too costly to verify here.
- HashRings.HashRing.RemoveNode: `validateExistingStorageNode` runs twice in the source
  (lines 99-100); the model checks once, which has the same effect.
- Properties about keys (`KeysPlaced`, lookups) are stated on the abstract placement in
  `RingModel` and tied to the heap by the `Placement() == After...` ensures of the methods,
  with head a member.

## Findings

| source | as written | input that shows it | evidently intended | confidence | as-written member | corrected member |
|---|---|---|---|---|---|---|
| src/main/java/com/lesson/dsfms/chapter1/HashRing.java:98-111 | removeNode never moves `head`, so removing the head node of a ring that keeps other nodes leaves `head` on the detached slot | M = 8, nodes at positions 5 (head) and 2; remove the node at 5, then `put` a key at position 5: findNode starts at the detached slot, stops there and answers it, so the entry goes to the removed storage; a later addNode that draws position 5 splices against that detached slot | head moves to the next member (`node.next`) when the head node is removed | not executed | HashRings.HashRing.HeadDetached | HashRings.HashRing.RemoveNodeAdvancingHead |

`HashRings.HashRing.HeadDetached` shows the as-written state. After `RemoveNode` of the head
node, head's storage is unregistered. Head is then the first slot of the detached chain, and
findNode answers that slot for its own position. `HashRings.HashRing.RemoveNodeAdvancingHead`
moves head to the next member when the head node is removed. It keeps head a member
(`stale == []`). With head a member, `RouteOwns` and `KeyOwner` give routing to the owner,
and `AddNode`'s requirement is met.
