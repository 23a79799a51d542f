/** The consistent-hashing ring of HashRing.java: slots on a doubly linked cycle over the
    positions 0..maxNumberOfNodes-1, an id -> slot index, and the key operations that route
    to the slot owning the key's position. */
module HashRings {
  import opened Wrappers
  import opened RingMath
  import opened RingModel
  import opened Storage

  datatype RingError = NonPositiveMaxNumberOfNodes | DuplicateNode | RingFull | UnknownNode | EmptyRing

  datatype Outcome = Done | Rejected(error: RingError)

  /** A ring slot (HashRingNode): a storage at a fixed position, linked to its neighbours. */
  class Slot<K(==), V> {
    const storage: InMemoryStorageNode<K, V>
    const hash: int
    var next: Slot?<K, V>
    var prev: Slot?<K, V>

    constructor (storage: InMemoryStorageNode<K, V>, hash: int)
      ensures this.storage == storage && this.hash == hash && next == null && prev == null
    {
      this.storage := storage;
      this.hash := hash;
      next := null;
      prev := null;
    }
  }

  ghost function Hashes<K, V>(ss: seq<Slot<K, V>>): (ps: seq<int>)
    ensures |ps| == |ss| && forall i {:trigger ps[i]} :: 0 <= i < |ss| ==> ps[i] == ss[i].hash
  {
    seq(|ss|, i requires 0 <= i < |ss| => ss[i].hash)
  }

  /** The storages of the slots `ss`. */
  ghost function StoragesOf<K, V>(ss: seq<Slot<K, V>>): set<InMemoryStorageNode<K, V>>
  {
    if ss == [] then {} else {ss[0].storage} + StoragesOf(ss[1..])
  }

  /** No two slots of `ss` share a storage object (so no two are the same slot). */
  ghost predicate StoragesDistinct<K, V>(ss: seq<Slot<K, V>>)
  {
    forall i, j {:trigger ss[i].storage, ss[j].storage} :: 0 <= i < j < |ss| ==> ss[i].storage != ss[j].storage
  }

  /** The data the storages of `ss` hold, slot by slot. */
  ghost function Data<K, V>(ss: seq<Slot<K, V>>): (ds: seq<map<K, V>>)
    reads StoragesOf(ss)
    ensures |ds| == |ss| && forall i :: 0 <= i < |ss| ==> ds[i] == ss[i].storage.keyToValue
  {
    if ss == [] then []
    else [ss[0].storage.keyToValue] + Data(ss[1..])
  }

  /** The data the storages of `ss` hold, by slot position. */
  ghost function PlacementOfSlots<K, V>(ss: seq<Slot<K, V>>): (pl: map<int, map<K, V>>)
    reads StoragesOf(ss)
    ensures pl.Keys == SetOf(Hashes(ss))
  {
    PlacementOf(Hashes(ss), Data(ss))
  }

  /** When the storages of `ss` hold `ds`, slot by slot, their data is `ds`. */
  lemma DataIs<K, V>(ss: seq<Slot<K, V>>, ds: seq<map<K, V>>)
    requires |ds| == |ss| && forall i :: 0 <= i < |ss| ==> ss[i].storage.keyToValue == ds[i]
    ensures Data(ss) == ds
  {
  }

  /** When the storages of `ss` still hold `ds`, except that of slot `t`, their data is `ds`
      with the new data of slot `t`. */
  lemma DataAfterStore<K, V>(ss: seq<Slot<K, V>>, t: nat, ds: seq<map<K, V>>)
    requires t < |ss| && |ds| == |ss|
    requires forall i :: 0 <= i < |ss| && i != t ==> ss[i].storage.keyToValue == ds[i]
    ensures Data(ss) == ds[t := ss[t].storage.keyToValue]
  {
  }

  /** Splicing in slot `n` adds its position, holding its data, to the placement. */
  lemma PlacementAfterInsert<K, V>(r: seq<Slot<K, V>>, j: nat, n: Slot<K, V>)
    requires j <= |r| && Distinct(Hashes(r[..j] + [n] + r[j..]))
    ensures PlacementOfSlots(r[..j] + [n] + r[j..]) == PlacementOfSlots(r)[n.hash := n.storage.keyToValue]
  {
    HashesInsert(r, j, n);
    assert Data(r[..j] + [n] + r[j..]) == Data(r)[..j] + [n.storage.keyToValue] + Data(r)[j..];
    PlacementOfInsert(Hashes(r), Data(r), j, n.hash, n.storage.keyToValue);
  }

  /** Once slot `n` has joined the clockwise members `r`, before the member `r[w]` the walk
      answers for its position, and has taken over the entries of `r[w]` it owns, the data by
      position is what a consistent-hashing ring over `r`, with data `ds`, holds after the
      join of `n` with data `d`. */
  lemma JoinedAt<K, V>(m: int, hash: K -> int, r: seq<Slot<K, V>>, ds: seq<map<K, V>>, w: nat,
                       n: Slot<K, V>, d: map<K, V>)
    requires Clockwise(m, Hashes(r)) && |r| > 0 && |ds| == |r| && 0 <= n.hash < m && n.hash !in SetOf(Hashes(r))
    requires w == Route(m, Hashes(r), 0, n.hash)
    requires Data(r) == ds[w := r[w].storage.keyToValue]
    requires n.storage.keyToValue == d + Moved(m, hash, ds[w], r[w].hash, n.hash)
    requires r[w].storage.keyToValue == ds[w] - n.storage.keyToValue.Keys
    ensures var j := if w == 0 then |r| else w;
      PlacementOfSlots(r[..j] + [n] + r[j..]) == AfterAdd(m, hash, PlacementOf(Hashes(r), ds), n.hash, d)
  {
    var j := if w == 0 then |r| else w;
    AddedAt(m, hash, Hashes(r), ds, w, n.hash, d, n.storage.keyToValue, r[w].storage.keyToValue);
    InsertKeepsOrder(m, r, w, n);
    PlacementAfterInsert(r, j, n);
  }

  /** The placement once slot `j` of the clockwise members `r` has left and removeNode has
      copied its entries into the slot after it: what a consistent-hashing ring over `r`, with
      data `ds`, holds after the removal of that slot. */
  lemma DroppedAt<K, V>(m: int, r: seq<Slot<K, V>>, ds: seq<map<K, V>>, j: nat)
    requires Clockwise(m, Hashes(r)) && 2 <= |r| && |ds| == |r| && j < |r|
    requires Data(r) == ds[NextIndex(|r|, 0, j) := ds[NextIndex(|r|, 0, j)] + ds[j]]
    ensures Placed(m, PlacementOf(Hashes(r), ds)) && r[j].hash in PlacementOf(Hashes(r), ds)
    ensures PlacementOfSlots(r[..j] + r[j + 1..]) == AfterRemove(m, PlacementOf(Hashes(r), ds), r[j].hash)
  {
    var t := NextIndex(|r|, 0, j);
    RemovedAt(m, Hashes(r), ds, j, ds[t] + ds[j]);
    HashesRemove(r, j);
    DataRemove(r, j);
  }

  lemma DataRemove<K, V>(r: seq<Slot<K, V>>, j: nat)
    requires j < |r|
    ensures Data(r[..j] + r[j + 1..]) == Data(r)[..j] + Data(r)[j + 1..]
  {
    var dr := Data(r);
    var q, ds := r[..j] + r[j + 1..], dr[..j] + dr[j + 1..];
    forall i | 0 <= i < |q| ensures q[i].storage.keyToValue == ds[i] {
      if i < j {
        assert q[i] == r[i] && ds[i] == dr[i];
      } else {
        assert q[i] == r[i + 1] && ds[i] == dr[i + 1];
      }
    }
    DataIs(q, ds);
  }

  /** Dropping slot `x` of a chain keeps its positions in the ring space and its storages
      distinct. */
  lemma DropKeepsChain<K, V>(m: int, c: seq<Slot<K, V>>, x: nat)
    requires x < |c| && AllInRing(m, Hashes(c)) && StoragesDistinct(c)
    ensures AllInRing(m, Hashes(c[..x] + c[x + 1..])) && StoragesDistinct(c[..x] + c[x + 1..])
  {
    var d := c[..x] + c[x + 1..];
    forall i | 0 <= i < |d| ensures 0 <= Hashes(d)[i] < m {
      var y := if i < x then i else i + 1;
      assert d[i] == c[y] && Hashes(c)[y] == c[y].hash;
    }
    forall i, k | 0 <= i < k < |d| ensures d[i].storage != d[k].storage {
      assert d[i] == c[if i < x then i else i + 1] && d[k] == c[if k < x then k else k + 1];
    }
  }

  /** The storages of a chain are distinct on each part and between the parts. */
  /** Slots with distinct storages are distinct slots. */
  lemma SlotApart<K, V>(r: seq<Slot<K, V>>, k: nat)
    requires StoragesDistinct(r) && k < |r|
    ensures forall i :: 0 <= i < |r| && i != k ==> r[i] != r[k]
  {
    forall i | 0 <= i < |r| && i != k ensures r[i] != r[k] {
      if i < k { assert r[i].storage != r[k].storage; } else { assert r[k].storage != r[i].storage; }
    }
  }

  lemma StoragesApart<K, V>(s: seq<Slot<K, V>>, r: seq<Slot<K, V>>)
    requires StoragesDistinct(s + r)
    ensures StoragesDistinct(r)
    ensures forall i, k :: 0 <= i < |s| && 0 <= k < |r| ==> s[i].storage != r[k].storage
  {
    forall i, k | 0 <= i < k < |r| ensures r[i].storage != r[k].storage {
      assert (s + r)[|s| + i] == r[i] && (s + r)[|s| + k] == r[k];
    }
    forall i, k | 0 <= i < |s| && 0 <= k < |r| ensures s[i].storage != r[k].storage {
      assert (s + r)[i] == s[i] && (s + r)[|s| + k] == r[k];
    }
  }

  /** Dropping member `j` and its id keeps the index of the members by storage id. */
  lemma RemoveKeepsIndex<K, V>(r: seq<Slot<K, V>>, idx: map<string, Slot<K, V>>, j: nat)
    requires j < |r| && StoragesDistinct(r) && |idx| == |r|
    requires forall id :: id in idx ==> idx[id] in r && idx[id].storage.id == id
    requires forall i :: 0 <= i < |r| ==> r[i].storage.id in idx && idx[r[i].storage.id] == r[i]
    ensures var qs, idx' := r[..j] + r[j + 1..], idx - {r[j].storage.id};
      |idx'| == |qs| &&
      (forall id :: id in idx' ==> idx'[id] in qs && idx'[id].storage.id == id) &&
      (forall i :: 0 <= i < |qs| ==> qs[i].storage.id in idx' && idx'[qs[i].storage.id] == qs[i])
  {
    var qs, idx' := r[..j] + r[j + 1..], idx - {r[j].storage.id};
    assert idx'.Keys == idx.Keys - {r[j].storage.id};
    IdsAfterRemove(r, idx, j);
    SlotsAfterRemove(r, idx, j);
  }

  /** Every id left in the index names a remaining member. */
  lemma IdsAfterRemove<K, V>(r: seq<Slot<K, V>>, idx: map<string, Slot<K, V>>, j: nat)
    requires j < |r|
    requires forall id :: id in idx ==> idx[id] in r && idx[id].storage.id == id
    ensures var qs, idx' := r[..j] + r[j + 1..], idx - {r[j].storage.id};
      forall id :: id in idx' ==> idx'[id] in qs && idx'[id].storage.id == id
  {
    var qs, idx' := r[..j] + r[j + 1..], idx - {r[j].storage.id};
    forall id | id in idx' ensures idx'[id] in qs && idx'[id].storage.id == id {
      var i :| 0 <= i < |r| && r[i] == idx[id];
      assert i != j;
      assert qs[if i < j then i else i - 1] == r[i];
    }
  }

  /** Every remaining member is still found under its id. */
  lemma SlotsAfterRemove<K, V>(r: seq<Slot<K, V>>, idx: map<string, Slot<K, V>>, j: nat)
    requires j < |r| && StoragesDistinct(r)
    requires forall i :: 0 <= i < |r| ==> r[i].storage.id in idx && idx[r[i].storage.id] == r[i]
    ensures var qs, idx' := r[..j] + r[j + 1..], idx - {r[j].storage.id};
      forall i :: 0 <= i < |qs| ==> qs[i].storage.id in idx' && idx'[qs[i].storage.id] == qs[i]
  {
    var qs, idx' := r[..j] + r[j + 1..], idx - {r[j].storage.id};
    forall i | 0 <= i < |qs| ensures qs[i].storage.id in idx' && idx'[qs[i].storage.id] == qs[i] {
      var y := if i < j then i else i + 1;
      assert qs[i] == r[y] && r[y].storage != r[j].storage;
    }
  }

  /** Dropping member `j` keeps every remaining storage in a set that held them all. */
  lemma RemoveKeepsStorages<K, V>(r: seq<Slot<K, V>>, sts: set<InMemoryStorageNode<K, V>>, j: nat)
    requires j < |r| && forall i :: 0 <= i < |r| ==> r[i].storage in sts
    ensures var qs := r[..j] + r[j + 1..];
      forall i :: 0 <= i < |qs| ==> qs[i].storage in sts
  {
    var qs := r[..j] + r[j + 1..];
    forall i | 0 <= i < |qs| ensures qs[i].storage in sts {
      assert qs[i] == r[if i < j then i else i + 1];
    }
  }

  /** Removing member `j` of a chain `s + r`: a first member joins the detached part, any
      other one leaves the chain. The chain keeps its first slot, its positions in the ring
      space, its distinct storages and their place in `sts`. */
  lemma ChainAfterRemove<K, V>(m: int, s: seq<Slot<K, V>>, r: seq<Slot<K, V>>,
                               sts: set<InMemoryStorageNode<K, V>>, j: nat)
    requires 2 <= |r| && j < |r|
    requires AllInRing(m, Hashes(s + r)) && StoragesDistinct(s + r)
    requires forall i :: 0 <= i < |s| ==> s[i].storage in sts
    requires forall i :: 0 <= i < |r| ==> r[i].storage in sts
    ensures var s', r' := if j == 0 then s + [r[0]] else s, r[..j] + r[j + 1..];
      AllInRing(m, Hashes(s' + r')) && StoragesDistinct(s' + r') &&
      (forall i :: 0 <= i < |s'| ==> s'[i].storage in sts) &&
      (s' + r')[0] == (s + r)[0]
  {
    var s', r' := if j == 0 then s + [r[0]] else s, r[..j] + r[j + 1..];
    if j == 0 {
      assert s' + r' == s + r;
      assert s'[|s|] == r[0];
    } else {
      var c := s + r;
      assert s' + r' == c[..|s| + j] + c[|s| + j + 1..];
      DropKeepsChain(m, c, |s| + j);
      assert (s' + r')[0] == c[0];
    }
  }

  /** A chain `s` of detached slots in front of the members `r` of a valid ring, the index
      `idx` of the members by storage id and a set `sts` holding every storage on the chain. */
  ghost predicate Listed<K, V>(m: int, values: nat -> int, s: seq<Slot<K, V>>, r: seq<Slot<K, V>>,
                               idx: map<string, Slot<K, V>>, sts: set<InMemoryStorageNode<K, V>>)
  {
    0 < m && (forall d: nat :: 0 <= values(d) < m) && |r| <= m - 1 &&
    Clockwise(m, Hashes(r)) && AllInRing(m, Hashes(s + r)) && StoragesDistinct(s + r) &&
    (forall i :: 0 <= i < |s| ==> s[i].storage in sts) &&
    (forall i :: 0 <= i < |r| ==> r[i].storage in sts) &&
    |idx| == |r| &&
    (forall id :: id in idx ==> idx[id] in r && idx[id].storage.id == id) &&
    (forall i :: 0 <= i < |r| ==> r[i].storage.id in idx && idx[r[i].storage.id] == r[i])
  }

  /** Dropping the detached chain in front of a listed ring leaves a listed ring. */
  lemma ChainDropped<K, V>(m: int, values: nat -> int, s: seq<Slot<K, V>>, r: seq<Slot<K, V>>,
                           idx: map<string, Slot<K, V>>, sts: set<InMemoryStorageNode<K, V>>)
    requires Listed(m, values, s, r, idx, sts)
    ensures Listed(m, values, [], r, idx, sts)
  {
    StoragesApart(s, r);
    assert [] + r == r;
  }

  /** The ring `r` with `n` spliced in at its clockwise place, and the index and storages
      with `n` added, are again a listed ring with no detached chain. */
  lemma InsertListed<K, V>(m: int, values: nat -> int, r: seq<Slot<K, V>>, idx: map<string, Slot<K, V>>,
                           sts: set<InMemoryStorageNode<K, V>>, w: nat, n: Slot<K, V>)
    requires Registered(m, values, r, idx, sts)
    requires 0 <= n.hash < m && n.hash !in SetOf(Hashes(r))
    requires w == Route(m, Hashes(r), 0, n.hash)
    requires n.storage.id !in idx
    ensures var j := if w == 0 then |r| else w;
      Listed(m, values, [], r[..j] + [n] + r[j..], idx[n.storage.id := n], sts + {n.storage})
  {
    var j := if w == 0 then |r| else w;
    var qs := r[..j] + [n] + r[j..];
    InsertKeepsOrder(m, r, w, n);
    assert [] + qs == qs;
    forall i | 0 <= i < |r| ensures r[i].storage.id != n.storage.id {
      assert r[i].storage.id in idx;
    }
    InsertKeepsStoragesDistinct(r, j, n);
    InsertKeepsIndex(r, idx, j, n);
    InsertKeepsStorages(r, sts, j, n);
  }

  /** The members `r` of a valid ring with room for one more member, the index `idx` of
      them by storage id and a set `sts` holding their storages. */
  ghost predicate Registered<K, V>(m: int, values: nat -> int, r: seq<Slot<K, V>>,
                                   idx: map<string, Slot<K, V>>, sts: set<InMemoryStorageNode<K, V>>)
  {
    0 < m && (forall d: nat :: 0 <= values(d) < m) &&
    0 < |r| < m - 1 && StoragesDistinct(r) && Clockwise(m, Hashes(r)) && |idx| == |r| &&
    (forall id :: id in idx ==> idx[id] in r && idx[id].storage.id == id) &&
    (forall i :: 0 <= i < |r| ==> r[i].storage.id in idx && idx[r[i].storage.id] == r[i]) &&
    (forall i :: 0 <= i < |r| ==> r[i].storage in sts)
  }

  /** The index of the slot before slot `i` on a cycle of `n` slots. */
  function PrevIndex(n: nat, i: nat): nat
    requires 0 < n
  {
    if i == 0 then n - 1 else i - 1
  }

  /** `ring` is a doubly linked cycle in sequence order: `next` goes one step along the
      sequence (from the last slot back to the first) and `prev` one step back. */
  ghost predicate Cycle<K, V>(ring: seq<Slot<K, V>>)
    reads ring
  {
    (forall i {:trigger ring[i].next} :: 0 <= i < |ring| ==> ring[i].next == ring[NextIndex(|ring|, 0, i)]) &&
    (forall i {:trigger ring[i].prev} :: 0 <= i < |ring| ==> ring[i].prev == ring[PrevIndex(|ring|, i)])
  }

  /** Following `next` through `tail` leads, after its last slot, to the first slot of `ring`. */
  ghost predicate Leads<K, V>(tail: seq<Slot<K, V>>, ring: seq<Slot<K, V>>)
    reads tail
  {
    tail == [] ||
    (ring != [] &&
     forall i {:trigger tail[i].next} :: 0 <= i < |tail| ==>
       tail[i].next == if i + 1 < |tail| then tail[i + 1] else ring[0])
  }

  /** `next` moves one step along `ns`, and from its last slot back to slot `loop` (so `ns`
      is not empty). */
  ghost predicate Linked<K, V>(ns: seq<Slot<K, V>>, loop: nat)
    reads ns
  {
    loop < |ns| &&
    forall i {:trigger ns[i].next} :: 0 <= i < |ns| ==> ns[i].next == ns[NextIndex(|ns|, loop, i)]
  }

  /** Splicing a slot `n` into a cycle just before slot `w` (at the end when `w` is the first
      slot) gives a cycle once the two neighbours point at `n` and `n` at them. */
  lemma SpliceCycle<K, V>(r: seq<Slot<K, V>>, w: nat, n: Slot<K, V>)
    requires w < |r|
    requires var j := if w == 0 then |r| else w;
      (forall i :: 0 <= i < |r| && i != j - 1 ==> r[i].next == r[NextIndex(|r|, 0, i)]) &&
      (forall i :: 0 <= i < |r| && i != w ==> r[i].prev == r[PrevIndex(|r|, i)]) &&
      r[j - 1].next == n && r[w].prev == n && n.next == r[w] && n.prev == r[j - 1]
    ensures var j := if w == 0 then |r| else w;
      Cycle(r[..j] + [n] + r[j..])
  {
    var j := if w == 0 then |r| else w;
    var qs := r[..j] + [n] + r[j..];
    forall i | 0 <= i < |qs|
      ensures qs[i].next == qs[NextIndex(|qs|, 0, i)]
    {
      if i < j {
        assert qs[i] == r[i];
        if i + 1 < j { assert qs[i + 1] == r[i + 1]; }
      } else if i == j {
        if j < |r| { assert qs[j + 1] == r[j]; }
      } else {
        assert qs[i] == r[i - 1];
        if i < |r| { assert qs[i + 1] == r[i]; }
      }
    }
    forall i | 0 <= i < |qs|
      ensures qs[i].prev == qs[PrevIndex(|qs|, i)]
    {
      if i < j {
        assert qs[i] == r[i];
        if 0 < i { assert qs[i - 1] == r[i - 1]; }
        else if w == 0 { assert qs[|qs| - 1] == n; } else { assert qs[|qs| - 1] == r[|r| - 1]; }
      } else if i == j {
        assert qs[j - 1] == r[j - 1];
      } else {
        assert qs[i] == r[i - 1];
        if i - 1 == j { assert qs[i - 1] == n; } else { assert qs[i - 1] == r[i - 2]; }
      }
    }
  }

  lemma HashesInsert<K, V>(r: seq<Slot<K, V>>, j: nat, n: Slot<K, V>)
    requires j <= |r|
    ensures Hashes(r[..j] + [n] + r[j..]) == Hashes(r)[..j] + [n.hash] + Hashes(r)[j..]
  {
  }

  /** Links `n` between the neighbours `a` and `b`. */
  method Wire<K, V>(n: Slot<K, V>, a: Slot<K, V>, b: Slot<K, V>)
    requires n != a && n != b
    modifies n`next, n`prev, a`next, b`prev
    ensures n.next == b && n.prev == a && a.next == n && b.prev == n
  {
    n.next := b;
    n.prev := a;
    a.next := n;
    b.prev := n;
  }

  /** The splice of addNode: a new slot for `st` at position `p` is linked between `next`
      (slot `w` of the cycle `r`) and the slot before it. */

  method Splice<K, V>(ghost r: seq<Slot<K, V>>, ghost w: nat, st: InMemoryStorageNode<K, V>, p: int,
                      next: Slot<K, V>) returns (n: Slot<K, V>)
    requires w < |r| && next == r[w] && Cycle(r)
    requires forall i :: 0 <= i < |r| && i != w ==> r[i] != r[w]
    requires forall i :: 0 <= i < |r| && i != PrevIndex(|r|, w) ==> r[i] != r[PrevIndex(|r|, w)]
    modifies next.prev`next, next`prev
    ensures fresh(n) && n.storage == st && n.hash == p
    ensures var j := if w == 0 then |r| else w;
      Cycle(r[..j] + [n] + r[j..])
    ensures Data(r) == old(Data(r))
  {
    ghost var j := if w == 0 then |r| else w;
    ghost var ds := Data(r);
    assert r[j - 1] == r[PrevIndex(|r|, w)];
    var before := next.prev;
    assert before == r[j - 1];
    n := new Slot(st, p);
    Wire(n, before, next);
    SpliceCycle(r, w, n);
    DataIs(r, ds);
  }

  /** A slot at a free position, spliced in before the slot the walk answers for that
      position, keeps the positions clockwise and adds its own to them. */
  lemma InsertKeepsOrder<K, V>(m: int, r: seq<Slot<K, V>>, w: nat, n: Slot<K, V>)
    requires Clockwise(m, Hashes(r)) && |r| > 0 && 0 <= n.hash < m && n.hash !in SetOf(Hashes(r))
    requires w == Route(m, Hashes(r), 0, n.hash)
    ensures var j := if w == 0 then |r| else w;
      var ps := Hashes(r[..j] + [n] + r[j..]);
      Clockwise(m, ps) && Distinct(ps) && SetOf(ps) == SetOf(Hashes(r)) + {n.hash}
  {
    var j := if w == 0 then |r| else w;
    SplitPoint(m, Hashes(r), n.hash);
    HashesInsert(r, j, n);
    SetOfInsert(Hashes(r), j, n.hash);
    ClockwiseDistinct(m, Hashes(r[..j] + [n] + r[j..]));
  }

  /** A slot whose storage has an id no slot of `r` has keeps the storages distinct. */
  lemma InsertKeepsStoragesDistinct<K, V>(r: seq<Slot<K, V>>, j: nat, n: Slot<K, V>)
    requires j <= |r| && StoragesDistinct(r)
    requires forall i :: 0 <= i < |r| ==> r[i].storage.id != n.storage.id
    ensures StoragesDistinct(r[..j] + [n] + r[j..])
  {
    var qs := r[..j] + [n] + r[j..];
    forall a, b | 0 <= a < b < |qs| ensures qs[a].storage != qs[b].storage {
      var x := if a < j then a else a - 1;
      var y := if b < j then b else b - 1;
      if a != j && b != j {
        assert qs[a] == r[x] && qs[b] == r[y];
      } else if a == j {
        assert qs[a] == n && qs[b] == r[y];
      } else {
        assert qs[a] == r[x] && qs[b] == n;
      }
    }
  }

  /** Registering the spliced slot under its storage's id keeps the index in step with the
      slots. */
  lemma InsertKeepsIndex<K, V>(r: seq<Slot<K, V>>, idx: map<string, Slot<K, V>>, j: nat, n: Slot<K, V>)
    requires j <= |r| && n.storage.id !in idx && |idx| == |r|
    requires forall id :: id in idx ==> idx[id] in r && idx[id].storage.id == id
    requires forall i :: 0 <= i < |r| ==> r[i].storage.id in idx && idx[r[i].storage.id] == r[i]
    ensures var qs, idx' := r[..j] + [n] + r[j..], idx[n.storage.id := n];
      |idx'| == |qs| &&
      (forall id :: id in idx' ==> idx'[id] in qs && idx'[id].storage.id == id) &&
      (forall i :: 0 <= i < |qs| ==> qs[i].storage.id in idx' && idx'[qs[i].storage.id] == qs[i])
  {
    var qs, idx' := r[..j] + [n] + r[j..], idx[n.storage.id := n];
    assert qs[j] == n;
    forall id | id in idx' ensures idx'[id] in qs && idx'[id].storage.id == id {
      if id != n.storage.id {
        var i :| 0 <= i < |r| && r[i] == idx[id];
        assert qs[if i < j then i else i + 1] == r[i];
      }
    }
    forall i | 0 <= i < |qs| ensures qs[i].storage.id in idx' && idx'[qs[i].storage.id] == qs[i] {
      if i != j {
        assert qs[i] == r[if i < j then i else i - 1];
      }
    }
  }

  /** The storages of the spliced slots are those of `r`, and the new slot's. */
  lemma InsertKeepsStorages<K, V>(r: seq<Slot<K, V>>, sts: set<InMemoryStorageNode<K, V>>, j: nat, n: Slot<K, V>)
    requires j <= |r| && forall i :: 0 <= i < |r| ==> r[i].storage in sts
    ensures var qs := r[..j] + [n] + r[j..];
      forall i :: 0 <= i < |qs| ==> qs[i].storage in sts + {n.storage}
  {
    var qs := r[..j] + [n] + r[j..];
    forall i | 0 <= i < |qs| ensures qs[i].storage in sts + {n.storage} {
      if i != j {
        assert qs[i] == r[if i < j then i else i - 1];
      }
    }
  }

  lemma HashesRemove<K, V>(r: seq<Slot<K, V>>, j: nat)
    requires j < |r|
    ensures Hashes(r[..j] + r[j + 1..]) == Hashes(r)[..j] + Hashes(r)[j + 1..]
  {
  }

  /** A chain `s` that led into the cycle `r` leads into it with slot `j` taken out; when the
      first member is taken out it joins the end of the chain, its link still on member 1. */
  lemma UnspliceLeads<K, V>(s: seq<Slot<K, V>>, r: seq<Slot<K, V>>, j: nat)
    requires 2 <= |r| && j < |r| && Leads(s, r)
    requires j == 0 ==> r[0].next == r[1]
    ensures Leads(if j == 0 then s + [r[0]] else s, r[..j] + r[j + 1..])
  {
    var qs := r[..j] + r[j + 1..];
    if j == 0 {
      assert qs[0] == r[1];
      var s' := s + [r[0]];
      forall i | 0 <= i < |s'| ensures s'[i].next == if i + 1 < |s'| then s'[i + 1] else qs[0] {
        if i < |s| {
          assert s'[i] == s[i] && s'[i + 1] == if i + 1 < |s| then s[i + 1] else r[0];
        } else {
          assert s'[i] == r[0];
        }
      }
    } else {
      assert qs[0] == r[0];
    }
  }

  /** Taking slot `j` out of a cycle (the slot before it now linked to the slot after it, and
      back) leaves a cycle of the other slots. */
  lemma UnspliceCycle<K, V>(r: seq<Slot<K, V>>, j: nat)
    requires 2 <= |r| && j < |r|
    requires var a, b := PrevIndex(|r|, j), NextIndex(|r|, 0, j);
      (forall i :: 0 <= i < |r| && i != a ==> r[i].next == r[NextIndex(|r|, 0, i)]) &&
      (forall i :: 0 <= i < |r| && i != b ==> r[i].prev == r[PrevIndex(|r|, i)]) &&
      r[a].next == r[b] && r[b].prev == r[a]
    ensures Cycle(r[..j] + r[j + 1..])
  {
    var qs := r[..j] + r[j + 1..];
    var a, b := PrevIndex(|r|, j), NextIndex(|r|, 0, j);
    forall i | 0 <= i < |qs|
      ensures qs[i].next == qs[NextIndex(|qs|, 0, i)]
    {
      var x := if i < j then i else i + 1;
      assert qs[i] == r[x];
      if x == a {
        assert r[x].next == r[b];
      } else {
        assert r[x].next == r[NextIndex(|r|, 0, x)];
      }
      if i + 1 < |qs| {
        if i + 1 < j { assert qs[i + 1] == r[i + 1]; } else { assert qs[i + 1] == r[i + 2]; }
      } else if 0 < j {
        assert qs[0] == r[0];
      } else {
        assert qs[0] == r[1];
      }
    }
    forall i | 0 <= i < |qs|
      ensures qs[i].prev == qs[PrevIndex(|qs|, i)]
    {
      var x := if i < j then i else i + 1;
      assert qs[i] == r[x];
      if x == b {
        assert r[x].prev == r[a];
      } else {
        assert r[x].prev == r[PrevIndex(|r|, x)];
      }
      if 0 < i {
        if i - 1 < j { assert qs[i - 1] == r[i - 1]; } else { assert qs[i - 1] == r[i]; }
      } else if j + 1 < |r| {
        assert qs[|qs| - 1] == r[|r| - 1];
      } else {
        assert qs[|qs| - 1] == r[|r| - 2];
      }
    }
  }

  /** The two link updates of removeNode: the slot before slot `j` of the cycle `r` now
      leads to the slot after it, and back; the chain `s` in front and all data are untouched. */
  method Relink<K, V>(ghost s: seq<Slot<K, V>>, ghost r: seq<Slot<K, V>>, ghost j: nat, node: Slot<K, V>)
    requires 2 <= |r| && j < |r| && node == r[j] && Cycle(r) && Leads(s, r)
    requires StoragesDistinct(r)
    requires forall i, k :: 0 <= i < |s| && 0 <= k < |r| ==> s[i].storage != r[k].storage
    modifies node.prev`next, node.next`prev
    ensures Cycle(r[..j] + r[j + 1..]) && Leads(s, r) && (j == 0 ==> r[0].next == r[1])
    ensures Data(r) == old(Data(r))
  {
    ghost var a, b := PrevIndex(|r|, j), NextIndex(|r|, 0, j);
    ghost var ds := Data(r);
    node.prev.next := node.next;
    node.next.prev := node.prev;
    forall i | 0 <= i < |r| && i != a
      ensures r[i].next == r[NextIndex(|r|, 0, i)]
    {
      assert r[i].storage != r[a].storage;
    }
    forall i | 0 <= i < |r| && i != b
      ensures r[i].prev == r[PrevIndex(|r|, i)]
    {
      assert r[i].storage != r[b].storage;
    }
    UnspliceCycle(r, j);
    forall i | 0 <= i < |s| ensures s[i].next == if i + 1 < |s| then s[i + 1] else r[0] {
      assert s[i].storage != r[a].storage;
    }
    if j == 0 {
      assert r[0].storage != r[a].storage;
    }
    DataIs(r, ds);
  }

  /** forEach with put: every entry of `src` is put into `dst`, overriding what `dst` held
      for that key; `src` keeps its entries. */
  method CopyEntries<K, V>(src: InMemoryStorageNode<K, V>, dst: InMemoryStorageNode<K, V>)
    requires src != dst
    modifies dst`keyToValue
    ensures dst.keyToValue == old(dst.keyToValue) + src.keyToValue
  {
    var todo := src.keyToValue.Keys;
    while todo != {}
      invariant todo <= src.keyToValue.Keys
      invariant dst.keyToValue == old(dst.keyToValue) + (src.keyToValue - todo)
      decreases todo
    {
      var k :| k in todo;
      MergeUpdate(old(dst.keyToValue), src.keyToValue - todo, k, src.keyToValue[k]);
      assert (src.keyToValue - todo)[k := src.keyToValue[k]] == src.keyToValue - (todo - {k});
      var _ := dst.Put(k, src.keyToValue[k]);
      todo := todo - {k};
    }
    assert src.keyToValue - todo == src.keyToValue;
  }

  /** The transfer of removeNode: the entries of the slot `node` at `j` are put into the
      storage of the slot after it; no other member's data changes. */
  method Transfer<K, V>(ghost s: seq<Slot<K, V>>, ghost r: seq<Slot<K, V>>, ghost ds: seq<map<K, V>>, ghost j: nat,
                        node: Slot<K, V>)
    requires 2 <= |r| && j < |r| && node == r[j] && Cycle(r) && Leads(s, r)
    requires StoragesDistinct(r) && Data(r) == ds
    modifies r[NextIndex(|r|, 0, j)].storage`keyToValue
    ensures Data(r) == ds[NextIndex(|r|, 0, j) := ds[NextIndex(|r|, 0, j)] + ds[j]]
    ensures Cycle(r) && Leads(s, r)
  {
    ghost var t := NextIndex(|r|, 0, j);
    assert node.next == r[t];
    CopyEntries(node.storage, node.next.storage);
    forall i | 0 <= i < |r| && i != t ensures r[i].storage.keyToValue == ds[i] {
      assert r[i].storage != r[t].storage;
    }
    DataAfterStore(r, t, ds);
  }

  /** The branch of removeNode for a ring that keeps members: the entries of `node` (member
      `j` of the clockwise cycle `r`, behind the chain `s`) are put into the member after it,
      then `node` is unlinked. The other members hold what a consistent-hashing ring holds
      once the position of `node` leaves it. */
  method Detach<K, V>(m: int, ghost s: seq<Slot<K, V>>, ghost r: seq<Slot<K, V>>, ghost ds: seq<map<K, V>>,
                      ghost j: nat, node: Slot<K, V>)
    requires Clockwise(m, Hashes(r)) && 2 <= |r| && j < |r| && node == r[j]
    requires StoragesDistinct(s + r) && Cycle(r) && Leads(s, r) && Data(r) == ds
    modifies node.prev`next, node.next`prev, r[NextIndex(|r|, 0, j)].storage`keyToValue
    ensures Cycle(r[..j] + r[j + 1..]) && Leads(if j == 0 then s + [r[0]] else s, r[..j] + r[j + 1..])
    ensures Placed(m, PlacementOf(Hashes(r), ds)) && node.hash in PlacementOf(Hashes(r), ds)
    ensures PlacementOfSlots(r[..j] + r[j + 1..]) == AfterRemove(m, PlacementOf(Hashes(r), ds), node.hash)
  {
    StoragesApart(s, r);
    Transfer(s, r, ds, j, node);
    Relink(s, r, j, node);
    UnspliceLeads(s, r, j);
    DroppedAt(m, r, ds, j);
  }

  /** The loop of findNode over a chain `ns` that starts at `start`: move on while the next
      slot is strictly nearer (clockwise) to `h`, then answer the slot where the walk stopped
      if it sits at `h`, otherwise the slot after it. */
  method Walk<K, V>(m: int, ghost ns: seq<Slot<K, V>>, ghost loop: nat, start: Slot<K, V>, h: int)
    returns (s: Slot<K, V>)
    requires AllInRing(m, Hashes(ns)) && 0 <= h < m
    requires Linked(ns, loop) && start == ns[0]
    ensures s == ns[Route(m, Hashes(ns), loop, h)]
  {
    ghost var ps := Hashes(ns);
    ghost var i: nat := 0;
    var current := start;
    while Distance(m, current.hash, h) > Distance(m, current.next.hash, h)
      invariant i < |ns| && current == ns[i]
      invariant WalkFrom(m, ps, loop, i, h) == WalkFrom(m, ps, loop, 0, h)
      decreases Distance(m, current.hash, h)
    {
      current := current.next;
      i := NextIndex(|ps|, loop, i);
    }
    s := if current.hash == h then current else current.next;
  }

  /** The probe loop of nodeFreeHash: from `start`, step `+1 mod m` while the position is
      taken. It ends because fewer than `m` positions are taken. */
  method Probe(m: int, taken: set<int>, start: int) returns (p: int)
    requires 0 <= start < m && InRing(m, taken) && |taken| < m
    ensures FirstFree(m, taken, start, p)
  {
    p := start;
    while p in taken
      invariant 0 <= p < m
      invariant forall q :: 0 <= q < m && Distance(m, start, q) < Distance(m, start, p) ==> q in taken
      decreases m - Distance(m, start, p)
    {
      FreePositionExists(m, taken);
      var free :| 0 <= free < m && free !in taken;
      assert Distance(m, start, p) < Distance(m, start, free);
      StepAround(m, p);
      p := (p + 1) % m;
    }
  }

  lemma StepAround(m: int, p: int)
    requires 0 <= p < m
    ensures (p + 1) % m == if p + 1 < m then p + 1 else 0
  {
  }
  /** The node-position supplier (a `Supplier<Integer>`): it hands out `values(0)`,
      `values(1)`, ... in turn, and `drawn` counts the values handed out so far. */
  class PositionSupplier {
    const values: nat -> int
    var drawn: nat

    constructor (values: nat -> int)
      ensures this.values == values && drawn == 0
    {
      this.values := values;
      drawn := 0;
    }

    /** get: the next value. */
    method Get() returns (h: int)
      modifies this
      ensures h == values(old(drawn)) && drawn == old(drawn) + 1
    {
      h := values(drawn);
      drawn := drawn + 1;
    }
  }

  /** The HashRing constructor with its argument check: a non-positive number of positions is
      refused; otherwise the ring starts empty. */
  method NewRing<K(==), V>(maxNumberOfNodes: int, nodeHashSupplier: PositionSupplier, murmur: K -> int)
    returns (r: Result<HashRing<K, V>, RingError>)
    requires 0 < maxNumberOfNodes ==> forall n: nat :: 0 <= nodeHashSupplier.values(n) < maxNumberOfNodes
    ensures r.Failure? <==> maxNumberOfNodes < 1
    ensures r.Failure? ==> r.error == NonPositiveMaxNumberOfNodes
    ensures r.Success? ==>
      fresh(r.value) && r.value.Valid() && r.value.maxNumberOfNodes == maxNumberOfNodes &&
      r.value.nodeIdToNode == map[] && r.value.head == null && r.value.Placement() == map[]
  {
    if maxNumberOfNodes < 1 {
      return Failure(NonPositiveMaxNumberOfNodes);
    }
    var ring := new HashRing(maxNumberOfNodes, nodeHashSupplier, murmur);
    r := Success(ring);
  }

  class HashRing<K(==), V> {
    const maxNumberOfNodes: int
    const nodeHashSupplier: PositionSupplier
    /** The raw 32-bit hash of a key (serialisation plus MurmurHash3 in the source). */
    const murmur: K -> int
    var nodeIdToNode: map<string, Slot<K, V>>
    var head: Slot?<K, V>

    /** The member slots in clockwise order, starting at the first member reached from head. */
    ghost var ring: seq<Slot<K, V>>
    /** Slots no longer members that `head` still reaches before the first member: removeNode
        never moves `head`, so a removed head slot stays in front of the cycle. */
    ghost var stale: seq<Slot<K, V>>
    /** A ghost superset of the storages that slots reachable from head hold: removed slots'
        storages stay in it. */
    ghost var storages: set<InMemoryStorageNode<K, V>>

    /** The index agrees with the cycle: each member is registered under its storage's id. */
    ghost predicate Indexed()
      reads this
    {
      |nodeIdToNode| == |ring| &&
      (forall id :: id in nodeIdToNode ==> nodeIdToNode[id] in ring && nodeIdToNode[id].storage.id == id) &&
      (forall i :: 0 <= i < |ring| ==>
         ring[i].storage.id in nodeIdToNode && nodeIdToNode[ring[i].storage.id] == ring[i])
    }

    /** The member positions are distinct ring positions, listed clockwise. */
    ghost predicate Positioned()
      reads this
    {
      0 < maxNumberOfNodes && Clockwise(maxNumberOfNodes, Hashes(ring))
    }

    /** A clockwise cycle of members behind a chain of detached slots, each slot with a storage
        of its own, and an index of the members by id. */
    ghost predicate Valid()
      reads this, stale, ring
    {
      0 < maxNumberOfNodes &&
      (forall n: nat :: 0 <= nodeHashSupplier.values(n) < maxNumberOfNodes) &&
      |ring| <= maxNumberOfNodes - 1 &&
      Clockwise(maxNumberOfNodes, Hashes(ring)) &&
      AllInRing(maxNumberOfNodes, Hashes(stale + ring)) &&
      StoragesDistinct(stale + ring) &&
      (forall i :: 0 <= i < |stale| ==> stale[i].storage in storages) &&
      (forall i :: 0 <= i < |ring| ==> ring[i].storage in storages) &&
      Indexed() &&
      Cycle(ring) &&
      Leads(stale, ring) &&
      (if ring == [] then head == null && stale == [] else head == (stale + ring)[0])
    }

    /** The positions held by member slots. */
    ghost function Positions(): set<int>
      reads this
    {
      SetOf(Hashes(ring))
    }

    /** What the ring holds as a consistent-hashing store: the data of each member, by position. */
    ghost function Placement(): (pl: map<int, map<K, V>>)
      requires Positioned()
      reads this, StoragesOf(ring)
      ensures Placed(maxNumberOfNodes, pl) && pl.Keys == Positions()
    {
      ClockwiseDistinct(maxNumberOfNodes, Hashes(ring));
      PlacementOfSlots(ring)
    }

    /** What a consistent-hashing ring over the member slots answers for key `k`. */
    ghost function Answer(k: K): Option<V>
      requires Positioned()
      reads this, StoragesOf(ring)
    {
      RingLookup(maxNumberOfNodes, murmur, Placement(), k)
    }

    /** The slot index, along the chain, that findNode answers for position `h`. */
    ghost function RouteIndex(h: int): (t: nat)
      requires 0 <= h < maxNumberOfNodes && AllInRing(maxNumberOfNodes, Hashes(stale + ring)) && ring != []
      reads this
      ensures t < |stale| + |ring|
    {
      Route(maxNumberOfNodes, Hashes(stale + ring), |stale|, h)
    }

    /** The slot findNode answers for position `h`. */
    ghost function RouteSlot(h: int): (s: Slot<K, V>)
      requires 0 <= h < maxNumberOfNodes && AllInRing(maxNumberOfNodes, Hashes(stale + ring)) && ring != []
      reads this
      ensures s in stale + ring
    {
      (stale + ring)[RouteIndex(h)]
    }

    /** `next` moves one step along the chain, and from the last slot back to the first member. */
    lemma NextOnChain(i: nat)
      requires Valid() && i < |stale| + |ring|
      ensures (stale + ring)[i].next == (stale + ring)[NextIndex(|stale| + |ring|, |stale|, i)]
    {
      if i < |stale| {
        assert (stale + ring)[i] == stale[i];
        if i + 1 == |stale| {
          assert (stale + ring)[i + 1] == ring[0];
        }
      } else {
        var j := i - |stale|;
        assert (stale + ring)[i] == ring[j];
        assert ring[j].next == ring[NextIndex(|ring|, 0, j)];
      }
    }

    /** Every storage of the chain is one of `storages`. */
    lemma ChainStorages(i: nat)
      requires Valid() && i < |stale| + |ring|
      ensures (stale + ring)[i].storage in storages
    {
      if i >= |stale| {
        assert (stale + ring)[i] == ring[i - |stale|];
      }
    }

    constructor (maxNumberOfNodes: int, nodeHashSupplier: PositionSupplier, murmur: K -> int)
      requires 0 < maxNumberOfNodes
      requires forall n: nat :: 0 <= nodeHashSupplier.values(n) < maxNumberOfNodes
      ensures Valid()
      ensures this.maxNumberOfNodes == maxNumberOfNodes
      ensures this.nodeHashSupplier == nodeHashSupplier && this.murmur == murmur
      ensures nodeIdToNode == map[] && head == null && ring == [] && stale == []
      ensures Placement() == map[]
    {
      this.maxNumberOfNodes := maxNumberOfNodes;
      this.nodeHashSupplier := nodeHashSupplier;
      this.murmur := murmur;
      nodeIdToNode := map[];
      head := null;
      ring := [];
      stale := [];
      storages := {};
    }

    /** The ring position of a key: `Math.abs(murmur % maxNumberOfNodes)`. */
    function KeyHash(key: K): (h: int)
      requires 0 < maxNumberOfNodes
      ensures 0 <= h < maxNumberOfNodes
    {
      BucketOf(maxNumberOfNodes, murmur(key))
    }

    /** The number of member slots. */
    method Size() returns (n: nat)
      requires Valid()
      ensures n == |ring| && n == |Positions()| && n < maxNumberOfNodes
    {
      n := |nodeIdToNode|;
      ClockwiseDistinct(maxNumberOfNodes, Hashes(ring));
      DistinctSetSize(Hashes(ring));
    }

    /** findNode: nothing on an empty ring; otherwise walk from head while the next slot is
        strictly nearer to `h`, then answer that slot if it sits at `h`, else the next one. */
    method FindNode(h: int) returns (r: Option<Slot<K, V>>)
      requires Valid() && 0 <= h < maxNumberOfNodes
      ensures Data(ring) == old(Data(ring))
      ensures r.None? <==> ring == []
      ensures r.Some? ==> r.value == RouteSlot(h)
    {
      if |nodeIdToNode| == 0 {
        return None;
      }
      forall i | 0 <= i < |stale| + |ring|
        ensures (stale + ring)[i].next == (stale + ring)[NextIndex(|stale| + |ring|, |stale|, i)]
      {
        NextOnChain(i);
      }
      var s := Walk(maxNumberOfNodes, stale + ring, |stale|, head, h);
      r := Some(s);
    }

    /** With head a member, the slot findNode answers for `h` is the member that owns `h`, and
        the placement there is what its storage holds. */
    lemma RouteOwns(h: int)
      requires Valid() && stale == [] && ring != [] && 0 <= h < maxNumberOfNodes
      ensures RouteSlot(h) == ring[RouteIndex(h)]
      ensures IsOwner(maxNumberOfNodes, Positions(), h, RouteSlot(h).hash)
      ensures Placement().Keys != {} && Owner(maxNumberOfNodes, Placement().Keys, h) == RouteSlot(h).hash
      ensures Placement()[RouteSlot(h).hash] == RouteSlot(h).storage.keyToValue
    {
      assert stale + ring == ring;
      RouteFindsOwner(maxNumberOfNodes, Hashes(ring), h);
      var t := RouteIndex(h);
      assert Hashes(ring)[t] in Positions();
      var P := Placement().Keys;
      OwnerUnique(maxNumberOfNodes, P, h, Owner(maxNumberOfNodes, P, h), ring[t].hash);
      PlacementOfAt(Hashes(ring), Data(ring), t);
    }

    /** The positions of the indexed slots are the member positions, one per member. */
    lemma IndexedPositions()
      requires Valid()
      ensures (set s | s in nodeIdToNode.Values :: s.hash) == Positions()
      ensures |Positions()| <= |ring|
    {
      var existing := set s | s in nodeIdToNode.Values :: s.hash;
      forall q | q in Positions() ensures q in existing {
        var i :| 0 <= i < |ring| && Hashes(ring)[i] == q;
        assert nodeIdToNode[ring[i].storage.id] == ring[i];
      }
      forall q | q in existing ensures q in Positions() {
        var s :| s in nodeIdToNode.Values && s.hash == q;
        var id :| id in nodeIdToNode && nodeIdToNode[id] == s;
        var i :| 0 <= i < |ring| && ring[i] == s;
        assert Hashes(ring)[i] == q;
      }
      SetOfSize(Hashes(ring));
    }

    /** nodeFreeHash: take the supplier's next value and probe `+1 mod maxNumberOfNodes`
        until no member slot holds the position. */
    method NodeFreeHash() returns (p: int)
      requires Valid() && |ring| < maxNumberOfNodes - 1
      modifies nodeHashSupplier
      ensures Data(ring) == old(Data(ring))
      ensures nodeHashSupplier.drawn == old(nodeHashSupplier.drawn) + 1
      ensures FirstFree(maxNumberOfNodes, Positions(), nodeHashSupplier.values(old(nodeHashSupplier.drawn)), p)
    {
      var existing := set s | s in nodeIdToNode.Values :: s.hash;
      IndexedPositions();
      var start := nodeHashSupplier.Get();
      p := Probe(maxNumberOfNodes, existing, start);
    }

    /** moveKeys: copy to `destination` the entries of `source` whose position is strictly
        nearer (clockwise) to `destination`, then delete from `source` every key `destination`
        holds. */
    method MoveKeys(source: Slot<K, V>, destination: Slot<K, V>)
      requires 0 < maxNumberOfNodes && source.storage != destination.storage
      modifies source.storage`keyToValue, destination.storage`keyToValue
      ensures destination.storage.keyToValue ==
        old(destination.storage.keyToValue) +
        Moved(maxNumberOfNodes, murmur, old(source.storage.keyToValue), source.hash, destination.hash)
      ensures source.storage.keyToValue == old(source.storage.keyToValue) - destination.storage.keyToValue.Keys
    {
      var entries := source.storage.keyToValue;
      var todo := entries.Keys;
      while todo != {}
        invariant todo <= entries.Keys && source.storage.keyToValue == entries
        invariant destination.storage.keyToValue ==
          old(destination.storage.keyToValue) +
          Moved(maxNumberOfNodes, murmur, entries - todo, source.hash, destination.hash)
        decreases todo
      {
        var k :| k in todo;
        MovedStep(maxNumberOfNodes, murmur, entries, todo, k, source.hash, destination.hash);
        var h := KeyHash(k);
        if Distance(maxNumberOfNodes, h, source.hash) > Distance(maxNumberOfNodes, h, destination.hash) {
          MergeUpdate(old(destination.storage.keyToValue),
            Moved(maxNumberOfNodes, murmur, entries - todo, source.hash, destination.hash), k, entries[k]);
          var _ := destination.storage.Put(k, entries[k]);
        }
        todo := todo - {k};
      }
      assert entries - todo == entries;
      var received := destination.storage.keyToValue;
      var held := received.Keys;
      todo := held;
      while todo != {}
        invariant todo <= held && destination.storage.keyToValue == received
        invariant source.storage.keyToValue == entries - (held - todo)
        decreases todo
      {
        var k :| k in todo;
        var _ := source.storage.Remove(k);
        todo := todo - {k};
      }
    }

    /** The members of a valid ring with head a member and room for one more are registered. */
    lemma RegisteredNow()
      requires Valid() && stale == [] && 0 < |ring| < maxNumberOfNodes - 1
      ensures Registered(maxNumberOfNodes, nodeHashSupplier.values, ring, nodeIdToNode, storages)
    {
      assert stale + ring == ring;
    }

    /** The ring is valid again once slot `n`, at a position free in the valid ring `r0`, is
        spliced in just before the member `r0[w]` the walk answers for that position, and
        registered; its positions are those of `r0` and that of `n`. */
    lemma Inserted(r0: seq<Slot<K, V>>, idx0: map<string, Slot<K, V>>, st0: set<InMemoryStorageNode<K, V>>,
                   w: nat, n: Slot<K, V>)
      requires Registered(maxNumberOfNodes, nodeHashSupplier.values, r0, idx0, st0)
      requires 0 <= n.hash < maxNumberOfNodes && n.hash !in SetOf(Hashes(r0))
      requires w == Route(maxNumberOfNodes, Hashes(r0), 0, n.hash)
      requires n.storage.id !in idx0
      requires var j := if w == 0 then |r0| else w;
        ring == r0[..j] + [n] + r0[j..] && Cycle(ring)
      requires stale == [] && head == r0[0]
      requires nodeIdToNode == idx0[n.storage.id := n] && storages == st0 + {n.storage}
      ensures Valid() && Positions() == SetOf(Hashes(r0)) + {n.hash}
    {
      var j := if w == 0 then |r0| else w;
      InsertListed(maxNumberOfNodes, nodeHashSupplier.values, r0, idx0, st0, w, n);
      InsertKeepsOrder(maxNumberOfNodes, r0, w, n);
      assert ring[0] == r0[0];
      Relisted();
    }

    /** The data movement of addNode once `n` is linked in before `next` (slot `w` of `r0`):
        moveKeys hands `n` the entries of `next` that its position now owns; the links of the
        slots `qs` stay as they are. */
    method HandOver(ghost r0: seq<Slot<K, V>>, ghost w: nat, ghost qs: seq<Slot<K, V>>, n: Slot<K, V>, next: Slot<K, V>)
      requires 0 < maxNumberOfNodes
      requires w < |r0| && next == r0[w] && StoragesDistinct(r0) && Cycle(qs)
      requires forall i :: 0 <= i < |r0| ==> r0[i].storage != n.storage
      modifies next.storage`keyToValue, n.storage`keyToValue
      ensures Cycle(qs)
      ensures Data(r0) == old(Data(r0))[w := next.storage.keyToValue]
      ensures n.storage.keyToValue ==
        old(n.storage.keyToValue) + Moved(maxNumberOfNodes, murmur, old(next.storage.keyToValue), next.hash, n.hash)
      ensures next.storage.keyToValue == old(next.storage.keyToValue) - n.storage.keyToValue.Keys
    {
      ghost var ds0 := Data(r0);
      MoveKeys(next, n);
      forall i | 0 <= i < |r0| && i != w ensures r0[i].storage.keyToValue == ds0[i] {
        assert r0[i].storage != next.storage by {
          if i < w { } else { }
        }
      }
      DataAfterStore(r0, w, ds0);
    }

    /** The links and data movement of addNode: `n` goes in before `next` (slot `w` of the
        cycle `r0`), then moveKeys hands it the entries of `next` that its position now owns. */
    method Link(ghost r0: seq<Slot<K, V>>, ghost w: nat, st: InMemoryStorageNode<K, V>, p: int, next: Slot<K, V>)
      returns (n: Slot<K, V>)
      requires 0 < maxNumberOfNodes
      requires w < |r0| && next == r0[w] && Cycle(r0) && StoragesDistinct(r0)
      requires forall i :: 0 <= i < |r0| ==> r0[i].storage != st
      modifies next.prev`next, next`prev, next.storage`keyToValue, st`keyToValue
      ensures fresh(n) && n.storage == st && n.hash == p && unchanged(this)
      ensures Cycle(r0[..if w == 0 then |r0| else w] + [n] + r0[if w == 0 then |r0| else w..])
      ensures Data(r0) == old(Data(r0))[w := next.storage.keyToValue]
      ensures st.keyToValue ==
        old(st.keyToValue) + Moved(maxNumberOfNodes, murmur, old(next.storage.keyToValue), next.hash, p)
      ensures next.storage.keyToValue == old(next.storage.keyToValue) - st.keyToValue.Keys
    {
      ghost var j := if w == 0 then |r0| else w;
      SlotApart(r0, w);
      SlotApart(r0, PrevIndex(|r0|, w));
      n := Splice(r0, w, st, p, next);
      HandOver(r0, w, r0[..j] + [n] + r0[j..], n, next);
    }

    /** The registration of addNode: the members become `qs`, `n`'s storage joins the
        storages and the index maps its storage's id to it; links and data stay. */
    method Enrol(ghost qs: seq<Slot<K, V>>, n: Slot<K, V>)
      modifies this`ring, this`storages, this`nodeIdToNode
      ensures ring == qs && storages == old(storages) + {n.storage}
      ensures nodeIdToNode == old(nodeIdToNode)[n.storage.id := n]
      ensures Cycle(qs) == old(Cycle(qs)) && Data(qs) == old(Data(qs))
      ensures stale == old(stale) && head == old(head)
    {
      ring := qs;
      storages := storages + {n.storage};
      nodeIdToNode := nodeIdToNode[n.storage.id := n];
    }

    /** A ring whose only member is `n`, linked to itself, is valid. */
    lemma Founded(n: Slot<K, V>)
      requires 1 < maxNumberOfNodes && forall d: nat :: 0 <= nodeHashSupplier.values(d) < maxNumberOfNodes
      requires 0 <= n.hash < maxNumberOfNodes && n.next == n && n.prev == n
      requires ring == [n] && stale == [] && head == n
      requires storages == {n.storage} && nodeIdToNode == map[n.storage.id := n]
      ensures Valid() && Positions() == {n.hash}
      ensures Placement() == map[n.hash := n.storage.keyToValue]
    {
      assert stale + ring == [n];
      assert Hashes(ring) == [n.hash];
      assert Hashes(ring)[0] == n.hash;
    }

    /** The empty-ring branch of addNode: a slot for `st` at `p`, linked to itself, becomes head
        and the only member. */
    method Found(st: InMemoryStorageNode<K, V>, p: int) returns (n: Slot<K, V>)
      requires Valid() && ring == [] && 1 < maxNumberOfNodes && 0 <= p < maxNumberOfNodes
      modifies this
      ensures Valid() && stale == [] && |ring| == old(|ring|) + 1
      ensures nodeIdToNode == old(nodeIdToNode)[st.id := n] && n.storage == st && n.hash == p
      ensures Positions() == old(Positions()) + {p}
      ensures Placement() == AfterAdd(maxNumberOfNodes, murmur, old(Placement()), p, old(st.keyToValue))
    {
      n := new Slot(st, p);
      n.next := n;
      n.prev := n;
      head := n;
      ring := [n];
      storages := {st};
      nodeIdToNode := nodeIdToNode[st.id := n];
      Founded(n);
    }

    /** The branch of addNode for a ring with members: a slot for `st` at the free position `p`
        goes in before `next`, the member findNode answers for `p`, takes over the entries of
        `next` that `p` now owns, and is registered. */
    method Grow(st: InMemoryStorageNode<K, V>, p: int, next: Slot<K, V>) returns (n: Slot<K, V>)
      requires Registered(maxNumberOfNodes, nodeHashSupplier.values, ring, nodeIdToNode, storages)
      requires stale == [] && head == ring[0] && Cycle(ring)
      requires 0 <= p < maxNumberOfNodes && p !in Positions() && st.id !in nodeIdToNode
      requires next == ring[Route(maxNumberOfNodes, Hashes(ring), 0, p)]
      modifies this, ring, next.storage, st
      ensures Valid() && stale == [] && |ring| == old(|ring|) + 1
      ensures nodeIdToNode == old(nodeIdToNode)[st.id := n] && n.storage == st && n.hash == p
      ensures head == old(head)
      ensures Positions() == old(Positions()) + {p}
      ensures Placement() == AfterAdd(maxNumberOfNodes, murmur, old(Placement()), p, old(st.keyToValue))
    {
      ghost var r0, idx0, st0, ds0 := ring, nodeIdToNode, storages, Data(ring);
      assert Placement() == PlacementOf(Hashes(r0), ds0);
      ghost var w := Route(maxNumberOfNodes, Hashes(r0), 0, p);
      forall i | 0 <= i < |r0| ensures r0[i].storage != st {
        assert r0[i].storage.id in nodeIdToNode;
      }
      n := Link(r0, w, st, p, next);
      JoinedAt(maxNumberOfNodes, murmur, r0, ds0, w, n, old(st.keyToValue));
      ghost var j := if w == 0 then |r0| else w;
      Enrol(r0[..j] + [n] + r0[j..], n);
      Inserted(r0, idx0, st0, w, n);
    }

    /** The placement part of addNode, for a storage not registered and a free position `p`:
        found the ring with it, or splice it in before the member findNode answers for `p`. */
    method Admit(st: InMemoryStorageNode<K, V>, p: int) returns (n: Slot<K, V>)
      requires Valid() && stale == [] && st.id !in nodeIdToNode && |nodeIdToNode| < maxNumberOfNodes - 1
      requires 0 <= p < maxNumberOfNodes && p !in Positions()
      modifies this, ring, set s | s in ring :: s.storage, st
      ensures Valid() && stale == [] && |ring| == old(|ring|) + 1
      ensures nodeIdToNode == old(nodeIdToNode)[st.id := n] && n.storage == st && n.hash == p
      ensures old(head) != null ==> head == old(head)
      ensures Positions() == old(Positions()) + {p}
      ensures Placement() == AfterAdd(maxNumberOfNodes, murmur, old(Placement()), p, old(st.keyToValue))
    {
      if |nodeIdToNode| == 0 {
        n := Found(st, p);
      } else {
        var found := FindNode(p);
        RegisteredNow();
        assert stale + ring == ring;
        n := Grow(st, p, found.value);
      }
    }

    /** addNode: refuse a storage whose id is registered, then a full ring; otherwise take a
        free position, splice a slot for the storage in before the member findNode answers for
        that position, hand it the entries it now owns, and register it. */
    method AddNode(st: InMemoryStorageNode<K, V>) returns (o: Outcome)
      requires Valid() && stale == []
      modifies this, ring, set s | s in ring :: s.storage, st, nodeHashSupplier
      ensures Valid() && stale == []
      ensures o == Rejected(DuplicateNode) <==> old(st.id in nodeIdToNode)
      ensures o == Rejected(RingFull) <==>
        old(st.id !in nodeIdToNode && |nodeIdToNode| == maxNumberOfNodes - 1)
      ensures o.Rejected? ==>
        unchanged(this) && unchanged(old(ring)) && unchanged(old(storages)) && unchanged(st) && unchanged(nodeHashSupplier)
      ensures o.Done? ==>
        nodeHashSupplier.drawn == old(nodeHashSupplier.drawn) + 1 && |ring| == old(|ring|) + 1 &&
        st.id in nodeIdToNode && nodeIdToNode[st.id].storage == st &&
        nodeIdToNode == old(nodeIdToNode)[st.id := nodeIdToNode[st.id]] &&
        (old(head) != null ==> head == old(head)) &&
        FirstFree(maxNumberOfNodes, old(Positions()), nodeHashSupplier.values(old(nodeHashSupplier.drawn)), nodeIdToNode[st.id].hash) &&
        Positions() == old(Positions()) + {nodeIdToNode[st.id].hash} &&
        Placement() == AfterAdd(maxNumberOfNodes, murmur, old(Placement()), nodeIdToNode[st.id].hash, old(st.keyToValue))
    {
      if st.id in nodeIdToNode {
        return Rejected(DuplicateNode);
      }
      if |nodeIdToNode| == maxNumberOfNodes - 1 {
        return Rejected(RingFull);
      }
      var p := NodeFreeHash();
      var n := Admit(st, p);
      o := Done;
    }

    /** The chain, members, index and storages of a valid ring are listed. */
    lemma ListedNow()
      requires Valid()
      ensures Listed(maxNumberOfNodes, nodeHashSupplier.values, stale, ring, nodeIdToNode, storages)
    {
    }

    /** A listed ring whose slots are linked as a cycle behind their chain, with head on the
        first slot of the chain, is valid. */
    lemma Relisted()
      requires Listed(maxNumberOfNodes, nodeHashSupplier.values, stale, ring, nodeIdToNode, storages)
      requires Cycle(ring) && Leads(stale, ring)
      requires if ring == [] then head == null && stale == [] else head == (stale + ring)[0]
      ensures Valid()
    {
    }

    /** The ring is valid again once member `j` of the valid ring `r0` (behind the detached
        chain `s0`) is unlinked and unregistered: a first member joins the detached chain,
        any other one just leaves. Its positions are those of `r0` without that member's. */
    lemma Removed(s0: seq<Slot<K, V>>, r0: seq<Slot<K, V>>, idx0: map<string, Slot<K, V>>,
                  st0: set<InMemoryStorageNode<K, V>>, j: nat)
      requires Listed(maxNumberOfNodes, nodeHashSupplier.values, s0, r0, idx0, st0)
      requires 2 <= |r0| && j < |r0| && head == (s0 + r0)[0]
      requires ring == r0[..j] + r0[j + 1..] && stale == (if j == 0 then s0 + [r0[0]] else s0)
      requires Cycle(ring) && Leads(stale, ring)
      requires storages == st0 && nodeIdToNode == idx0 - {r0[j].storage.id}
      ensures Valid() && Positions() == SetOf(Hashes(r0)) - {r0[j].hash}
    {
      ClockwiseDistinct(maxNumberOfNodes, Hashes(r0));
      HashesRemove(r0, j);
      RemoveKeepsClockwise(maxNumberOfNodes, Hashes(r0), j);
      SetOfRemove(Hashes(r0), j);
      StoragesApart(s0, r0);
      ChainAfterRemove(maxNumberOfNodes, s0, r0, st0, j);
      RemoveKeepsIndex(r0, idx0, j);
      RemoveKeepsStorages(r0, st0, j);
    }

    /** The registration changes of removeNode: the members become `qs`, the detached chain
        `ss`; links and data stay. */
    method Retire(ghost qs: seq<Slot<K, V>>, ghost ss: seq<Slot<K, V>>)
      modifies this`ring, this`stale
      ensures ring == qs && stale == ss && storages == old(storages)
      ensures nodeIdToNode == old(nodeIdToNode) && head == old(head)
      ensures Cycle(qs) == old(Cycle(qs)) && Leads(ss, qs) == old(Leads(ss, qs)) && Data(qs) == old(Data(qs))
    {
      ring := qs;
      stale := ss;
    }

    /** The index update of removeNode: the id leaves the index; links and data stay. */
    method Unregister(id: string, ghost s0: seq<Slot<K, V>>, ghost r0: seq<Slot<K, V>>)
      modifies this`nodeIdToNode
      ensures nodeIdToNode == old(nodeIdToNode) - {id}
      ensures head == old(head) && ring == old(ring) && stale == old(stale) && storages == old(storages)
      ensures Cycle(r0) == old(Cycle(r0)) && Leads(s0, r0) == old(Leads(s0, r0)) && Data(r0) == old(Data(r0))
    {
      nodeIdToNode := nodeIdToNode - {id};
    }

    /** The branch of removeNode once no member is left: head is cleared, and there are no
        members and no chain. */
    method Clear()
      requires 0 < maxNumberOfNodes && (forall d: nat :: 0 <= nodeHashSupplier.values(d) < maxNumberOfNodes)
      requires nodeIdToNode == map[]
      modifies this`head, this`ring, this`stale
      ensures Valid() && head == null && ring == [] && Positions() == {} && Placement() == map[]
      ensures nodeIdToNode == old(nodeIdToNode)
    {
      head := null;
      ring := [];
      stale := [];
    }

    /** The branch of removeNode for a ring that keeps members: `node` (member `j` of `r0`)
        hands its entries on and is unlinked, then the member list and the chain are updated. */
    method DropMember(ghost s0: seq<Slot<K, V>>, ghost r0: seq<Slot<K, V>>, ghost idx0: map<string, Slot<K, V>>,
                      ghost st0: set<InMemoryStorageNode<K, V>>, ghost ds0: seq<map<K, V>>, ghost j: nat,
                      node: Slot<K, V>)
      requires Listed(maxNumberOfNodes, nodeHashSupplier.values, s0, r0, idx0, st0)
      requires 2 <= |r0| && j < |r0| && node == r0[j]
      requires stale == s0 && ring == r0 && storages == st0 && head == (s0 + r0)[0]
      requires nodeIdToNode == idx0 - {node.storage.id}
      requires Cycle(r0) && Leads(s0, r0) && Data(r0) == ds0
      modifies this`ring, this`stale, node.prev`next, node.next`prev
      modifies r0[NextIndex(|r0|, 0, j)].storage`keyToValue
      ensures Valid() && Positions() == SetOf(Hashes(r0)) - {node.hash}
      ensures Placed(maxNumberOfNodes, PlacementOf(Hashes(r0), ds0)) && node.hash in PlacementOf(Hashes(r0), ds0)
      ensures Placement() == AfterRemove(maxNumberOfNodes, PlacementOf(Hashes(r0), ds0), node.hash)
      ensures nodeIdToNode == old(nodeIdToNode) && head == old(head) && |stale| <= |s0| + 1
    {
      Detach(maxNumberOfNodes, s0, r0, ds0, j, node);
      Settle(s0, r0, idx0, st0, j, AfterRemove(maxNumberOfNodes, PlacementOf(Hashes(r0), ds0), node.hash));
    }

    /** The member list and the detached chain after the slot at `j` is unlinked. */
    method Settle(ghost s0: seq<Slot<K, V>>, ghost r0: seq<Slot<K, V>>, ghost idx0: map<string, Slot<K, V>>,
                  ghost st0: set<InMemoryStorageNode<K, V>>, ghost j: nat, ghost pl: map<int, map<K, V>>)
      requires Listed(maxNumberOfNodes, nodeHashSupplier.values, s0, r0, idx0, st0)
      requires 2 <= |r0| && j < |r0| && head == (s0 + r0)[0]
      requires storages == st0 && nodeIdToNode == idx0 - {r0[j].storage.id}
      requires Cycle(r0[..j] + r0[j + 1..]) && Leads(if j == 0 then s0 + [r0[0]] else s0, r0[..j] + r0[j + 1..])
      requires PlacementOfSlots(r0[..j] + r0[j + 1..]) == pl
      modifies this`ring, this`stale
      ensures Valid() && Positions() == SetOf(Hashes(r0)) - {r0[j].hash} && ring == r0[..j] + r0[j + 1..]
      ensures Placement() == pl && nodeIdToNode == old(nodeIdToNode) && head == old(head)
      ensures stale == if j == 0 then s0 + [r0[0]] else s0
    {
      Retire(r0[..j] + r0[j + 1..], if j == 0 then s0 + [r0[0]] else s0);
      Removed(s0, r0, idx0, st0, j);
    }

    /** removeNode: refuse a storage whose id is not registered; otherwise unregister it and,
        when members remain, put its entries into the member after its slot and unlink that
        slot, and when none remain clear head. Head is never moved to another member. */
    method RemoveNode(st: InMemoryStorageNode<K, V>) returns (o: Outcome)
      requires Valid()
      modifies this, ring, set s | s in ring :: s.storage
      ensures Valid()
      ensures o == Rejected(UnknownNode) <==> old(st.id !in nodeIdToNode)
      ensures o.Rejected? ==> unchanged(this) && unchanged(old(ring)) && unchanged(old(storages))
      ensures o.Done? ==>
        old(st.id in nodeIdToNode) &&
        nodeIdToNode == old(nodeIdToNode) - {st.id} &&
        Positions() == old(Positions()) - {old(nodeIdToNode[st.id].hash)} &&
        old(nodeIdToNode[st.id].hash) in old(Placement()) &&
        Placement() == AfterRemove(maxNumberOfNodes, old(Placement()), old(nodeIdToNode[st.id].hash)) &&
        head == if old(|nodeIdToNode|) == 1 then null else old(head)
    {
      if st.id !in nodeIdToNode {
        return Rejected(UnknownNode);
      }
      ghost var ds0 := Data(ring);
      ListedNow();
      assert Placement() == PlacementOf(Hashes(ring), ds0);
      Drop(st.id, stale, ring, nodeIdToNode, storages, ds0);
      o := Done;
    }

    /** With head on a slot whose storage is no longer registered, that slot is the first of
        the detached chain, and findNode answers it for its own position. */
    lemma HeadDetached()
      requires Valid() && head != null && head.storage.id !in nodeIdToNode
      ensures stale != [] && head == stale[0] && 0 <= head.hash < maxNumberOfNodes
      ensures RouteSlot(head.hash) == head
    {
      forall i | 0 <= i < |ring| ensures ring[i] != head {
        assert ring[i].storage.id in nodeIdToNode;
      }
      assert ring != [] && ring[0] != head;
      var ps := Hashes(stale + ring);
      assert ps[0] == head.hash;
      assert WalkFrom(maxNumberOfNodes, ps, |stale|, 0, head.hash) == 0;
    }

    /** With head on a registered member, there is no detached chain. */
    lemma HeadMember()
      requires Valid() && head != null
      requires head.storage.id in nodeIdToNode && nodeIdToNode[head.storage.id] == head
      ensures stale == []
    {
      forall i | 0 <= i < |ring| ensures stale != [] ==> ring[i] != stale[0] {
        if stale != [] {
          assert (stale + ring)[0].storage != (stale + ring)[|stale| + i].storage;
        }
      }
    }

    /** Head moves from the single detached slot on to the first member, which it leads to. */
    method Advance()
      requires Valid() && |stale| == 1
      modifies this`head, this`stale
      ensures Valid() && stale == [] && head == old(head.next) && head == ring[0]
      ensures ring == old(ring) && nodeIdToNode == old(nodeIdToNode) && storages == old(storages)
      ensures PlacementOfSlots(ring) == old(PlacementOfSlots(ring))
    {
      ListedNow();
      assert head == stale[0] && head.next == ring[0];
      ChainDropped(maxNumberOfNodes, nodeHashSupplier.values, stale, ring, nodeIdToNode, storages);
      ghost var pl := PlacementOfSlots(ring);
      Lead(head.next);
      assert PlacementOfSlots(ring) == pl;
      Relisted();
    }

    /** Head moves to `n`, and the detached chain is gone; nothing else changes. */
    method Lead(n: Slot<K, V>)
      modifies this`head, this`stale
      ensures head == n && stale == []
      ensures Data(ring) == old(Data(ring)) && Cycle(ring) == old(Cycle(ring))
    {
      head := n;
      stale := [];
    }

    /** removeNode as its authors evidently meant it: when the removed slot is the head, head
        moves on to the next member, so head stays a member and no chain of detached slots
        forms. Otherwise as removeNode. */
    method RemoveNodeAdvancingHead(st: InMemoryStorageNode<K, V>) returns (o: Outcome)
      requires Valid() && stale == []
      modifies this, ring, set s | s in ring :: s.storage
      ensures Valid() && stale == []
      ensures o == Rejected(UnknownNode) <==> old(st.id !in nodeIdToNode)
      ensures o.Rejected? ==> unchanged(this) && unchanged(old(ring)) && unchanged(old(storages))
      ensures o.Done? ==>
        old(st.id in nodeIdToNode) &&
        nodeIdToNode == old(nodeIdToNode) - {st.id} &&
        Positions() == old(Positions()) - {old(nodeIdToNode[st.id].hash)} &&
        old(nodeIdToNode[st.id].hash) in old(Placement()) &&
        Placement() == AfterRemove(maxNumberOfNodes, old(Placement()), old(nodeIdToNode[st.id].hash)) &&
        head == if old(|nodeIdToNode|) == 1 then null
                else if old(head) == old(nodeIdToNode[st.id]) then ring[0] else old(head)
    {
      if st.id !in nodeIdToNode {
        return Rejected(UnknownNode);
      }
      var node := nodeIdToNode[st.id];
      ghost var ds0 := Data(ring);
      ListedNow();
      assert Placement() == PlacementOf(Hashes(ring), ds0);
      Drop(st.id, stale, ring, nodeIdToNode, storages, ds0);
      if head == node {
        HeadDetached();
        Advance();
      } else if head != null {
        assert old(nodeIdToNode[head.storage.id]) == head;
        HeadMember();
      }
      o := Done;
    }

    /** The removal itself, for a registered id: the id leaves the index; with no member left
        head is cleared, otherwise the entries of the slot are put into the member after it
        and the slot is unlinked. */
    method Drop(id: string, ghost s0: seq<Slot<K, V>>, ghost r0: seq<Slot<K, V>>,
                ghost idx0: map<string, Slot<K, V>>, ghost st0: set<InMemoryStorageNode<K, V>>,
                ghost ds0: seq<map<K, V>>)
      requires Listed(maxNumberOfNodes, nodeHashSupplier.values, s0, r0, idx0, st0) && id in idx0
      requires stale == s0 && ring == r0 && nodeIdToNode == idx0 && storages == st0 && head == (s0 + r0)[0]
      requires Cycle(r0) && Leads(s0, r0) && Data(r0) == ds0
      requires Placed(maxNumberOfNodes, PlacementOf(Hashes(r0), ds0))
      modifies this`head, this`ring, this`stale, this`nodeIdToNode, r0, set s | s in r0 :: s.storage
      ensures Valid() && nodeIdToNode == idx0 - {id}
      ensures Positions() == SetOf(Hashes(r0)) - {idx0[id].hash}
      ensures idx0[id].hash in PlacementOf(Hashes(r0), ds0)
      ensures Placement() == AfterRemove(maxNumberOfNodes, PlacementOf(Hashes(r0), ds0), idx0[id].hash)
      ensures head == if |idx0| == 1 then null else old(head)
      ensures |stale| <= |s0| + 1
    {
      var node := nodeIdToNode[id];
      ghost var j :| 0 <= j < |r0| && r0[j] == node;
      assert Hashes(r0)[j] == node.hash;
      Unregister(id, s0, r0);
      if |nodeIdToNode| == 0 {
        Clear();
        assert r0 == [node];
      } else {
        assert r0[NextIndex(|r0|, 0, j)].storage in st0;
        DropMember(s0, r0, idx0, st0, ds0, j, node);
      }
    }

    /** With a single member that head points at, findNode answers it for every position. */
    lemma SingleSlotRoute(h: int)
      requires Valid() && stale == [] && |ring| == 1 && 0 <= h < maxNumberOfNodes
      ensures RouteSlot(h) == ring[0] && ring[0] == head
    {
    }

    /** With head a member, the ring's answer for `k` is what the storage findNode reaches
        holds for `k`. */
    lemma AnswerRouted(k: K)
      requires Valid() && stale == []
      ensures Answer(k) == if ring == [] then None else Lookup(RouteSlot(KeyHash(k)).storage.keyToValue, k)
    {
      if ring != [] {
        RouteOwns(KeyHash(k));
      }
    }

    /** When only the storage of member `t` changed, the placement changed at that member's
        position alone. */
    twostate lemma StorePlaced(t: nat)
      requires old(Positioned()) && unchanged(this) && StoragesDistinct(ring) && t < |ring|
      requires forall i :: 0 <= i < |ring| && ring[i].storage != ring[t].storage ==>
        ring[i].storage.keyToValue == old(ring[i].storage.keyToValue)
      ensures ring[t].hash in old(Placement())
      ensures old(Placement())[ring[t].hash] == old(ring[t].storage.keyToValue)
      ensures Placement() == old(Placement())[ring[t].hash := ring[t].storage.keyToValue]
    {
      ClockwiseDistinct(maxNumberOfNodes, Hashes(ring));
      var ds := old(Data(ring));
      PlacementOfAt(Hashes(ring), ds, t);
      forall i | 0 <= i < |ring| && i != t ensures ring[i].storage.keyToValue == ds[i] {
        assert ring[i].storage != ring[t].storage;
      }
      DataAfterStore(ring, t, ds);
      PlacementOfUpdate(Hashes(ring), ds, t, ring[t].storage.keyToValue);
    }

    /** With head a member, the member findNode answers for `key` is the abstract owner of its
        position. */
    lemma KeyOwner(key: K)
      requires Valid() && stale == [] && ring != []
      ensures Positions() != {} && Owner(maxNumberOfNodes, Positions(), KeyHash(key)) == RouteSlot(KeyHash(key)).hash
    {
      RouteOwns(KeyHash(key));
    }

    /** Validity depends on the ring object and its slots alone, not on what the storages hold. */
    twostate lemma ValidKept()
      requires old(Valid()) && unchanged(this) && unchanged(stale) && unchanged(ring)
      ensures Valid()
    {
    }

    /** After the storage findNode answers for `key`, and no other, changed, the ring is still
        valid; with head a member, the placement changed only at the owner of the key's
        position, whose data was what that storage held. */
    twostate lemma StoredAtRoute(key: K)
      requires old(Valid()) && unchanged(this) && unchanged(old(stale)) && unchanged(old(ring)) && ring != []
      requires forall s :: s in storages && s != RouteSlot(KeyHash(key)).storage ==>
        s.keyToValue == old(s.keyToValue)
      ensures Valid()
      ensures stale == [] ==>
        old(Positions()) != {} && old(Positions()) == old(Placement()).Keys &&
        var s, o := RouteSlot(KeyHash(key)), Owner(maxNumberOfNodes, old(Positions()), KeyHash(key));
        s.hash == o && o in old(Placement()) && old(Placement())[o] == old(s.storage.keyToValue) &&
        Placement() == old(Placement())[o := s.storage.keyToValue]
    {
      ValidKept();
      if stale == [] {
        var t := RouteIndex(KeyHash(key));
        assert stale + ring == ring;
        forall i | 0 <= i < |ring| && ring[i].storage != ring[t].storage
          ensures ring[i].storage.keyToValue == old(ring[i].storage.keyToValue)
        {
          assert ring[i].storage in storages;
        }
        KeyOwner(key);
        StorePlaced(t);
      }
    }

    /** put: store the entry in the storage of the slot findNode answers and return `value`;
        fails on an empty ring. */
    method Put(key: K, value: V) returns (r: Result<V, RingError>)
      requires Valid()
      modifies storages
      ensures Valid()
      ensures r.Failure? <==> ring == []
      ensures r.Failure? ==> r.error == EmptyRing
      ensures r.Success? ==> r.value == value
      ensures ring != [] ==>
        var s := RouteSlot(KeyHash(key)).storage;
        s.keyToValue == old(s.keyToValue)[key := value]
      ensures forall s :: s in storages && (ring == [] || s != RouteSlot(KeyHash(key)).storage) ==>
        s.keyToValue == old(s.keyToValue)
      ensures stale == [] ==> Placement() == AfterPut(maxNumberOfNodes, murmur, old(Placement()), key, value)
    {
      var node := FindNode(KeyHash(key));
      if node.None? {
        return Failure(EmptyRing);
      }
      ChainStorages(RouteIndex(KeyHash(key)));
      var v := node.value.storage.Put(key, value);
      r := Success(v);
      StoredAtRoute(key);
    }

    /** get: read the key from the storage of the slot findNode answers; nothing on an empty
        ring. */
    method Get(key: K) returns (r: Option<V>)
      requires Valid()
      ensures ring == [] ==> r == None
      ensures ring != [] ==> r == Lookup(RouteSlot(KeyHash(key)).storage.keyToValue, key)
      ensures stale == [] ==> r == Answer(key)
    {
      var node := FindNode(KeyHash(key));
      if node.None? {
        r := None;
      } else {
        r := node.value.storage.Get(key);
      }
      if stale == [] {
        AnswerRouted(key);
      }
    }

    /** remove: delete the key from the storage of the slot findNode answers and return the
        value it held; nothing on an empty ring. */
    method Remove(key: K) returns (r: Option<V>)
      requires Valid()
      modifies storages
      ensures Valid()
      ensures ring == [] ==> r == None
      ensures ring != [] ==>
        var s := RouteSlot(KeyHash(key)).storage;
        r == Lookup(old(s.keyToValue), key) && s.keyToValue == old(s.keyToValue) - {key}
      ensures forall s :: s in storages && (ring == [] || s != RouteSlot(KeyHash(key)).storage) ==>
        s.keyToValue == old(s.keyToValue)
      ensures stale == [] ==> r == old(Answer(key))
      ensures stale == [] ==> Placement() == AfterRemoveKey(maxNumberOfNodes, murmur, old(Placement()), key)
    {
      var node := FindNode(KeyHash(key));
      if node.None? {
        return None;
      }
      ChainStorages(RouteIndex(KeyHash(key)));
      r := node.value.storage.Remove(key);
      StoredAtRoute(key);
    }
  }
}
