/** The value-level model of the ring: the clockwise order of slot positions, the lookup walk
    of findNode as a function, and the placement of data on slots (position -> storage map)
    together with the abstract effect of adding and removing a slot and of key operations. */
module RingModel {
  import opened Wrappers
  import opened RingMath
  import opened Storage

  // ---------------------------------------------------------------------------------------
  // Positions in clockwise order

  ghost predicate AllInRing(m: int, ps: seq<int>)
  {
    forall i :: 0 <= i < |ps| ==> 0 <= ps[i] < m
  }

  ghost function SetOf(ps: seq<int>): set<int>
  {
    set i | 0 <= i < |ps| :: ps[i]
  }

  ghost predicate Distinct(ps: seq<int>)
  {
    forall i, j :: 0 <= i < j < |ps| ==> ps[i] != ps[j]
  }

  /** Walking clockwise from `ps[0]`, the positions are met in the order of the sequence. */
  ghost predicate Clockwise(m: int, ps: seq<int>)
  {
    AllInRing(m, ps) &&
    forall i, j :: 0 <= i < j < |ps| ==> Distance(m, ps[0], ps[i]) < Distance(m, ps[0], ps[j])
  }

  lemma ClockwiseDistinct(m: int, ps: seq<int>)
    requires Clockwise(m, ps)
    ensures Distinct(ps)
  {
  }

  /** The index of the slot after slot `i` in a sequence of `n` slots whose last slot links
      back to slot `loop` (0 for a proper cycle). */
  function NextIndex(n: nat, loop: nat, i: nat): nat
  {
    if i + 1 < n then i + 1 else loop
  }

  // ---------------------------------------------------------------------------------------
  // The findNode walk

  /** From slot `i`, move to the next slot while that one is strictly nearer (clockwise) to
      `h`; the index where the walk stops. The distance to `h` shrinks at every step. */
  ghost function WalkFrom(m: int, ps: seq<int>, loop: nat, i: nat, h: int): (k: nat)
    requires AllInRing(m, ps) && loop < |ps| && i < |ps| && 0 <= h < m
    ensures k < |ps|
    decreases Distance(m, ps[i], h)
  {
    var j := NextIndex(|ps|, loop, i);
    if Distance(m, ps[i], h) > Distance(m, ps[j], h) then WalkFrom(m, ps, loop, j, h) else i
  }

  /** The slot findNode answers for `h`: where the walk from slot 0 stopped if it sits exactly
      at `h`, otherwise the slot after it. */
  ghost function Route(m: int, ps: seq<int>, loop: nat, h: int): (k: nat)
    requires AllInRing(m, ps) && loop < |ps| && 0 <= h < m
    ensures k < |ps|
  {
    var k := WalkFrom(m, ps, loop, 0, h);
    if ps[k] == h then k else NextIndex(|ps|, loop, k)
  }

  /** On a clockwise cycle the walk from slot `i` (not past `h`) stops at the last slot not
      past `h`. */
  lemma {:induction false} WalkStops(m: int, ps: seq<int>, i: nat, h: int)
    requires Clockwise(m, ps) && i < |ps| && 0 <= h < m
    requires Distance(m, ps[0], ps[i]) <= Distance(m, ps[0], h)
    ensures var k := WalkFrom(m, ps, 0, i, h);
      Distance(m, ps[0], ps[k]) <= Distance(m, ps[0], h) &&
      (k + 1 < |ps| ==> Distance(m, ps[0], h) < Distance(m, ps[0], ps[k + 1]))
    decreases |ps| - i
  {
    var a := ps[0];
    DistanceVia(m, a, ps[i], h);
    if i + 1 < |ps| {
      DistanceVia(m, a, ps[i + 1], h);
      assert Distance(m, a, ps[i]) < Distance(m, a, ps[i + 1]);
      if Distance(m, a, ps[i + 1]) <= Distance(m, a, h) {
        WalkStops(m, ps, i + 1, h);
      }
    } else {
      DistanceVia(m, a, ps[0], h);
    }
  }

  /** findNode is correct on a proper clockwise cycle: it answers the owner of `h`. */
  lemma {:induction false} RouteFindsOwner(m: int, ps: seq<int>, h: int)
    requires Clockwise(m, ps) && |ps| > 0 && 0 <= h < m
    ensures IsOwner(m, SetOf(ps), h, ps[Route(m, ps, 0, h)])
  {
    var a := ps[0];
    var k := WalkFrom(m, ps, 0, 0, h);
    WalkStops(m, ps, 0, h);
    var r := Route(m, ps, 0, h);
    assert ps[r] in SetOf(ps);
    if ps[k] != h {
      assert Distance(m, a, ps[k]) < Distance(m, a, h);
      forall q | q in SetOf(ps)
        ensures Distance(m, h, ps[r]) <= Distance(m, h, q)
      {
        var i :| 0 <= i < |ps| && ps[i] == q;
        DistanceVia(m, a, h, q);
        DistanceVia(m, a, h, ps[r]);
        if i <= k {
          assert Distance(m, a, ps[i]) <= Distance(m, a, ps[k]);
        } else {
          assert Distance(m, a, ps[k + 1]) <= Distance(m, a, ps[i]);
        }
      }
    }
  }

  /** In a clockwise cycle of two or more slots, the slot after slot `j` owns the position of
      slot `j` among the other slots. */
  lemma {:induction false} SuccessorOwnsRemoved(m: int, ps: seq<int>, j: nat)
    requires Clockwise(m, ps) && 2 <= |ps| && j < |ps|
    ensures IsOwner(m, SetOf(ps) - {ps[j]}, ps[j], ps[NextIndex(|ps|, 0, j)])
  {
    var a := ps[0];
    var s := NextIndex(|ps|, 0, j);
    assert ps[s] in SetOf(ps) - {ps[j]};
    forall q | q in SetOf(ps) - {ps[j]}
      ensures Distance(m, ps[j], ps[s]) <= Distance(m, ps[j], q)
    {
      var i :| 0 <= i < |ps| && ps[i] == q;
      DistanceVia(m, a, ps[j], q);
      DistanceVia(m, a, ps[j], ps[s]);
      if i < j {
        assert Distance(m, a, ps[i]) < Distance(m, a, ps[j]);
      } else {
        assert i != j;
        assert Distance(m, a, ps[j]) < Distance(m, a, ps[i]);
      }
    }
  }

  /** Inserting a free position `p` just before its owner `ps[w]` (at the end when the owner is
      slot 0) keeps the cycle clockwise, with the same first slot. */
  lemma {:induction false} InsertKeepsClockwise(m: int, ps: seq<int>, p: int, w: nat)
    requires Clockwise(m, ps) && 0 < |ps| && w < |ps| && 0 <= p < m && p !in SetOf(ps)
    requires IsOwner(m, SetOf(ps), p, ps[w])
    ensures var j := if w == 0 then |ps| else w;
      Clockwise(m, ps[..j] + [p] + ps[j..])
  {
    var a := ps[0];
    var n := |ps|;
    var j := if w == 0 then n else w;
    var qs := ps[..j] + [p] + ps[j..];
    assert ps[0] in SetOf(ps);
    assert p != a;
    assert 0 < Distance(m, a, p);
    DistanceVia(m, a, p, ps[w]);
    DistanceVia(m, a, p, a);
    assert Distance(m, a, ps[j - 1]) < Distance(m, a, p) by {
      assert ps[j - 1] in SetOf(ps);
      DistanceVia(m, a, p, ps[j - 1]);
      if w != 0 {
        assert Distance(m, a, ps[w - 1]) < Distance(m, a, ps[w]);
      }
    }
    assert j < n ==> Distance(m, a, p) < Distance(m, a, ps[j]) by {
      if j < n {
        assert 0 < w;
        assert Distance(m, a, ps[0]) < Distance(m, a, ps[w]);
      }
    }
    assert qs[0] == a;
    InsertOrdered(m, ps, j, p);
    assert AllInRing(m, qs) by {
      forall i | 0 <= i < |qs| ensures 0 <= qs[i] < m {
        if i < j { assert qs[i] == ps[i]; }
        else if i > j { assert qs[i] == ps[i - 1]; }
      }
    }
  }

  /** A position strictly between slots `j - 1` and `j` (clockwise from the first slot) keeps
      the order when it goes in at index `j`. */
  lemma InsertOrdered(m: int, ps: seq<int>, j: nat, p: int)
    requires Clockwise(m, ps) && 0 < j <= |ps|
    requires Distance(m, ps[0], ps[j - 1]) < Distance(m, ps[0], p)
    requires j < |ps| ==> Distance(m, ps[0], p) < Distance(m, ps[0], ps[j])
    ensures var qs := ps[..j] + [p] + ps[j..];
      forall i, i' :: 0 <= i < i' < |qs| ==> Distance(m, ps[0], qs[i]) < Distance(m, ps[0], qs[i'])
  {
    var a := ps[0];
    var qs := ps[..j] + [p] + ps[j..];
    forall i, i' | 0 <= i < i' < |qs|
      ensures Distance(m, a, qs[i]) < Distance(m, a, qs[i'])
    {
      if i' < j {
        assert qs[i] == ps[i] && qs[i'] == ps[i'];
      } else if i' == j {
        assert qs[i] == ps[i];
        assert Distance(m, a, ps[i]) <= Distance(m, a, ps[j - 1]);
      } else if i == j {
        assert qs[i'] == ps[i' - 1];
        assert Distance(m, a, ps[j]) <= Distance(m, a, ps[i' - 1]);
      } else if i < j {
        assert qs[i] == ps[i] && qs[i'] == ps[i' - 1];
      } else {
        assert qs[i] == ps[i - 1] && qs[i'] == ps[i' - 1];
      }
    }
  }

  /** On a clockwise sequence the walk from slot 0 answers the owner of `h`. */
  lemma RouteIsOwner(m: int, ps: seq<int>, h: int)
    requires Clockwise(m, ps) && |ps| > 0 && 0 <= h < m
    ensures SetOf(ps) != {} && InRing(m, SetOf(ps))
    ensures Owner(m, SetOf(ps), h) == ps[Route(m, ps, 0, h)]
  {
    RouteFindsOwner(m, ps, h);
    OwnerUnique(m, SetOf(ps), h, Owner(m, SetOf(ps), h), ps[Route(m, ps, 0, h)]);
  }

  /** A free position `p` splits the clockwise positions `ps` just before the slot the walk
      answers for `p`: that slot owns `p`, and `p` can go in before it keeping the order. */
  lemma SplitPoint(m: int, ps: seq<int>, p: int)
    requires Clockwise(m, ps) && |ps| > 0 && 0 <= p < m && p !in SetOf(ps)
    ensures SetOf(ps) != {} && InRing(m, SetOf(ps))
    ensures var w := Route(m, ps, 0, p);
      Owner(m, SetOf(ps), p) == ps[w] &&
      var j := if w == 0 then |ps| else w;
      Clockwise(m, ps[..j] + [p] + ps[j..])
  {
    RouteFindsOwner(m, ps, p);
    RouteIsOwner(m, ps, p);
    InsertKeepsClockwise(m, ps, p, Route(m, ps, 0, p));
  }

  /** Dropping slot `j` keeps the cycle clockwise (from the next slot when `j` is slot 0). */
  lemma RemoveKeepsClockwise(m: int, ps: seq<int>, j: nat)
    requires Clockwise(m, ps) && j < |ps|
    ensures Clockwise(m, ps[..j] + ps[j + 1..])
  {
    if j == 0 {
      assert ps[..j] + ps[j + 1..] == ps[1..];
      DropFirstKeepsClockwise(m, ps);
    } else {
      DropLaterKeepsClockwise(m, ps, j);
    }
  }

  lemma DropFirstKeepsClockwise(m: int, ps: seq<int>)
    requires Clockwise(m, ps) && 0 < |ps|
    ensures Clockwise(m, ps[1..])
  {
    var qs := ps[1..];
    var a := ps[0];
    forall i, i' | 0 <= i < i' < |qs|
      ensures Distance(m, qs[0], qs[i]) < Distance(m, qs[0], qs[i'])
    {
      assert qs[0] == ps[1] && qs[i] == ps[i + 1] && qs[i'] == ps[i' + 1];
      DistanceVia(m, a, ps[1], ps[i + 1]);
      DistanceVia(m, a, ps[1], ps[i' + 1]);
      assert Distance(m, a, ps[1]) <= Distance(m, a, ps[i + 1]);
      assert Distance(m, a, ps[i + 1]) < Distance(m, a, ps[i' + 1]);
    }
    assert AllInRing(m, qs) by {
      forall i | 0 <= i < |qs| ensures 0 <= qs[i] < m {
        assert qs[i] == ps[i + 1];
      }
    }
  }

  lemma DropLaterKeepsClockwise(m: int, ps: seq<int>, j: nat)
    requires Clockwise(m, ps) && 0 < j < |ps|
    ensures Clockwise(m, ps[..j] + ps[j + 1..])
  {
    var qs := ps[..j] + ps[j + 1..];
    assert qs[0] == ps[0];
    forall i, i' | 0 <= i < i' < |qs|
      ensures Distance(m, qs[0], qs[i]) < Distance(m, qs[0], qs[i'])
    {
      var x := if i < j then i else i + 1;
      var y := if i' < j then i' else i' + 1;
      assert qs[i] == ps[x] && qs[i'] == ps[y];
    }
    assert AllInRing(m, qs) by {
      forall i | 0 <= i < |qs| ensures 0 <= qs[i] < m {
        if i < j { assert qs[i] == ps[i]; } else { assert qs[i] == ps[i + 1]; }
      }
    }
  }

  lemma SetOfInsert(ps: seq<int>, j: nat, p: int)
    requires j <= |ps|
    ensures SetOf(ps[..j] + [p] + ps[j..]) == SetOf(ps) + {p}
  {
    var qs := ps[..j] + [p] + ps[j..];
    forall x | x in SetOf(qs) ensures x in SetOf(ps) + {p} {
      var i :| 0 <= i < |qs| && qs[i] == x;
      if i < j { assert ps[i] == x; } else if i > j { assert ps[i - 1] == x; }
    }
    forall x | x in SetOf(ps) ensures x in SetOf(qs) {
      var i :| 0 <= i < |ps| && ps[i] == x;
      if i < j { assert qs[i] == x; } else { assert qs[i + 1] == x; }
    }
    assert qs[j] == p;
  }

  /** Dropping one of distinct positions drops just that position. */
  lemma SetOfRemove(ps: seq<int>, j: nat)
    requires j < |ps| && Distinct(ps)
    ensures SetOf(ps[..j] + ps[j + 1..]) == SetOf(ps) - {ps[j]}
  {
    var qs := ps[..j] + ps[j + 1..];
    forall x | x in SetOf(qs) ensures x in SetOf(ps) - {ps[j]} {
      var i :| 0 <= i < |qs| && qs[i] == x;
      if i < j { assert ps[i] == x; } else { assert ps[i + 1] == x; }
    }
    forall x | x in SetOf(ps) - {ps[j]} ensures x in SetOf(qs) {
      var i :| 0 <= i < |ps| && ps[i] == x;
      if i < j { assert qs[i] == x; } else { assert qs[i - 1] == x; }
    }
  }

  lemma {:induction false} SetOfCons(ps: seq<int>)
    requires 0 < |ps|
    ensures SetOf(ps) == {ps[0]} + SetOf(ps[1..])
  {
    forall x | x in SetOf(ps) ensures x in {ps[0]} + SetOf(ps[1..]) {
      var i :| 0 <= i < |ps| && ps[i] == x;
      if i > 0 {
        assert ps[1..][i - 1] == x;
      }
    }
    forall x | x in SetOf(ps[1..]) ensures x in SetOf(ps) {
      var i :| 0 <= i < |ps[1..]| && ps[1..][i] == x;
      assert ps[i + 1] == x;
    }
  }

  lemma {:induction false} SetOfSize(ps: seq<int>)
    ensures |SetOf(ps)| <= |ps|
  {
    if ps != [] {
      SetOfCons(ps);
      SetOfSize(ps[1..]);
    }
  }

  /** A subset as large as its superset is the superset. */
  lemma SubsetOfSameSize<T>(A: set<T>, B: set<T>)
    requires A <= B && |A| == |B|
    ensures A == B
  {
    assert B == A + (B - A) && A * (B - A) == {};
    assert |B - A| == 0;
  }

  /** Distinct positions are as many as the slots holding them. */
  lemma {:induction false} DistinctSetSize(ps: seq<int>)
    requires Distinct(ps)
    ensures |SetOf(ps)| == |ps|
  {
    if ps != [] {
      SetOfCons(ps);
      assert ps[0] !in SetOf(ps[1..]) by {
        forall i | 0 <= i < |ps[1..]| ensures ps[1..][i] != ps[0] {
          assert ps[1..][i] == ps[i + 1];
        }
      }
      DistinctSetSize(ps[1..]);
    }
  }

  // ---------------------------------------------------------------------------------------
  // The ring as a key-value store

  /** Every slot position lies in the ring space. */
  ghost predicate Placed<K, V>(m: int, pl: map<int, map<K, V>>)
  {
    0 < m && InRing(m, pl.Keys)
  }

  /** What `get(k)` answers on a ring whose slots hold `pl`: the owner's entry for `k`. */
  ghost function RingLookup<K, V>(m: int, hash: K -> int, pl: map<int, map<K, V>>, k: K): Option<V>
    requires Placed(m, pl)
  {
    if pl.Keys == {} then None else Lookup(pl[Owner(m, pl.Keys, BucketOf(m, hash(k)))], k)
  }

  /** Every key sits with the slot that owns its hash. */
  ghost predicate KeysPlaced<K, V>(m: int, hash: K -> int, pl: map<int, map<K, V>>)
    requires 0 < m
  {
    forall p, k :: p in pl && k in pl[p] ==> IsOwner(m, pl.Keys, BucketOf(m, hash(k)), p)
  }

  /** The entries of `src`, held by the slot at `sp`, whose hash is strictly nearer (clockwise)
      to a slot at `dp`: the keys moveKeys copies to the new slot. */
  ghost function Moved<K, V>(m: int, hash: K -> int, src: map<K, V>, sp: int, dp: int): map<K, V>
    requires 0 < m
  {
    map k | k in src && Distance(m, BucketOf(m, hash(k)), sp) > Distance(m, BucketOf(m, hash(k)), dp)
      :: src[k]
  }

  /** Updating a merge updates its right-hand side. */
  lemma MergeUpdate<K, V>(a: map<K, V>, b: map<K, V>, k: K, v: V)
    ensures (a + b)[k := v] == a + b[k := v]
  {
  }

  /** Visiting one more entry `k` of `src` adds it to the moved entries exactly when it is
      nearer to `dp`. */
  lemma MovedStep<K, V>(m: int, hash: K -> int, src: map<K, V>, todo: set<K>, k: K, sp: int, dp: int)
    requires 0 < m && k in todo && todo <= src.Keys
    ensures var h := BucketOf(m, hash(k));
      Moved(m, hash, src - (todo - {k}), sp, dp) ==
        if Distance(m, h, sp) > Distance(m, h, dp) then Moved(m, hash, src - todo, sp, dp)[k := src[k]]
        else Moved(m, hash, src - todo, sp, dp)
  {
  }

  /** The placement after addNode puts a storage holding `d` at the free position `p`: the
      owner `s` of `p` hands over the entries nearer to `p`, and then loses every key the new
      storage holds. */
  ghost function AfterAdd<K, V>(m: int, hash: K -> int, pl: map<int, map<K, V>>, p: int, d: map<K, V>)
    : (r: map<int, map<K, V>>)
    requires Placed(m, pl) && 0 <= p < m && p !in pl
    ensures Placed(m, r) && r.Keys == pl.Keys + {p}
  {
    if pl.Keys == {} then map[p := d]
    else
      var s := Owner(m, pl.Keys, p);
      var d' := d + Moved(m, hash, pl[s], s, p);
      pl[p := d'][s := pl[s] - d'.Keys]
  }

  /** The placement of data `ds` at positions `ps`: position `ps[i]` holds `ds[i]`. */
  ghost function PlacementOf<K, V>(ps: seq<int>, ds: seq<map<K, V>>): (pl: map<int, map<K, V>>)
    requires |ps| == |ds|
    ensures pl.Keys == SetOf(ps)
    decreases |ps|
  {
    if ps == [] then map[]
    else
      assert SetOf(ps) == SetOf(ps[1..]) + {ps[0]} by {
        forall x | x in SetOf(ps) ensures x in SetOf(ps[1..]) + {ps[0]} {
          var i :| 0 <= i < |ps| && ps[i] == x;
          if 0 < i { assert ps[1..][i - 1] == x; }
        }
      }
      PlacementOf(ps[1..], ds[1..])[ps[0] := ds[0]]
  }

  /** With distinct positions, position `ps[i]` holds `ds[i]`. */
  lemma {:induction false} PlacementOfAt<K, V>(ps: seq<int>, ds: seq<map<K, V>>, i: nat)
    requires |ps| == |ds| && Distinct(ps) && i < |ps|
    ensures ps[i] in PlacementOf(ps, ds) && PlacementOf(ps, ds)[ps[i]] == ds[i]
    decreases |ps|
  {
    if 0 < i {
      assert ps[i] != ps[0];
      assert ps[1..][i - 1] == ps[i];
      PlacementOfAt(ps[1..], ds[1..], i - 1);
    }
  }

  /** Changing the data of one member changes the placement at that member's position alone. */
  lemma PlacementOfUpdate<K, V>(ps: seq<int>, ds: seq<map<K, V>>, t: nat, d: map<K, V>)
    requires |ps| == |ds| && Distinct(ps) && t < |ps|
    ensures PlacementOf(ps, ds[t := d]) == PlacementOf(ps, ds)[ps[t] := d]
  {
    var pl, q := PlacementOf(ps, ds[t := d]), PlacementOf(ps, ds)[ps[t] := d];
    forall x | x in pl ensures pl[x] == q[x] {
      var i :| 0 <= i < |ps| && ps[i] == x;
      PlacementOfAt(ps, ds[t := d], i);
      if i != t {
        PlacementOfAt(ps, ds, i);
      }
    }
  }

  /** Positions that stay distinct with `p` inserted are distinct without it. */
  lemma DistinctWithout(ps: seq<int>, j: nat, p: int)
    requires j <= |ps| && Distinct(ps[..j] + [p] + ps[j..])
    ensures Distinct(ps)
  {
    var qs := ps[..j] + [p] + ps[j..];
    forall a, b | 0 <= a < b < |ps| ensures ps[a] != ps[b] {
      var a', b' := if a < j then a else a + 1, if b < j then b else b + 1;
      assert qs[a'] == ps[a] && qs[b'] == ps[b];
    }
  }

  /** Inserting a member with a fresh position adds that position, holding its data. */
  lemma PlacementOfInsert<K, V>(ps: seq<int>, ds: seq<map<K, V>>, j: nat, p: int, d: map<K, V>)
    requires |ps| == |ds| && j <= |ps| && Distinct(ps[..j] + [p] + ps[j..])
    ensures PlacementOf(ps[..j] + [p] + ps[j..], ds[..j] + [d] + ds[j..]) == PlacementOf(ps, ds)[p := d]
  {
    var qs, es := ps[..j] + [p] + ps[j..], ds[..j] + [d] + ds[j..];
    var pl, q := PlacementOf(qs, es), PlacementOf(ps, ds)[p := d];
    SetOfInsert(ps, j, p);
    forall x | x in pl ensures pl[x] == q[x] {
      var i :| 0 <= i < |qs| && qs[i] == x;
      InsertedAt(ps, ds, j, p, d, i);
    }
  }

  /** One member of the inserted placement: the new position holds `d`, the others their data. */
  lemma InsertedAt<K, V>(ps: seq<int>, ds: seq<map<K, V>>, j: nat, p: int, d: map<K, V>, i: nat)
    requires |ps| == |ds| && j <= |ps| && Distinct(ps[..j] + [p] + ps[j..]) && i <= |ps|
    ensures var qs, es := ps[..j] + [p] + ps[j..], ds[..j] + [d] + ds[j..];
      qs[i] in PlacementOf(qs, es) && qs[i] in PlacementOf(ps, ds)[p := d] &&
      PlacementOf(qs, es)[qs[i]] == PlacementOf(ps, ds)[p := d][qs[i]]
  {
    var qs, es := ps[..j] + [p] + ps[j..], ds[..j] + [d] + ds[j..];
    PlacementOfAt(qs, es, i);
    if i != j {
      var y := if i < j then i else i - 1;
      assert qs[i] == ps[y] && es[i] == ds[y] && qs[j] == p;
      DistinctWithout(ps, j, p);
      PlacementOfAt(ps, ds, y);
    }
  }

  /** AfterAdd written out for a ring with slots: the owner `s` of `p` ends up holding `sd`,
      and the slot at `p` holding `pd`, when those are what moveKeys leaves. */
  lemma AfterAddAt<K, V>(m: int, hash: K -> int, pl: map<int, map<K, V>>, p: int, d: map<K, V>,
                         s: int, pd: map<K, V>, sd: map<K, V>)
    requires Placed(m, pl) && 0 <= p < m && p !in pl && pl.Keys != {}
    requires s == Owner(m, pl.Keys, p)
    requires pd == d + Moved(m, hash, pl[s], s, p) && sd == pl[s] - pd.Keys
    ensures AfterAdd(m, hash, pl, p, d) == pl[s := sd][p := pd]
  {
  }

  /** The placement a ring with positions `ps` and data `ds` reaches when the free position
      `p` goes in before the slot the walk answers for it, `w`, and moveKeys has run: the
      slot at `w` keeps `sd` and the new slot holds `pd`. */
  lemma AddedAt<K, V>(m: int, hash: K -> int, ps: seq<int>, ds: seq<map<K, V>>, w: nat, p: int,
                      d: map<K, V>, pd: map<K, V>, sd: map<K, V>)
    requires Clockwise(m, ps) && |ps| > 0 && |ds| == |ps| && 0 <= p < m && p !in SetOf(ps)
    requires w == Route(m, ps, 0, p)
    requires pd == d + Moved(m, hash, ds[w], ps[w], p) && sd == ds[w] - pd.Keys
    ensures Placed(m, PlacementOf(ps, ds)) && p !in PlacementOf(ps, ds)
    ensures PlacementOf(ps, ds[w := sd])[p := pd] == AfterAdd(m, hash, PlacementOf(ps, ds), p, d)
  {
    RouteIsOwner(m, ps, p);
    ClockwiseDistinct(m, ps);
    PlacementOfAt(ps, ds, w);
    PlacementOfUpdate(ps, ds, w, sd);
    AfterAddAt(m, hash, PlacementOf(ps, ds), p, d, ps[w], pd, sd);
  }

  /** The placement after removeNode takes out the slot at `r`: its entries are copied into the
      next slot clockwise; with no slot left the ring holds nothing. */
  ghost function AfterRemove<K, V>(m: int, pl: map<int, map<K, V>>, r: int): (r': map<int, map<K, V>>)
    requires Placed(m, pl) && r in pl
    ensures Placed(m, r') && r'.Keys == pl.Keys - {r}
  {
    if pl.Keys == {r} then map[]
    else
      var t := Owner(m, pl.Keys - {r}, r);
      (pl - {r})[t := pl[t] + pl[r]]
  }

  /** Dropping a member with distinct positions drops its position from the placement. */
  lemma PlacementOfRemove<K, V>(ps: seq<int>, ds: seq<map<K, V>>, j: nat)
    requires |ps| == |ds| && Distinct(ps) && j < |ps|
    ensures PlacementOf(ps[..j] + ps[j + 1..], ds[..j] + ds[j + 1..]) == PlacementOf(ps, ds) - {ps[j]}
  {
    var qs, fs := ps[..j] + ps[j + 1..], ds[..j] + ds[j + 1..];
    Reinsert(ps, j);
    Reinsert(ds, j);
    PlacementOfInsert(qs, fs, j, ps[j], ds[j]);
    SetOfRemove(ps, j);
    UpdateThenRemove(PlacementOf(qs, fs), ps[j], ds[j]);
  }

  /** Putting element `j` back where it was taken out restores the sequence. */
  lemma Reinsert<T>(xs: seq<T>, j: nat)
    requires j < |xs|
    ensures (xs[..j] + xs[j + 1..])[..j] + [xs[j]] + (xs[..j] + xs[j + 1..])[j..] == xs
  {
    var q := xs[..j] + xs[j + 1..];
    assert q[..j] == xs[..j] && q[j..] == xs[j + 1..];
    assert xs == xs[..j] + [xs[j]] + xs[j + 1..];
  }

  /** Adding a fresh key and taking it away again leaves the map as it was. */
  lemma UpdateThenRemove<V>(pl: map<int, V>, k: int, v: V)
    requires k !in pl
    ensures pl[k := v] - {k} == pl
  {
  }

  /** AfterRemove written out for a ring of two or more slots: the owner `t` of the removed
      position among the others ends up holding its own entries merged with the removed ones. */
  lemma AfterRemoveAt<K, V>(m: int, pl: map<int, map<K, V>>, r: int, t: int)
    requires Placed(m, pl) && r in pl && t in pl && t != r
    requires IsOwner(m, pl.Keys - {r}, r, t)
    ensures AfterRemove(m, pl, r) == (pl - {r})[t := pl[t] + pl[r]]
  {
    OwnerUnique(m, pl.Keys - {r}, r, t, Owner(m, pl.Keys - {r}, r));
  }

  /** The placement a ring with positions `ps` and data `ds` reaches when slot `j` leaves and
      removeNode has copied its entries into the next slot: that slot holds `td`. */
  lemma RemovedAt<K, V>(m: int, ps: seq<int>, ds: seq<map<K, V>>, j: nat, td: map<K, V>)
    requires Clockwise(m, ps) && 2 <= |ps| && |ds| == |ps| && j < |ps|
    requires td == ds[NextIndex(|ps|, 0, j)] + ds[j]
    ensures Placed(m, PlacementOf(ps, ds)) && ps[j] in PlacementOf(ps, ds)
    ensures var es := ds[NextIndex(|ps|, 0, j) := td];
      PlacementOf(ps[..j] + ps[j + 1..], es[..j] + es[j + 1..]) == AfterRemove(m, PlacementOf(ps, ds), ps[j])
  {
    var s := NextIndex(|ps|, 0, j);
    var pl := PlacementOf(ps, ds);
    ClockwiseDistinct(m, ps);
    SuccessorOwnsRemoved(m, ps, j);
    PlacementOfAt(ps, ds, j);
    PlacementOfAt(ps, ds, s);
    AfterRemoveAt(m, pl, ps[j], ps[s]);
    PlacementOfUpdate(ps, ds, s, td);
    PlacementOfRemove(ps, ds[s := td], j);
    UpdateThenDrop(pl, ps[s], ps[j], td);
  }

  lemma UpdateThenDrop<V>(pl: map<int, V>, a: int, b: int, v: V)
    requires a != b
    ensures pl[a := v] - {b} == (pl - {b})[a := v]
  {
  }

  /** The placement after `put(k, v)`: the owner of the key's position stores the entry; a
      ring without slots stores nothing. */
  ghost function AfterPut<K, V>(m: int, hash: K -> int, pl: map<int, map<K, V>>, k: K, v: V)
    : (r: map<int, map<K, V>>)
    requires Placed(m, pl)
    ensures Placed(m, r) && r.Keys == pl.Keys
  {
    if pl.Keys == {} then pl
    else
      var o := Owner(m, pl.Keys, BucketOf(m, hash(k)));
      pl[o := pl[o][k := v]]
  }

  /** The placement after `remove(k)`. */
  ghost function AfterRemoveKey<K, V>(m: int, hash: K -> int, pl: map<int, map<K, V>>, k: K)
    : (r: map<int, map<K, V>>)
    requires Placed(m, pl)
    ensures Placed(m, r) && r.Keys == pl.Keys
  {
    if pl.Keys == {} then pl
    else
      var o := Owner(m, pl.Keys, BucketOf(m, hash(k)));
      pl[o := pl[o] - {k}]
  }

  /** Adding an empty storage relocates keys but changes no answer of `get`. */
  lemma {:induction false} AddKeepsLookups<K, V>(m: int, hash: K -> int, pl: map<int, map<K, V>>, p: int, k: K)
    requires Placed(m, pl) && 0 <= p < m && p !in pl
    ensures RingLookup(m, hash, AfterAdd(m, hash, pl, p, map[]), k) == RingLookup(m, hash, pl, k)
  {
    var pl' := AfterAdd(m, hash, pl, p, map[]);
    var h := BucketOf(m, hash(k));
    if pl.Keys != {} {
      var s0 := Owner(m, pl.Keys, p);
      var s := Owner(m, pl.Keys, h);
      var d' := map[] + Moved(m, hash, pl[s0], s0, p);
      assert pl' == pl[p := d'][s0 := pl[s0] - d'.Keys];
      OwnerAfterInsert(m, pl.Keys, p, h, s, s0);
      var x := if Distance(m, h, p) < Distance(m, h, s) then p else s;
      OwnerUnique(m, pl'.Keys, h, x, Owner(m, pl'.Keys, h));
      if x == p {
        assert pl'[p] == d';
      } else if s == s0 {
        assert k !in d';
      }
    }
  }

  /** Adding an empty storage keeps every key with its owner. */
  lemma {:induction false} AddKeepsKeysPlaced<K, V>(m: int, hash: K -> int, pl: map<int, map<K, V>>, p: int)
    requires Placed(m, pl) && 0 <= p < m && p !in pl && KeysPlaced(m, hash, pl)
    ensures KeysPlaced(m, hash, AfterAdd(m, hash, pl, p, map[]))
  {
    var pl' := AfterAdd(m, hash, pl, p, map[]);
    if pl.Keys != {} {
      var s0 := Owner(m, pl.Keys, p);
      var d' := map[] + Moved(m, hash, pl[s0], s0, p);
      assert pl' == pl[p := d'][s0 := pl[s0] - d'.Keys];
      forall q, k | q in pl' && k in pl'[q]
        ensures IsOwner(m, pl'.Keys, BucketOf(m, hash(k)), q)
      {
        var h := BucketOf(m, hash(k));
        if q == p {
          OwnerAfterInsert(m, pl.Keys, p, h, s0, s0);
        } else if q == s0 {
          OwnerAfterInsert(m, pl.Keys, p, h, s0, s0);
        } else {
          OwnerAfterInsert(m, pl.Keys, p, h, q, s0);
        }
      }
    }
  }

  /** moveKeys moves to the new slot exactly the keys of its successor that it now owns. */
  lemma {:induction false} AddMovesOwnedKeys<K, V>(m: int, hash: K -> int, pl: map<int, map<K, V>>, p: int, k: K)
    requires Placed(m, pl) && 0 <= p < m && p !in pl && pl.Keys != {} && KeysPlaced(m, hash, pl)
    requires k in pl[Owner(m, pl.Keys, p)]
    ensures var s0 := Owner(m, pl.Keys, p);
      k in Moved(m, hash, pl[s0], s0, p) <==> IsOwner(m, pl.Keys + {p}, BucketOf(m, hash(k)), p)
  {
    var s0 := Owner(m, pl.Keys, p);
    var h := BucketOf(m, hash(k));
    OwnerAfterInsert(m, pl.Keys, p, h, s0, s0);
    var x := if Distance(m, h, p) < Distance(m, h, s0) then p else s0;
    if IsOwner(m, pl.Keys + {p}, h, p) {
      OwnerUnique(m, pl.Keys + {p}, h, x, p);
    }
  }

  /** Removing a slot (not the last) changes no answer of `get`, provided every key sat with
      its owner. */
  lemma {:induction false} RemoveKeepsLookups<K, V>(m: int, hash: K -> int, pl: map<int, map<K, V>>, r: int, k: K)
    requires Placed(m, pl) && r in pl && pl.Keys != {r} && KeysPlaced(m, hash, pl)
    ensures RingLookup(m, hash, AfterRemove(m, pl, r), k) == RingLookup(m, hash, pl, k)
  {
    var pl' := AfterRemove(m, pl, r);
    var h := BucketOf(m, hash(k));
    var t := Owner(m, pl.Keys - {r}, r);
    assert pl' == (pl - {r})[t := pl[t] + pl[r]];
    var s := Owner(m, pl.Keys, h);
    OwnerAfterRemove(m, pl.Keys, r, h, s, t);
    var x := if s == r then t else s;
    assert pl'.Keys != {} by {
      assert t in pl'.Keys;
    }
    OwnerUnique(m, pl'.Keys, h, x, Owner(m, pl'.Keys, h));
    if s == r {
      if k !in pl[r] && k in pl[t] {
        assert IsOwner(m, pl.Keys, h, t);
        OwnerUnique(m, pl.Keys, h, s, t);
      }
    } else if s == t {
      if k in pl[r] {
        assert IsOwner(m, pl.Keys, h, r);
        OwnerUnique(m, pl.Keys, h, s, r);
      }
    }
  }

  /** Removing a slot keeps every key with its owner. */
  lemma {:induction false} RemoveKeepsKeysPlaced<K, V>(m: int, hash: K -> int, pl: map<int, map<K, V>>, r: int)
    requires Placed(m, pl) && r in pl && KeysPlaced(m, hash, pl)
    ensures KeysPlaced(m, hash, AfterRemove(m, pl, r))
  {
    var pl' := AfterRemove(m, pl, r);
    if pl.Keys != {r} {
      var t := Owner(m, pl.Keys - {r}, r);
      assert pl' == (pl - {r})[t := pl[t] + pl[r]];
      forall q, k | q in pl' && k in pl'[q]
        ensures IsOwner(m, pl'.Keys, BucketOf(m, hash(k)), q)
      {
        var h := BucketOf(m, hash(k));
        if q == t && k in pl[r] {
          OwnerAfterRemove(m, pl.Keys, r, h, r, t);
        } else {
          assert k in pl[q];
          OwnerAfterRemove(m, pl.Keys, r, h, q, t);
        }
      }
    }
  }

  /** After `put(k, v)`, `get(k)` answers `v` and every other key answers as before. */
  lemma {:induction false} PutThenLookup<K, V>(m: int, hash: K -> int, pl: map<int, map<K, V>>, k: K, v: V, j: K)
    requires Placed(m, pl) && pl.Keys != {}
    ensures RingLookup(m, hash, AfterPut(m, hash, pl, k, v), k) == Some(v)
    ensures j != k ==> RingLookup(m, hash, AfterPut(m, hash, pl, k, v), j) == RingLookup(m, hash, pl, j)
    ensures KeysPlaced(m, hash, pl) ==> KeysPlaced(m, hash, AfterPut(m, hash, pl, k, v))
  {
    var pl' := AfterPut(m, hash, pl, k, v);
    assert pl'.Keys == pl.Keys;
  }

  /** After `remove(k)`, `get(k)` answers nothing and every other key answers as before. */
  lemma {:induction false} RemoveKeyThenLookup<K, V>(m: int, hash: K -> int, pl: map<int, map<K, V>>, k: K, j: K)
    requires Placed(m, pl)
    ensures RingLookup(m, hash, AfterRemoveKey(m, hash, pl, k), k) == None
    ensures j != k ==> RingLookup(m, hash, AfterRemoveKey(m, hash, pl, k), j) == RingLookup(m, hash, pl, j)
    ensures KeysPlaced(m, hash, pl) ==> KeysPlaced(m, hash, AfterRemoveKey(m, hash, pl, k))
  {
    var pl' := AfterRemoveKey(m, hash, pl, k);
    assert pl'.Keys == pl.Keys;
  }

  // ---------------------------------------------------------------------------------------
  // Sequences of membership changes

  datatype Change = Join(pos: int) | Leave(pos: int)

  /** Each change can be made in turn: a join takes a free position (with an empty storage)
      and a leave names a member that is not the last one. */
  ghost predicate Applicable<K, V>(m: int, hash: K -> int, pl: map<int, map<K, V>>, cs: seq<Change>)
    requires Placed(m, pl)
    decreases |cs|
  {
    cs == [] ||
    match cs[0]
    case Join(p) =>
      0 <= p < m && p !in pl && Applicable(m, hash, AfterAdd(m, hash, pl, p, map[]), cs[1..])
    case Leave(r) =>
      r in pl && pl.Keys != {r} && Applicable(m, hash, AfterRemove(m, pl, r), cs[1..])
  }

  ghost function ApplyChanges<K, V>(m: int, hash: K -> int, pl: map<int, map<K, V>>, cs: seq<Change>)
    : (r: map<int, map<K, V>>)
    requires Placed(m, pl) && Applicable(m, hash, pl, cs)
    ensures Placed(m, r)
    decreases |cs|
  {
    if cs == [] then pl
    else match cs[0]
      case Join(p) => ApplyChanges(m, hash, AfterAdd(m, hash, pl, p, map[]), cs[1..])
      case Leave(r) => ApplyChanges(m, hash, AfterRemove(m, pl, r), cs[1..])
  }

  /** Key migration preserves reachability: if every key sits with its owner, `get` answers
      the same after any sequence of joins with empty storages and leaves that keep the ring
      non-empty. */
  lemma {:induction false} LookupsSurviveChanges<K, V>(m: int, hash: K -> int, pl: map<int, map<K, V>>, cs: seq<Change>, k: K)
    requires Placed(m, pl) && KeysPlaced(m, hash, pl) && Applicable(m, hash, pl, cs)
    ensures KeysPlaced(m, hash, ApplyChanges(m, hash, pl, cs))
    ensures RingLookup(m, hash, ApplyChanges(m, hash, pl, cs), k) == RingLookup(m, hash, pl, k)
    decreases |cs|
  {
    if cs != [] {
      match cs[0]
      case Join(p) =>
        AddKeepsLookups(m, hash, pl, p, k);
        AddKeepsKeysPlaced(m, hash, pl, p);
        LookupsSurviveChanges(m, hash, AfterAdd(m, hash, pl, p, map[]), cs[1..], k);
      case Leave(r) =>
        RemoveKeepsLookups(m, hash, pl, r, k);
        RemoveKeepsKeysPlaced(m, hash, pl, r);
        LookupsSurviveChanges(m, hash, AfterRemove(m, pl, r), cs[1..], k);
    }
  }
}
