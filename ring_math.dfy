/** Arithmetic of the ring space: positions 0..m-1 on a circle, clockwise distance,
    the slot that owns a position, the free position a probe finds, and the reduction
    of a raw 32-bit key hash into ring space. */
module RingMath {

  /** Clockwise distance from `a` to `b` on a ring of `m` positions (hashRingDistance). */
  function Distance(m: int, a: int, b: int): (d: int)
    ensures 0 <= a < m && 0 <= b < m ==> 0 <= d < m && (d == 0 <==> a == b)
  {
    if a <= b then b - a else b - a + m
  }

  /** The distance is the difference of the two positions taken modulo `m`. */
  lemma DistanceIsModular(m: int, a: int, b: int)
    requires 0 <= a < m && 0 <= b < m
    ensures Distance(m, a, b) == (b - a) % m
  {
    if a <= b {
      ModOfSmall(b - a, m);
    } else {
      ModPlusModulus(b - a, m);
      ModOfSmall(b - a + m, m);
    }
  }

  /** A value already in [0, m) is its own remainder. */
  lemma ModOfSmall(x: int, m: int)
    requires 0 <= x < m
    ensures x % m == x
  {
  }

  /** Adding the modulus once does not change the remainder. */
  lemma ModPlusModulus(x: int, m: int)
    requires 0 < m
    ensures (x + m) % m == x % m
  {
    var q, r := x / m, x % m;
    var q', r' := (x + m) / m, (x + m) % m;
    assert x == q * m + r && x + m == q' * m + r';
    var k := q + 1 - q';
    assert k * m == r' - r;
    if k > 0 {
      assert false;
    } else if k < 0 {
      assert false;
    }
  }

  /** Walking from `a` to `c` via `b` covers the distance a->c, possibly once around more. */
  lemma DistanceSplit(m: int, a: int, b: int, c: int)
    requires 0 <= a < m && 0 <= b < m && 0 <= c < m
    ensures Distance(m, a, c) == Distance(m, a, b) + Distance(m, b, c)
         || Distance(m, a, c) == Distance(m, a, b) + Distance(m, b, c) - m
    ensures Distance(m, a, b) <= Distance(m, a, c) ==>
              Distance(m, a, c) == Distance(m, a, b) + Distance(m, b, c)
  {
  }

  /** Distances measured from a base point `a` determine the distance between two points. */
  lemma DistanceVia(m: int, a: int, x: int, y: int)
    requires 0 <= a < m && 0 <= x < m && 0 <= y < m
    ensures Distance(m, x, y) ==
              if Distance(m, a, x) <= Distance(m, a, y)
              then Distance(m, a, y) - Distance(m, a, x)
              else Distance(m, a, y) - Distance(m, a, x) + m
  {
    DistanceSplit(m, a, x, y);
  }

  /** All positions of `P` lie in the ring space. */
  ghost predicate InRing(m: int, P: set<int>)
  {
    forall p :: p in P ==> 0 <= p < m
  }

  /** The slot at position `q` owns hash `h`: no slot of `P` is reached sooner walking
      clockwise from `h`. */
  ghost predicate IsOwner(m: int, P: set<int>, h: int, q: int)
  {
    q in P && forall p :: p in P ==> Distance(m, h, q) <= Distance(m, h, p)
  }

  lemma OwnerUnique(m: int, P: set<int>, h: int, q1: int, q2: int)
    requires InRing(m, P) && 0 <= h < m
    requires IsOwner(m, P, h, q1) && IsOwner(m, P, h, q2)
    ensures q1 == q2
  {
  }

  /** The owner of `h`: the first position of `P` met scanning clockwise from `h`. */
  ghost function Owner(m: int, P: set<int>, h: int): (q: int)
    requires 0 <= h < m && P != {} && InRing(m, P)
    ensures IsOwner(m, P, h, q)
  {
    ScanFrom(m, P, h, 0)
  }

  ghost function ScanFrom(m: int, P: set<int>, h: int, d: nat): (q: int)
    requires 0 <= h < m && P != {} && InRing(m, P)
    requires forall p :: p in P ==> d <= Distance(m, h, p)
    ensures IsOwner(m, P, h, q)
    decreases m - d
  {
    var c := if h + d < m then h + d else h + d - m;
    NonEmptyBelowRange(m, P, h, d);
    if c in P then c
    else
      assert forall p :: p in P ==> d + 1 <= Distance(m, h, p);
      ScanFrom(m, P, h, d + 1)
  }

  lemma NonEmptyBelowRange(m: int, P: set<int>, h: int, d: nat)
    requires 0 <= h < m && P != {} && InRing(m, P)
    requires forall p :: p in P ==> d <= Distance(m, h, p)
    ensures d < m
  {
    NonEmptyHasMember(P);
    var p :| p in P;
  }

  /** A non-empty set has a member to choose. */
  lemma NonEmptyHasMember(P: set<int>)
    requires P != {}
    ensures exists p :: p in P
  {
    if forall p :: p !in P {
      assert false;
    }
  }

  /** Inserting a slot at `p` takes over hash `h` exactly when `p` is strictly nearer to `h`
      than the current owner `s`; and only the successor `t` of `p` can lose keys. */
  lemma {:induction false} OwnerAfterInsert(m: int, P: set<int>, p: int, h: int, s: int, t: int)
    requires InRing(m, P) && 0 <= p < m && 0 <= h < m && p !in P
    requires IsOwner(m, P, h, s) && IsOwner(m, P, p, t)
    ensures IsOwner(m, P + {p}, h, if Distance(m, h, p) < Distance(m, h, s) then p else s)
    ensures Distance(m, h, p) < Distance(m, h, s) ==> s == t
  {
    if Distance(m, h, p) < Distance(m, h, s) {
      DistanceSplit(m, h, p, s);
      DistanceSplit(m, h, p, t);
      assert Distance(m, h, t) <= Distance(m, h, p) + Distance(m, p, t);
      assert Distance(m, p, t) <= Distance(m, p, s);
      assert Distance(m, h, t) <= Distance(m, h, s);
      OwnerUnique(m, P, h, s, t);
    }
  }

  /** Removing the slot at `r` hands the hashes it owned to its successor `t`, the owner of
      `r` among the remaining slots; every other hash keeps its owner. */
  lemma {:induction false} OwnerAfterRemove(m: int, P: set<int>, r: int, h: int, s: int, t: int)
    requires InRing(m, P) && 0 <= h < m && r in P
    requires IsOwner(m, P, h, s) && IsOwner(m, P - {r}, r, t)
    ensures IsOwner(m, P - {r}, h, if s == r then t else s)
  {
    if s == r {
      forall q | q in P - {r}
        ensures Distance(m, h, t) <= Distance(m, h, q)
      {
        DistanceSplit(m, h, r, q);
        DistanceSplit(m, h, r, t);
      }
    }
  }

  /** `r` is the position the probe starting at `c` returns: it is free, and every position
      met before it walking clockwise from `c` is taken. */
  ghost predicate FirstFree(m: int, P: set<int>, c: int, r: int)
  {
    0 <= r < m && r !in P &&
    forall q :: 0 <= q < m && Distance(m, c, q) < Distance(m, c, r) ==> q in P
  }

  /** The probe's answer is determined by the taken positions and the start. */
  lemma FirstFreeUnique(m: int, P: set<int>, c: int, r1: int, r2: int)
    requires 0 <= c < m && FirstFree(m, P, c, r1) && FirstFree(m, P, c, r2)
    ensures r1 == r2
  {
    assert !(Distance(m, c, r1) < Distance(m, c, r2));
    assert !(Distance(m, c, r2) < Distance(m, c, r1));
    DistanceVia(m, c, r1, r2);
  }

  /** On a ring of 4 positions, a start of 0 is kept on an empty ring, and a second draw of 0
      probes on to position 1 once 0 is taken. */
  lemma ProbeAfterCollision(r: int)
    requires FirstFree(4, {0}, 0, r)
    ensures r == 1 && FirstFree(4, {}, 0, 0)
  {
    assert FirstFree(4, {0}, 0, 1);
    FirstFreeUnique(4, {0}, 0, r, 1);
  }

  /** A set of ring positions with fewer than `m` members leaves a position free. */
  lemma {:induction false} FreePositionExists(m: int, P: set<int>)
    requires 0 < m && InRing(m, P) && |P| < m
    ensures exists q :: 0 <= q < m && q !in P
  {
    if forall q :: 0 <= q < m ==> q in P {
      FullRingCardinality(m, P);
    }
  }

  lemma {:induction false} FullRingCardinality(m: nat, P: set<int>)
    requires forall q :: 0 <= q < m ==> q in P
    ensures m <= |P|
  {
    if m > 0 {
      FullRingCardinality(m - 1, P - {m - 1});
    }
  }

  /** Java's `/` on int: the quotient is truncated toward zero. */
  function JavaQuotient(x: int, m: int): int
    requires 0 < m
  {
    if x >= 0 then x / m else -((-x) / m)
  }

  /** Java's `%` on int: the remainder takes the sign of the dividend, and with Java's `/` it
      rebuilds the dividend, as section 15.17.3 of the Java Language Specification requires. */
  function JavaRemainder(x: int, m: int): (r: int)
    requires 0 < m
    ensures -m < r < m
    ensures x >= 0 ==> 0 <= r
    ensures x <= 0 ==> r <= 0
    ensures JavaQuotient(x, m) * m + r == x
  {
    if x >= 0 then
      assert x == (x / m) * m + x % m;
      x % m
    else
      assert -x == ((-x) / m) * m + (-x) % m;
      -((-x) % m)
  }

  /** `Math.abs(hash % m)`: the ring position of a raw 32-bit hash. */
  function BucketOf(m: int, x: int): (h: int)
    requires 0 < m
    ensures 0 <= h < m
    ensures h == (if x >= 0 then x else -x) % m
  {
    var r := JavaRemainder(x, m);
    if r < 0 then -r else r
  }
}
