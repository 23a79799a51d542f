/** Optional values, as `java.util.Optional` is used by the ring. */
module Wrappers {
  datatype Option<+T> = None | Some(value: T)

  datatype Result<+T, +E> = Success(value: T) | Failure(error: E)
}

/** The storage behind one ring slot: an unbounded in-memory map (InMemoryStorageNode). */
module Storage {
  import opened Wrappers

  /** What `Map.get` answers for `k`, as an optional value. */
  function Lookup<K, V>(m: map<K, V>, k: K): Option<V>
  {
    if k in m then Some(m[k]) else None
  }

  class InMemoryStorageNode<K(==), V> {
    /** The identity, fixed at construction (the source draws a random UUID). */
    const id: string
    var keyToValue: map<K, V>

    constructor (id: string)
      ensures this.id == id && keyToValue == map[]
    {
      this.id := id;
      keyToValue := map[];
    }

    /** Maps `key` to `value` and answers `value` itself, not the value it replaced. */
    method Put(key: K, value: V) returns (r: V)
      modifies this`keyToValue
      ensures r == value
      ensures keyToValue == old(keyToValue)[key := value]
      ensures Lookup(keyToValue, key) == Some(value)
      ensures forall k :: k != key ==> Lookup(keyToValue, k) == Lookup(old(keyToValue), k)
    {
      keyToValue := keyToValue[key := value];
      r := value;
    }

    /** Deletes the mapping of `key` and answers the value it held, if any. */
    method Remove(key: K) returns (r: Option<V>)
      modifies this`keyToValue
      ensures r == Lookup(old(keyToValue), key)
      ensures keyToValue == old(keyToValue) - {key}
      ensures key !in old(keyToValue) ==> keyToValue == old(keyToValue)
      ensures forall k :: k != key ==> Lookup(keyToValue, k) == Lookup(old(keyToValue), k)
    {
      r := Lookup(keyToValue, key);
      keyToValue := keyToValue - {key};
    }

    /** Answers the value mapped to `key`, if any, and changes nothing. */
    method Get(key: K) returns (r: Option<V>)
      ensures r.Some? <==> key in keyToValue
      ensures r.Some? ==> r.value == keyToValue[key]
    {
      r := Lookup(keyToValue, key);
    }
  }
}
