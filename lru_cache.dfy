/**
 * LruCache as an object: the access-ordered map is a sequence of entries the
 * methods reassign, next to the running size, the fixed maximum and the cost
 * function sizeOf.  Every method is proved to leave the cache in the state the
 * matching function of LruModel computes, and to return its result.
 */
module LruCaches {
  import opened Wrappers
  import opened LruModel

  class LruCache<K(==), V> {
    /** The access-ordered map: entries eldest first, most recently used last. */
    var entries: seq<(K, V)>
    /** The running size in the units sizeOf reports. */
    var size: int
    const maxSize: int
    /** sizeOf(key, value): the overridable cost of one entry. */
    const sizeOf: (K, V) -> int

    function State(): Lru<K, V>
      reads this
    {
      Lru(entries, size, maxSize)
    }

    /** The key-to-value mapping the cache holds. */
    function Contents(): map<K, V>
      reads this
    {
      AsMap(entries)
    }

    ghost predicate Valid()
      reads this
    {
      DistinctKeys(entries) && maxSize > 0
    }

    /** LruCache(maxSize) for a maximum the constructor accepts. */
    constructor (maxSize: int, sizeOf: (K, V) -> int)
      requires maxSize > 0
      ensures Valid() && State() == Lru([], 0, maxSize) && this.sizeOf == sizeOf
      ensures Consistent(State(), sizeOf)
    {
      entries := [];
      size := 0;
      this.maxSize := maxSize;
      this.sizeOf := sizeOf;
    }

    /** LruCache(maxSize): throws IllegalArgumentException for a maximum that is not positive. */
    static method Create(maxSize: int, sizeOf: (K, V) -> int) returns (r: Result<LruCache<K, V>, CacheError>)
      ensures r.Failure? <==> maxSize <= 0
      ensures r.Failure? ==> r.error == IllegalArgument
      ensures r.Success? ==>
        (fresh(r.value) && r.value.Valid() && r.value.sizeOf == sizeOf
         && Success(r.value.State()) == LruModel.Create(maxSize))
    {
      if maxSize <= 0 {
        return Failure(IllegalArgument);
      }
      var c := new LruCache(maxSize, sizeOf);
      return Success(c);
    }

    /** get(key): the mapped value, if any; a hit becomes the most recently used entry. */
    method Get(key: K) returns (r: Option<V>)
      requires Valid()
      modifies this
      ensures Valid()
      ensures (State(), r) == GetOp(old(State()), key)
      ensures r == if key in old(Contents()) then Some(old(Contents())[key]) else None
      ensures Contents() == old(Contents()) && size == old(size)
      ensures Consistent(State(), sizeOf) <==> old(Consistent(State(), sizeOf))
    {
      GetOpCorrect(State(), key);
      GetKeepsAccounting(State(), key, sizeOf);
      r := Lookup(entries, key);
      entries := Bump(entries, key);
    }

    /**
     * put(key, value): adds the entry's cost, stores the entry as the most
     * recently used, subtracts the replaced entry's cost and trims; returns the
     * replaced value, or the exception that was thrown.
     */
    method Put(key: K, value: V) returns (r: Result<Option<V>, CacheError>)
      requires Valid()
      modifies this
      ensures Valid()
      ensures (State(), r) == PutOp(old(State()), key, value, sizeOf)
      ensures (forall k: K, v: V :: sizeOf(k, v) >= 0) && old(Consistent(State(), sizeOf)) ==>
        r.Success? && Consistent(State(), sizeOf) && 0 <= size <= maxSize
    {
      if (forall k: K, v: V :: sizeOf(k, v) >= 0) && Consistent(State(), sizeOf) {
        PutKeepsAccounting(State(), key, value, sizeOf);
      }
      PutEntryCorrect(entries, key, value);
      var c := SafeSizeOf(sizeOf, key, value);
      if c.Failure? {
        return Failure(c.error);
      }
      size := size + c.value;
      var previous := Lookup(entries, key);
      entries := PutEntry(entries, key, value);
      if previous.Some? {
        var p := SafeSizeOf(sizeOf, key, previous.value);
        if p.Failure? {
          return Failure(p.error);
        }
        size := size - p.value;
      }
      var err := TrimToSize();
      r := if err.Some? then Failure(err.value) else Success(previous);
    }

    /**
     * trimToSize(): evicts the eldest entry until size <= maxSize or the map is
     * empty, and reports an inconsistent size once it finds one.
     */
    method TrimToSize() returns (err: Option<CacheError>)
      requires Valid()
      modifies this
      ensures Valid()
      ensures (State(), err) == Trim(old(State()), sizeOf)
      ensures (forall k: K, v: V :: sizeOf(k, v) >= 0) && old(Consistent(State(), sizeOf)) ==>
        err.None? && Consistent(State(), sizeOf) && 0 <= size <= maxSize
    {
      if (forall k: K, v: V :: sizeOf(k, v) >= 0) && Consistent(State(), sizeOf) {
        TrimKeepsAccounting(State(), sizeOf);
      }
      while true
        invariant Valid()
        invariant Trim(State(), sizeOf) == Trim(old(State()), sizeOf)
        decreases |entries|
      {
        if size < 0 || (|entries| == 0 && size != 0) {
          return Some(InconsistentSize);
        }
        if size <= maxSize || |entries| == 0 {
          break;
        }
        var eldest := entries[0];
        RemoveHead(entries);
        RemoveKeyCorrect(entries, eldest.0);
        size := size - sizeOf(eldest.0, eldest.1);
        entries := RemoveKey(entries, eldest.0);
      }
      return None;
    }

    /**
     * remove(key) as written: looks the key up with get, so a hit's cost leaves
     * size while its entry stays resident as the most recently used.
     */
    method Remove(key: K) returns (r: Option<V>)
      requires Valid()
      modifies this
      ensures Valid()
      ensures (State(), r) == RemoveOp(old(State()), key, sizeOf)
      ensures r == if key in old(Contents()) then Some(old(Contents())[key]) else None
      ensures Contents() == old(Contents())
      ensures size - TotalCost(entries, sizeOf) ==
        old(size - TotalCost(entries, sizeOf)) - if r.Some? then sizeOf(key, r.value) else 0
    {
      RemoveOpCorrect(State(), key, sizeOf);
      RemoveBreaksAccounting(State(), key, sizeOf);
      r := Lookup(entries, key);
      entries := Bump(entries, key);
      if r.Some? {
        size := size - sizeOf(key, r.value);
      }
    }

    /** clear(): drops every entry and resets size to zero. */
    method Clear()
      requires Valid()
      modifies this
      ensures Valid()
      ensures State() == ClearOp(old(State())) && Contents() == map[]
      ensures Consistent(State(), sizeOf)
    {
      entries := [];
      size := 0;
    }
  }
}
