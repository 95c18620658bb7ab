/**
 * A value-level model of an LruCache: the access-ordered map as a sequence of
 * (key, value) entries from the eldest to the most recently used, the running
 * size in cost units and the fixed maximum.  Every operation is a function
 * from the state (and the cost function sizeOf) to the new state and the
 * result, and the lemmas below say what those functions promise.
 */
module LruModel {
  import opened Wrappers

  /** The exceptions the cache throws. */
  datatype CacheError =
    | IllegalArgument    // the constructor's maxSize <= 0
    | NegativeSize       // safeSizeOf found sizeOf < 0
    | InconsistentSize   // trimToSize found size < 0, or size != 0 with no entries

  /** The entries eldest first, the size in cost units, and the maximum size. */
  datatype Lru<K, V> = Lru(entries: seq<(K, V)>, size: int, maxSize: int)

  ghost predicate DistinctKeys<K, V>(s: seq<(K, V)>) {
    forall i, j :: 0 <= i < j < |s| ==> s[i].0 != s[j].0
  }

  /** The key-to-value mapping the entries hold. */
  function AsMap<K(==), V>(s: seq<(K, V)>): map<K, V> {
    if |s| == 0 then map[] else AsMap(s[1..])[s[0].0 := s[0].1]
  }

  /** The summed cost of the entries. */
  function TotalCost<K(==), V>(s: seq<(K, V)>, cost: (K, V) -> int): int {
    if |s| == 0 then 0 else cost(s[0].0, s[0].1) + TotalCost(s[1..], cost)
  }

  /** The default sizeOf: every entry costs one unit. */
  function DefaultSizeOf<K(==), V>(key: K, value: V): int {
    1
  }

  // ---------------------------------------------------------------------------
  // The access-ordered map.
  // ---------------------------------------------------------------------------

  /** map.get(key) without the reordering: the value held for key, if any. */
  function Lookup<K(==), V>(s: seq<(K, V)>, key: K): Option<V> {
    if |s| == 0 then None
    else if s[0].0 == key then Some(s[0].1)
    else Lookup(s[1..], key)
  }

  /** map.remove(key): the entries without key, the others in order. */
  function RemoveKey<K(==), V>(s: seq<(K, V)>, key: K): (r: seq<(K, V)>)
    ensures |r| <= |s|
  {
    if |s| == 0 then []
    else if s[0].0 == key then RemoveKey(s[1..], key)
    else [s[0]] + RemoveKey(s[1..], key)
  }

  /** map.get(key) in access order: a hit moves key's entry to the most-recent end. */
  function Bump<K(==), V>(s: seq<(K, V)>, key: K): seq<(K, V)> {
    match Lookup(s, key)
    case None => s
    case Some(v) => RemoveKey(s, key) + [(key, v)]
  }

  /** map.put(key, value) in access order: key's entry, new or replaced, goes to the most-recent end. */
  function PutEntry<K(==), V>(s: seq<(K, V)>, key: K, value: V): seq<(K, V)> {
    RemoveKey(s, key) + [(key, value)]
  }

  // ---------------------------------------------------------------------------
  // The cache operations.
  // ---------------------------------------------------------------------------

  /** LruCache(maxSize): refuses a maximum that is not positive. */
  function Create<K(==), V>(maxSize: int): Result<Lru<K, V>, CacheError> {
    if maxSize <= 0 then Failure(IllegalArgument) else Success(Lru([], 0, maxSize))
  }

  /** safeSizeOf(key, value): sizeOf's result, or an exception when it is negative. */
  function SafeSizeOf<K(==), V>(cost: (K, V) -> int, key: K, value: V): (r: Result<int, CacheError>)
    ensures r.Failure? <==> cost(key, value) < 0
    ensures r.Failure? ==> r.error == NegativeSize
    ensures r.Success? ==> r.value == cost(key, value) && 0 <= r.value
  {
    var c := cost(key, value);
    if c < 0 then Failure(NegativeSize) else Success(c)
  }

  /**
   * trimToSize(): evicts the eldest entry, subtracting its raw sizeOf, until
   * size <= maxSize or no entry is left; throws as soon as size is negative or
   * the map is empty with a non-zero size.  Returns the state at the point it
   * stopped, with the exception if it threw.
   */
  function Trim<K(==), V>(st: Lru<K, V>, cost: (K, V) -> int): (Lru<K, V>, Option<CacheError>)
    decreases |st.entries|
  {
    if st.size < 0 || (|st.entries| == 0 && st.size != 0) then (st, Some(InconsistentSize))
    else if st.size <= st.maxSize || |st.entries| == 0 then (st, None)
    else
      var eldest := st.entries[0];
      Trim(st.(size := st.size - cost(eldest.0, eldest.1),
               entries := RemoveKey(st.entries, eldest.0)), cost)
  }

  /**
   * put(key, value): adds the new entry's cost, stores the entry at the
   * most-recent end, subtracts the replaced entry's cost and trims.  An
   * exception leaves the state as it was when it was thrown.
   */
  function PutOp<K(==), V>(st: Lru<K, V>, key: K, value: V, cost: (K, V) -> int)
    : (Lru<K, V>, Result<Option<V>, CacheError>)
  {
    match SafeSizeOf(cost, key, value)
    case Failure(e) => (st, Failure(e))
    case Success(c) =>
      var previous := Lookup(st.entries, key);
      var st1 := st.(size := st.size + c, entries := PutEntry(st.entries, key, value));
      if previous.Some? && cost(key, previous.value) < 0 then (st1, Failure(NegativeSize))
      else
        var st2 := if previous.Some? then st1.(size := st1.size - cost(key, previous.value)) else st1;
        var (st3, err) := Trim(st2, cost);
        (st3, if err.Some? then Failure(err.value) else Success(previous))
  }

  /** get(key): the value mapped to key, which moves to the most-recent end. */
  function GetOp<K(==), V>(st: Lru<K, V>, key: K): (Lru<K, V>, Option<V>) {
    (st.(entries := Bump(st.entries, key)), Lookup(st.entries, key))
  }

  /**
   * remove(key) as written: it looks the key up with map.get rather than
   * map.remove, so the entry stays resident (moved to the most-recent end)
   * while its cost is subtracted from size.
   */
  function RemoveOp<K(==), V>(st: Lru<K, V>, key: K, cost: (K, V) -> int): (Lru<K, V>, Option<V>) {
    var previous := Lookup(st.entries, key);
    var st1 := st.(entries := Bump(st.entries, key));
    (if previous.Some? then st1.(size := st.size - cost(key, previous.value)) else st1, previous)
  }

  /** clear(): no entries and size zero. */
  function ClearOp<K(==), V>(st: Lru<K, V>): (r: Lru<K, V>)
    ensures r.entries == [] && r.size == 0 && r.maxSize == st.maxSize
    ensures AsMap(r.entries) == map[]
  {
    Lru([], 0, st.maxSize)
  }

  // ---------------------------------------------------------------------------
  // Lemmas about the access-ordered map.
  // ---------------------------------------------------------------------------

  /** Lookup and AsMap agree. */
  lemma {:induction false} LookupAsMap<K, V>(s: seq<(K, V)>, key: K)
    ensures Lookup(s, key) == if key in AsMap(s) then Some(AsMap(s)[key]) else None
    decreases |s|
  {
    if |s| > 0 {
      LookupAsMap(s[1..], key);
    }
  }

  /** Every entry's key is mapped. */
  lemma {:induction false} KeysMapped<K, V>(s: seq<(K, V)>, i: nat)
    requires i < |s|
    ensures s[i].0 in AsMap(s)
    decreases |s|
  {
    if i > 0 {
      KeysMapped(s[1..], i - 1);
    }
  }

  /** With distinct keys, each entry gives its key's mapped value. */
  lemma {:induction false} EntryMapped<K, V>(s: seq<(K, V)>, i: nat)
    requires DistinctKeys(s) && i < |s|
    ensures s[i].0 in AsMap(s) && AsMap(s)[s[i].0] == s[i].1
    decreases |s|
  {
    if i > 0 {
      assert DistinctKeys(s[1..]) by {
        forall a, b | 0 <= a < b < |s[1..]| ensures s[1..][a].0 != s[1..][b].0 {
          assert s[1..][a] == s[a + 1] && s[1..][b] == s[b + 1];
        }
      }
      EntryMapped(s[1..], i - 1);
      assert s[0].0 != s[i].0;
    }
  }

  /** A key that no entry holds is not mapped. */
  lemma {:induction false} UnmappedKey<K, V>(s: seq<(K, V)>, key: K)
    requires forall i :: 0 <= i < |s| ==> s[i].0 != key
    ensures key !in AsMap(s)
    decreases |s|
  {
    if |s| > 0 {
      var t := s[1..];
      assert forall i :: 0 <= i < |t| ==> t[i].0 != key by {
        forall i | 0 <= i < |t| ensures t[i].0 != key {
          assert t[i] == s[i + 1];
        }
      }
      UnmappedKey(t, key);
    }
  }

  /** map.remove(key) unmaps key, keeps every other mapping and keeps keys distinct. */
  lemma {:induction false} RemoveKeyCorrect<K, V>(s: seq<(K, V)>, key: K)
    requires DistinctKeys(s)
    ensures AsMap(RemoveKey(s, key)) == AsMap(s) - {key}
    ensures DistinctKeys(RemoveKey(s, key))
    ensures key in AsMap(s) ==> |RemoveKey(s, key)| == |s| - 1
    ensures key !in AsMap(s) ==> RemoveKey(s, key) == s
    decreases |s|
  {
    if |s| > 0 {
      var t := s[1..];
      assert DistinctKeys(t) by {
        forall a, b | 0 <= a < b < |t| ensures t[a].0 != t[b].0 {
          assert t[a] == s[a + 1] && t[b] == s[b + 1];
        }
      }
      RemoveKeyCorrect(t, key);
      var r := RemoveKey(t, key);
      assert forall i :: 0 <= i < |t| ==> t[i].0 != s[0].0 by {
        forall i | 0 <= i < |t| ensures t[i].0 != s[0].0 {
          assert t[i] == s[i + 1];
        }
      }
      UnmappedKey(t, s[0].0);
      if s[0].0 != key {
        assert s[0].0 !in AsMap(r);
        assert DistinctKeys([s[0]] + r) by {
          forall a, b | 0 <= a < b < |[s[0]] + r| ensures ([s[0]] + r)[a].0 != ([s[0]] + r)[b].0 {
            if a == 0 {
              assert ([s[0]] + r)[b] == r[b - 1];
              KeysMapped(r, b - 1);
            } else {
              assert ([s[0]] + r)[a] == r[a - 1] && ([s[0]] + r)[b] == r[b - 1];
            }
          }
        }
        assert ([s[0]] + r)[1..] == r;
      }
    }
  }

  /** With distinct keys, evicting the eldest entry by its key drops exactly the head. */
  lemma {:induction false} RemoveHead<K, V>(s: seq<(K, V)>)
    requires DistinctKeys(s) && |s| > 0
    ensures RemoveKey(s, s[0].0) == s[1..]
  {
    var t := s[1..];
    assert forall i :: 0 <= i < |t| ==> t[i].0 != s[0].0 by {
      forall i | 0 <= i < |t| ensures t[i].0 != s[0].0 {
        assert t[i] == s[i + 1];
      }
    }
    RemoveAbsent(t, s[0].0);
  }

  lemma {:induction false} RemoveAbsent<K, V>(s: seq<(K, V)>, key: K)
    requires forall i :: 0 <= i < |s| ==> s[i].0 != key
    ensures RemoveKey(s, key) == s
    decreases |s|
  {
    if |s| > 0 {
      var t := s[1..];
      assert forall i :: 0 <= i < |t| ==> t[i].0 != key by {
        forall i | 0 <= i < |t| ensures t[i].0 != key {
          assert t[i] == s[i + 1];
        }
      }
      RemoveAbsent(t, key);
      assert [s[0]] + t == s;
    }
  }

  /** Appending an entry for an unmapped key maps it. */
  lemma {:induction false} AsMapSnoc<K, V>(s: seq<(K, V)>, key: K, value: V)
    requires key !in AsMap(s)
    ensures AsMap(s + [(key, value)]) == AsMap(s)[key := value]
    decreases |s|
  {
    if |s| == 0 {
      assert AsMap([(key, value)]) == AsMap([(key, value)][1..])[key := value];
    } else {
      AsMapSnoc(s[1..], key, value);
      assert (s + [(key, value)])[1..] == s[1..] + [(key, value)];
    }
  }

  /** Appending an entry whose key no entry holds keeps keys distinct. */
  lemma SnocDistinct<K, V>(s: seq<(K, V)>, key: K, value: V)
    requires DistinctKeys(s) && key !in AsMap(s)
    ensures DistinctKeys(s + [(key, value)])
  {
    var t := s + [(key, value)];
    forall a, b | 0 <= a < b < |t| ensures t[a].0 != t[b].0 {
      if b == |s| {
        KeysMapped(s, a);
      }
    }
  }

  /**
   * put in access order maps key to value, keeps every other mapping, keeps
   * keys distinct and leaves key's entry most recent.
   */
  lemma PutEntryCorrect<K, V>(s: seq<(K, V)>, key: K, value: V)
    requires DistinctKeys(s)
    ensures AsMap(PutEntry(s, key, value)) == AsMap(s)[key := value]
    ensures DistinctKeys(PutEntry(s, key, value))
    ensures PutEntry(s, key, value)[|PutEntry(s, key, value)| - 1] == (key, value)
    ensures |PutEntry(s, key, value)| == if key in AsMap(s) then |s| else |s| + 1
  {
    RemoveKeyCorrect(s, key);
    AsMapSnoc(RemoveKey(s, key), key, value);
    SnocDistinct(RemoveKey(s, key), key, value);
    assert AsMap(s)[key := value] == (AsMap(s) - {key})[key := value];
  }

  /**
   * get in access order changes no mapping and no entry count, keeps keys
   * distinct, and leaves a hit's entry most recent.
   */
  lemma BumpCorrect<K, V>(s: seq<(K, V)>, key: K)
    requires DistinctKeys(s)
    ensures AsMap(Bump(s, key)) == AsMap(s)
    ensures DistinctKeys(Bump(s, key)) && |Bump(s, key)| == |s|
    ensures key in AsMap(s) ==> Bump(s, key)[|s| - 1] == (key, AsMap(s)[key])
    ensures key !in AsMap(s) ==> Bump(s, key) == s
  {
    LookupAsMap(s, key);
    if key in AsMap(s) {
      PutEntryCorrect(s, key, AsMap(s)[key]);
    }
  }

  // ---------------------------------------------------------------------------
  // Lemmas about the cache operations.
  // ---------------------------------------------------------------------------

  /**
   * trimToSize only ever drops the eldest entries: what it leaves is a suffix
   * of the entries, size has lost exactly the cost of the dropped prefix, and
   * maxSize is untouched.
   */
  lemma {:induction false} TrimCorrect<K, V>(st: Lru<K, V>, cost: (K, V) -> int)
    requires DistinctKeys(st.entries)
    ensures var r := Trim(st, cost).0; var n := |st.entries| - |r.entries|;
      && 0 <= n <= |st.entries|
      && r.entries == st.entries[n..]
      && r.size == st.size - TotalCost(st.entries[..n], cost)
      && r.maxSize == st.maxSize
      && DistinctKeys(r.entries)
    decreases |st.entries|
  {
    if st.size < 0 || (|st.entries| == 0 && st.size != 0) {
    } else if st.size <= st.maxSize || |st.entries| == 0 {
    } else {
      var s := st.entries;
      var eldest := s[0];
      RemoveHead(s);
      var st' := st.(size := st.size - cost(eldest.0, eldest.1), entries := s[1..]);
      assert DistinctKeys(s[1..]) by {
        forall a, b | 0 <= a < b < |s[1..]| ensures s[1..][a].0 != s[1..][b].0 {
          assert s[1..][a] == s[a + 1] && s[1..][b] == s[b + 1];
        }
      }
      assert Trim(st, cost) == Trim(st', cost);
      TrimCorrect(st', cost);
      var r := Trim(st', cost).0;
      var m := |s[1..]| - |r.entries|;
      assert s[1..][m..] == s[m + 1..];
      assert s[..m + 1][1..] == s[1..][..m];
      assert TotalCost(s[..m + 1], cost) == cost(eldest.0, eldest.1) + TotalCost(s[1..][..m], cost);
    }
  }

  /**
   * trimToSize throws exactly when the state it stopped at had a negative
   * size, or no entries and a non-zero size; when it returns normally that
   * state has 0 <= size and either size <= maxSize or no entries at all.
   */
  lemma {:induction false} TrimOutcome<K, V>(st: Lru<K, V>, cost: (K, V) -> int)
    requires DistinctKeys(st.entries)
    ensures var (r, err) := Trim(st, cost);
      && r.maxSize == st.maxSize
      && (err.Some? <==> (r.size < 0 || (|r.entries| == 0 && r.size != 0)))
      && (err.Some? ==> err == Some(InconsistentSize))
      && (err.None? ==> 0 <= r.size && (r.size <= r.maxSize || |r.entries| == 0))
    decreases |st.entries|
  {
    if st.size < 0 || (|st.entries| == 0 && st.size != 0) {
    } else if st.size <= st.maxSize || |st.entries| == 0 {
    } else {
      var s := st.entries;
      RemoveHead(s);
      assert DistinctKeys(s[1..]) by {
        forall a, b | 0 <= a < b < |s[1..]| ensures s[1..][a].0 != s[1..][b].0 {
          assert s[1..][a] == s[a + 1] && s[1..][b] == s[b + 1];
        }
      }
      TrimOutcome(st.(size := st.size - cost(s[0].0, s[0].1), entries := s[1..]), cost);
    }
  }

  /**
   * trimToSize stops at the first point where it may: every state it passed
   * through on the way still had 0 <= size, size > maxSize and an entry to evict.
   */
  lemma {:induction false} TrimMinimal<K, V>(st: Lru<K, V>, cost: (K, V) -> int, k: nat)
    requires DistinctKeys(st.entries)
    requires k < |st.entries| - |Trim(st, cost).0.entries|
    ensures var size := st.size - TotalCost(st.entries[..k], cost);
      0 <= size && size > st.maxSize
    decreases |st.entries|
  {
    var s := st.entries;
    if st.size < 0 || (|s| == 0 && st.size != 0) {
    } else if st.size <= st.maxSize || |s| == 0 {
    } else if k == 0 {
      assert s[..0] == [];
    } else {
      var eldest := s[0];
      RemoveHead(s);
      var st' := st.(size := st.size - cost(eldest.0, eldest.1), entries := s[1..]);
      assert DistinctKeys(s[1..]) by {
        forall a, b | 0 <= a < b < |s[1..]| ensures s[1..][a].0 != s[1..][b].0 {
          assert s[1..][a] == s[a + 1] && s[1..][b] == s[b + 1];
        }
      }
      TrimMinimal(st', cost, k - 1);
      assert s[..k][1..] == s[1..][..k - 1];
    }
  }

  /** When trimToSize returns normally on a cache with a positive maximum, 0 <= size <= maxSize. */
  lemma TrimBound<K, V>(st: Lru<K, V>, cost: (K, V) -> int)
    requires DistinctKeys(st.entries) && st.maxSize > 0
    ensures Trim(st, cost).1.None? ==>
      0 <= Trim(st, cost).0.size <= Trim(st, cost).0.maxSize
  {
    TrimOutcome(st, cost);
  }

  /**
   * The state put leaves before it trims, when neither cost is negative: key
   * maps to value at the most-recent end and size has gained the new entry's
   * cost and lost the replaced one's.
   */
  ghost function Staged<K, V>(st: Lru<K, V>, key: K, value: V, cost: (K, V) -> int): Lru<K, V> {
    var m := AsMap(st.entries);
    st.(entries := RemoveKey(st.entries, key) + [(key, value)],
        size := st.size + cost(key, value) - if key in m then cost(key, m[key]) else 0)
  }

  /**
   * put(key, value) keeps keys distinct and maxSize; a negative cost for the
   * new entry throws before anything changes; a normal return yields the
   * previously mapped value.
   */
  lemma PutOpCorrect<K, V>(st: Lru<K, V>, key: K, value: V, cost: (K, V) -> int)
    requires DistinctKeys(st.entries)
    ensures var (r, res) := PutOp(st, key, value, cost);
      && DistinctKeys(r.entries) && r.maxSize == st.maxSize
      && (cost(key, value) < 0 ==> r == st && res == Failure(NegativeSize))
      && (res.Success? ==> res.value == (if key in AsMap(st.entries) then Some(AsMap(st.entries)[key]) else None))
  {
    LookupAsMap(st.entries, key);
    PutEntryCorrect(st.entries, key, value);
    var previous := Lookup(st.entries, key);
    if cost(key, value) >= 0 && !(previous.Some? && cost(key, previous.value) < 0) {
      var pre := Staged(st, key, value, cost);
      assert PutOp(st, key, value, cost).0 == Trim(pre, cost).0;
      TrimCorrect(pre, cost);
    }
  }

  /** A negative cost for the replaced entry throws after the new entry was stored and its cost added. */
  lemma PutOpRejectsPrevious<K, V>(st: Lru<K, V>, key: K, value: V, cost: (K, V) -> int)
    requires cost(key, value) >= 0 && key in AsMap(st.entries) && cost(key, AsMap(st.entries)[key]) < 0
    ensures PutOp(st, key, value, cost) ==
      (st.(size := st.size + cost(key, value), entries := PutEntry(st.entries, key, value)), Failure(NegativeSize))
  {
    LookupAsMap(st.entries, key);
  }

  /**
   * When neither cost is negative, put trims the staged state: the cache ends
   * where trimToSize leaves it, put throws exactly when trimToSize does, and
   * the staged state maps key to value at the most-recent end.
   */
  lemma PutOpTrims<K, V>(st: Lru<K, V>, key: K, value: V, cost: (K, V) -> int)
    requires DistinctKeys(st.entries) && cost(key, value) >= 0
    requires key in AsMap(st.entries) ==> cost(key, AsMap(st.entries)[key]) >= 0
    ensures var pre := Staged(st, key, value, cost);
      && PutOp(st, key, value, cost).0 == Trim(pre, cost).0
      && (PutOp(st, key, value, cost).1.Failure? <==> Trim(pre, cost).1.Some?)
      && AsMap(pre.entries) == AsMap(st.entries)[key := value]
      && pre.entries[|pre.entries| - 1] == (key, value)
  {
    LookupAsMap(st.entries, key);
    PutEntryCorrect(st.entries, key, value);
  }

  /**
   * After a normal put, key maps to value unless trimming emptied the cache,
   * in which case it put the entry it had just stored out too.
   */
  lemma PutKeepsNewest<K, V>(st: Lru<K, V>, key: K, value: V, cost: (K, V) -> int)
    requires DistinctKeys(st.entries)
    requires PutOp(st, key, value, cost).1.Success?
    ensures var r := PutOp(st, key, value, cost).0;
      |r.entries| > 0 ==>
        (r.entries[|r.entries| - 1] == (key, value) && key in AsMap(r.entries) && AsMap(r.entries)[key] == value)
  {
    LookupAsMap(st.entries, key);
    assert cost(key, value) >= 0;
    assert key in AsMap(st.entries) ==> cost(key, AsMap(st.entries)[key]) >= 0;
    PutOpTrims(st, key, value, cost);
    var pre := Staged(st, key, value, cost);
    PutEntryCorrect(st.entries, key, value);
    TrimCorrect(pre, cost);
    var r := Trim(pre, cost).0;
    if |r.entries| > 0 {
      var n := |pre.entries| - |r.entries|;
      assert r.entries[|r.entries| - 1] == pre.entries[n..][|r.entries| - 1];
      EntryMapped(r.entries, |r.entries| - 1);
    }
  }

  /** get(key) returns what key maps to, changes no mapping and not the size, and makes a hit most recent. */
  lemma GetOpCorrect<K, V>(st: Lru<K, V>, key: K)
    requires DistinctKeys(st.entries)
    ensures var (r, v) := GetOp(st, key);
      && v == (if key in AsMap(st.entries) then Some(AsMap(st.entries)[key]) else None)
      && AsMap(r.entries) == AsMap(st.entries) && |r.entries| == |st.entries|
      && DistinctKeys(r.entries)
      && r.size == st.size && r.maxSize == st.maxSize
      && (v.Some? ==> r.entries[|r.entries| - 1] == (key, v.value))
  {
    LookupAsMap(st.entries, key);
    BumpCorrect(st.entries, key);
  }

  /**
   * remove(key) as written returns what key maps to and, on a hit, subtracts
   * its cost from size, yet every entry stays resident: the mapping and the
   * entry count are unchanged and the hit becomes most recent.
   */
  lemma RemoveOpCorrect<K, V>(st: Lru<K, V>, key: K, cost: (K, V) -> int)
    requires DistinctKeys(st.entries)
    ensures var (r, v) := RemoveOp(st, key, cost);
      && v == (if key in AsMap(st.entries) then Some(AsMap(st.entries)[key]) else None)
      && r.size == (if v.Some? then st.size - cost(key, v.value) else st.size)
      && AsMap(r.entries) == AsMap(st.entries) && |r.entries| == |st.entries|
      && DistinctKeys(r.entries) && r.maxSize == st.maxSize
      && (v.Some? ==> r.entries[|r.entries| - 1] == (key, v.value))
  {
    LookupAsMap(st.entries, key);
    BumpCorrect(st.entries, key);
  }

  // ---------------------------------------------------------------------------
  // Cost accounting: size against the summed cost of the resident entries.
  // ---------------------------------------------------------------------------

  /**
   * size is the summed sizeOf of the resident entries: the consistency that
   * trimToSize's "inconsistent results" check takes for granted.
   */
  ghost predicate Consistent<K, V>(st: Lru<K, V>, cost: (K, V) -> int) {
    st.size == TotalCost(st.entries, cost)
  }

  /** A cost function that is never negative, at one entry. */
  lemma CostAt<K, V>(cost: (K, V) -> int, key: K, value: V)
    requires forall k: K, v: V :: cost(k, v) >= 0
    ensures cost(key, value) >= 0
  {
  }

  lemma {:induction false} TotalCostSplit<K, V>(s: seq<(K, V)>, cost: (K, V) -> int, n: nat)
    requires n <= |s|
    ensures TotalCost(s, cost) == TotalCost(s[..n], cost) + TotalCost(s[n..], cost)
    decreases n
  {
    if n == 0 {
      assert s[0..] == s;
    } else {
      TotalCostSplit(s[1..], cost, n - 1);
      assert s[..n][1..] == s[1..][..n - 1];
      assert s[1..][n - 1..] == s[n..];
    }
  }

  lemma {:induction false} TotalCostSnoc<K, V>(s: seq<(K, V)>, e: (K, V), cost: (K, V) -> int)
    ensures TotalCost(s + [e], cost) == TotalCost(s, cost) + cost(e.0, e.1)
    decreases |s|
  {
    if |s| == 0 {
      assert (s + [e])[1..] == [];
    } else {
      TotalCostSnoc(s[1..], e, cost);
      assert (s + [e])[1..] == s[1..] + [e];
    }
  }

  lemma {:induction false} TotalCostNonNegative<K, V>(s: seq<(K, V)>, cost: (K, V) -> int)
    requires forall k, v :: cost(k, v) >= 0
    ensures TotalCost(s, cost) >= 0
    decreases |s|
  {
    if |s| > 0 {
      TotalCostNonNegative(s[1..], cost);
    }
  }

  /**
   * With the default sizeOf the total cost is the number of entries, so a
   * consistent size counts the entries and maxSize bounds how many there are.
   */
  lemma {:induction false} DefaultCostCounts<K, V>(s: seq<(K, V)>, cost: (K, V) -> int)
    requires forall k, v :: cost(k, v) == DefaultSizeOf(k, v)
    ensures TotalCost(s, cost) == |s|
    decreases |s|
  {
    if |s| > 0 {
      DefaultCostCounts(s[1..], cost);
      assert cost(s[0].0, s[0].1) == 1;
    }
  }

  /** map.remove(key) takes exactly the cost of key's entry off the total. */
  lemma {:induction false} TotalCostRemove<K, V>(s: seq<(K, V)>, key: K, cost: (K, V) -> int)
    requires DistinctKeys(s)
    ensures TotalCost(RemoveKey(s, key), cost) ==
      TotalCost(s, cost) - if key in AsMap(s) then cost(key, AsMap(s)[key]) else 0
    decreases |s|
  {
    if |s| > 0 {
      var t := s[1..];
      assert DistinctKeys(t) by {
        forall a, b | 0 <= a < b < |t| ensures t[a].0 != t[b].0 {
          assert t[a] == s[a + 1] && t[b] == s[b + 1];
        }
      }
      if s[0].0 == key {
        assert forall i :: 0 <= i < |t| ==> t[i].0 != key by {
          forall i | 0 <= i < |t| ensures t[i].0 != key {
            assert t[i] == s[i + 1];
          }
        }
        RemoveAbsent(t, key);
      } else {
        TotalCostRemove(t, key, cost);
        assert ([s[0]] + RemoveKey(t, key))[1..] == RemoveKey(t, key);
      }
    }
  }

  /** get's reordering leaves the total cost as it was. */
  lemma BumpCost<K, V>(s: seq<(K, V)>, key: K, cost: (K, V) -> int)
    requires DistinctKeys(s)
    ensures TotalCost(Bump(s, key), cost) == TotalCost(s, cost)
  {
    LookupAsMap(s, key);
    if key in AsMap(s) {
      TotalCostRemove(s, key, cost);
      TotalCostSnoc(RemoveKey(s, key), (key, AsMap(s)[key]), cost);
    }
  }

  /**
   * Trimming a consistent cache whose costs are non-negative never throws,
   * keeps it consistent and leaves 0 <= size <= maxSize.
   */
  lemma TrimKeepsAccounting<K, V>(st: Lru<K, V>, cost: (K, V) -> int)
    requires DistinctKeys(st.entries) && st.maxSize > 0
    requires forall k: K, v: V :: cost(k, v) >= 0
    requires Consistent(st, cost)
    ensures var (r, err) := Trim(st, cost);
      err.None? && Consistent(r, cost) && 0 <= r.size <= r.maxSize
  {
    TrimCorrect(st, cost);
    TrimOutcome(st, cost);
    var r := Trim(st, cost).0;
    TotalCostSplit(st.entries, cost, |st.entries| - |r.entries|);
    TotalCostNonNegative(r.entries, cost);
  }

  /**
   * put on a consistent cache whose costs are non-negative returns normally,
   * keeps size equal to the summed cost of the resident entries, and leaves
   * 0 <= size <= maxSize.
   */
  lemma PutKeepsAccounting<K, V>(st: Lru<K, V>, key: K, value: V, cost: (K, V) -> int)
    requires DistinctKeys(st.entries) && st.maxSize > 0
    requires forall k: K, v: V :: cost(k, v) >= 0
    requires Consistent(st, cost)
    ensures var (r, res) := PutOp(st, key, value, cost);
      res.Success? && Consistent(r, cost) && 0 <= r.size <= r.maxSize
  {
    CostAt(cost, key, value);
    if key in AsMap(st.entries) {
      CostAt(cost, key, AsMap(st.entries)[key]);
    }
    PutOpTrims(st, key, value, cost);
    var pre := Staged(st, key, value, cost);
    TotalCostRemove(st.entries, key, cost);
    TotalCostSnoc(RemoveKey(st.entries, key), (key, value), cost);
    PutEntryCorrect(st.entries, key, value);
    TrimKeepsAccounting(pre, cost);
  }

  /** get keeps the cache exactly as consistent as it was. */
  lemma GetKeepsAccounting<K, V>(st: Lru<K, V>, key: K, cost: (K, V) -> int)
    requires DistinctKeys(st.entries)
    ensures TotalCost(GetOp(st, key).0.entries, cost) == TotalCost(st.entries, cost)
    ensures Consistent(GetOp(st, key).0, cost) <==> Consistent(st, cost)
  {
    BumpCost(st.entries, key, cost);
  }

  /**
   * remove as written: on a hit, size falls behind the summed cost of the
   * resident entries by exactly the cost of the entry it did not evict, so a
   * consistent cache stops being consistent whenever that cost is positive.
   */
  lemma RemoveBreaksAccounting<K, V>(st: Lru<K, V>, key: K, cost: (K, V) -> int)
    requires DistinctKeys(st.entries)
    ensures var (r, v) := RemoveOp(st, key, cost);
      && r.size - TotalCost(r.entries, cost) ==
         st.size - TotalCost(st.entries, cost) - (if v.Some? then cost(key, v.value) else 0)
      && (Consistent(st, cost) && v.Some? && cost(key, v.value) > 0 ==> !Consistent(r, cost))
      && (v.None? ==> (Consistent(r, cost) <==> Consistent(st, cost)))
  {
    LookupAsMap(st.entries, key);
    BumpCost(st.entries, key, cost);
  }

  // ---------------------------------------------------------------------------
  // Concrete behaviour.
  // ---------------------------------------------------------------------------

  /**
   * With the default cost and maxSize 2, putting three distinct keys evicts the
   * first one inserted and keeps the other two in insertion order.
   */
  lemma EvictsEldest<V>(v1: V, v2: V, v3: V, cost: (int, V) -> int)
    requires forall k, v :: cost(k, v) == DefaultSizeOf(k, v)
    ensures var c: Lru<int, V> := Lru([], 0, 2);
      var c1 := PutOp(c, 1, v1, cost).0;
      var c2 := PutOp(c1, 2, v2, cost).0;
      var (c3, res) := PutOp(c2, 3, v3, cost);
      && c3 == Lru([(2, v2), (3, v3)], 2, 2)
      && res == Success(None)
  {
    var c: Lru<int, V> := Lru([], 0, 2);
    assert PutEntry(c.entries, 1, v1) == [(1, v1)];
    assert Trim(Lru([(1, v1)], 1, 2), cost) == (Lru([(1, v1)], 1, 2), None);
    var c1 := PutOp(c, 1, v1, cost).0;
    assert c1 == Lru([(1, v1)], 1, 2);
    assert Lookup(c1.entries, 2) == None;
    assert RemoveKey(c1.entries, 2) == [(1, v1)] by {
      assert RemoveKey(c1.entries[1..], 2) == [];
    }
    assert Trim(Lru([(1, v1), (2, v2)], 2, 2), cost) == (Lru([(1, v1), (2, v2)], 2, 2), None);
    var c2 := PutOp(c1, 2, v2, cost).0;
    assert c2 == Lru([(1, v1), (2, v2)], 2, 2);
    assert Lookup(c2.entries, 3) == None by {
      assert Lookup(c2.entries[1..], 3) == None;
    }
    assert RemoveKey(c2.entries, 3) == c2.entries by {
      RemoveAbsent(c2.entries, 3);
    }
    var pre := Lru([(1, v1), (2, v2), (3, v3)], 3, 2);
    assert RemoveKey(pre.entries, 1) == [(2, v2), (3, v3)] by {
      RemoveAbsent(pre.entries[1..], 1);
    }
    assert Trim(Lru([(2, v2), (3, v3)], 2, 2), cost) == (Lru([(2, v2), (3, v3)], 2, 2), None);
    assert Trim(pre, cost) == (Lru([(2, v2), (3, v3)], 2, 2), None);
    assert SafeSizeOf(cost, 3, v3) == Success(1);
    assert PutEntry(c2.entries, 3, v3) == pre.entries;
    assert PutOp(c2, 3, v3, cost) == (Lru([(2, v2), (3, v3)], 2, 2), Success(None));
  }

  /** A single entry whose cost exceeds maxSize is evicted as well: the cache ends empty. */
  lemma OversizedEntryEvicted<K, V>(maxSize: int, key: K, value: V, cost: (K, V) -> int)
    requires 0 < maxSize < cost(key, value)
    ensures PutOp(Lru([], 0, maxSize), key, value, cost) == (Lru([], 0, maxSize), Success(None))
  {
    var pre := Lru([(key, value)], cost(key, value), maxSize);
    assert PutEntry([], key, value) == [(key, value)];
    assert RemoveKey(pre.entries, key) == [];
    assert Trim(Lru([], 0, maxSize), cost) == (Lru([], 0, maxSize), None);
    assert Trim(pre, cost) == (Lru([], 0, maxSize), None);
  }

  /**
   * remove twice on a one-entry cache of cost one drives size to -1 while the
   * entry stays resident; putting that key again then throws from trimToSize.
   */
  lemma RemoveTwiceThenPutThrows<K, V>(k: K, v: V, v2: V, cost: (K, V) -> int)
    requires forall a, b :: cost(a, b) == DefaultSizeOf(a, b)
    ensures var c := Lru([(k, v)], 1, 10);
      var c1 := RemoveOp(RemoveOp(c, k, cost).0, k, cost).0;
      && c1 == Lru([(k, v)], -1, 10)
      && PutOp(c1, k, v2, cost) == (Lru([(k, v2)], -1, 10), Failure(InconsistentSize))
  {
    var c := Lru([(k, v)], 1, 10);
    assert Lookup(c.entries, k) == Some(v);
    assert RemoveKey(c.entries, k) == [];
    assert Bump(c.entries, k) == [(k, v)];
    var c0 := RemoveOp(c, k, cost).0;
    assert c0 == Lru([(k, v)], 0, 10);
    var c1 := RemoveOp(c0, k, cost).0;
    assert c1 == Lru([(k, v)], -1, 10);
    assert PutEntry(c1.entries, k, v2) == [(k, v2)];
    assert SafeSizeOf(cost, k, v2) == Success(1);
    var pre := Lru([(k, v2)], -1, 10);
    assert Trim(pre, cost) == (pre, Some(InconsistentSize));
    assert PutOp(c1, k, v2, cost) == (pre, Failure(InconsistentSize));
  }
}
