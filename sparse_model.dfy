/**
 * A value-level model of a SparseArray's state: the occupied prefix of the
 * two parallel arrays as a sequence of (key, value cell) pairs, the length of
 * the backing arrays and the garbage flag.  Every operation of the class is
 * specified by a function on this state, and the lemmas below say what those
 * functions do to the key-to-value mapping the prefix represents.
 */
module SparseModel {

  /** A cell of the value array: null, a stored value, or the DELETED sentinel. */
  datatype Slot<E> = Empty | Live(value: E) | Deleted

  /** One occupied position: its key and its value cell. */
  type Cell<E> = (int, Slot<E>)

  /** The occupied prefix, the length of the backing arrays, and the garbage flag. */
  datatype Store<E> = Store(slots: seq<Cell<E>>, capacity: nat, garbage: bool)

  ghost predicate Ascending<E>(s: seq<Cell<E>>) {
    forall i, j :: 0 <= i < j < |s| ==> s[i].0 < s[j].0
  }

  ghost predicate NoEmpty<E>(s: seq<Cell<E>>) {
    forall i :: 0 <= i < |s| ==> !s[i].1.Empty?
  }

  ghost predicate AllLive<E>(s: seq<Cell<E>>) {
    forall i :: 0 <= i < |s| ==> s[i].1.Live?
  }

  ghost predicate Absent<E>(s: seq<Cell<E>>, key: int) {
    forall i :: 0 <= i < |s| ==> s[i].0 != key
  }

  ghost predicate Below<E>(s: seq<Cell<E>>, bound: int) {
    forall i :: 0 <= i < |s| ==> s[i].0 < bound
  }

  /**
   * The invariant of the class: keys strictly ascending over the whole prefix
   * (tombstones included), no null cell in the prefix, and a tombstone in the
   * prefix only while the garbage flag is set.
   */
  ghost predicate Inv<E>(st: Store<E>) {
    && |st.slots| <= st.capacity
    && Ascending(st.slots)
    && NoEmpty(st.slots)
    && (!st.garbage ==> AllLive(st.slots))
  }

  /** The key-to-value mapping held by the slots; tombstoned keys are absent. */
  function Mapping<E>(s: seq<Cell<E>>): map<int, E> {
    if |s| == 0 then map[]
    else
      var m := Mapping(s[..|s| - 1]);
      var last := s[|s| - 1];
      if last.1.Live? then m[last.0 := last.1.value] else m
  }

  /** The live slots in their original order: what compaction leaves in the prefix. */
  function Compact<E>(s: seq<Cell<E>>): (r: seq<Cell<E>>)
    ensures |r| <= |s|
  {
    if |s| == 0 then []
    else
      var last := s[|s| - 1];
      Compact(s[..|s| - 1]) + (if last.1.Live? then [last] else [])
  }

  /**
   * The index a binary search for key reports: the first slot whose key is
   * not below key (|s| if there is none).
   */
  function InsertionPoint<E>(s: seq<Cell<E>>, key: int): (p: nat)
    ensures p <= |s|
    ensures forall j :: 0 <= j < p ==> s[j].0 < key
    ensures p < |s| ==> key <= s[p].0
  {
    if |s| == 0 || key <= s[0].0 then 0 else 1 + InsertionPoint(s[1..], key)
  }

  /** s with x inserted before position i, the rest shifted right by one. */
  function InsertAt<T>(s: seq<T>, i: nat, x: T): (r: seq<T>)
    requires i <= |s|
    ensures |r| == |s| + 1 && r[i] == x
    ensures forall j :: 0 <= j < i ==> r[j] == s[j]
    ensures forall j :: i < j <= |s| ==> r[j] == s[j - 1]
  {
    s[..i] + [x] + s[i..]
  }

  // ---------------------------------------------------------------------------
  // The operations, as functions of the state.
  // ---------------------------------------------------------------------------

  /** gc(): keep the live slots in order and clear the garbage flag. */
  function Gc<E>(st: Store<E>): Store<E> {
    Store(Compact(st.slots), st.capacity, false)
  }

  /** The compaction that size(), keyAt(), valueAt() and friends run first when garbage is set. */
  function Tidy<E>(st: Store<E>): Store<E> {
    if st.garbage then Gc(st) else st
  }

  /** The compaction put and append run first when the arrays are full and garbage is set. */
  function CompactIfFull<E>(st: Store<E>): Store<E> {
    if st.garbage && |st.slots| >= st.capacity then Gc(st) else st
  }

  /** put(key, value). */
  function PutStore<E>(st: Store<E>, key: int, value: E): Store<E> {
    var s := st.slots;
    var p := InsertionPoint(s, key);
    if p < |s| && s[p].0 == key then
      // exact hit: the value cell is replaced (a tombstone is revived)
      st.(slots := s[p := (key, Live(value))])
    else if p < |s| && s[p].1.Deleted? then
      // the insertion point holds a tombstone: reuse it in place
      st.(slots := s[p := (key, Live(value))])
    else
      // compact first when the arrays are full and tombstones may exist
      var b := CompactIfFull(st);
      var q := InsertionPoint(b.slots, key);
      // grow by exactly one slot when still full, then shift right and insert
      Store(InsertAt(b.slots, q, (key, Live(value))),
            if |b.slots| >= b.capacity then |b.slots| + 1 else b.capacity,
            b.garbage)
  }

  /**
   * append(key, value); grown is the capacity the ideal-size rounding returns
   * when the arrays have to grow.
   */
  function AppendStore<E>(st: Store<E>, key: int, value: E, grown: nat): Store<E> {
    var s := st.slots;
    if |s| != 0 && key <= s[|s| - 1].0 then PutStore(st, key, value)
    else
      var b := CompactIfFull(st);
      Store(b.slots + [(key, Live(value))],
            if |b.slots| >= b.capacity then grown else b.capacity,
            b.garbage)
  }

  /** removeAt(index): tombstone the slot unless it already is one. */
  function RemoveAtStore<E>(st: Store<E>, i: nat): (r: Store<E>)
    requires i < |st.slots|
    ensures |r.slots| == |st.slots| && r.capacity == st.capacity
  {
    if st.slots[i].1.Deleted? then st
    else Store(st.slots[i := (st.slots[i].0, Deleted)], st.capacity, true)
  }

  /** delete(key) and its alias remove(key). */
  function DeleteStore<E>(st: Store<E>, key: int): Store<E> {
    var p := InsertionPoint(st.slots, key);
    if p < |st.slots| && st.slots[p].0 == key then RemoveAtStore(st, p) else st
  }

  /** The loop of removeAtRange: removeAt(i) for lo <= i < end. */
  function RemoveRangeStore<E>(st: Store<E>, lo: nat, end: nat): Store<E>
    requires end <= |st.slots|
    decreases end - lo
  {
    if end <= lo then st else RemoveRangeStore(RemoveAtStore(st, lo), lo + 1, end)
  }

  /** setValueAt(index, value), after the implicit compaction. */
  function SetValueAtStore<E>(st: Store<E>, i: nat, value: E): Store<E>
    requires i < |Tidy(st).slots|
  {
    var t := Tidy(st);
    t.(slots := t.slots[i := (t.slots[i].0, Live(value))])
  }

  // ---------------------------------------------------------------------------
  // Lemmas about the mapping of a slot sequence.
  // ---------------------------------------------------------------------------

  lemma MappingSnoc<E>(s: seq<Cell<E>>, c: Cell<E>)
    ensures Mapping(s + [c]) == if c.1.Live? then Mapping(s)[c.0 := c.1.value] else Mapping(s)
  {
    assert (s + [c])[..|s|] == s;
  }

  /** The mapping of a concatenation: later slots win. */
  lemma {:induction false} MappingConcat<E>(a: seq<Cell<E>>, b: seq<Cell<E>>)
    ensures Mapping(a + b) == Mapping(a) + Mapping(b)
    decreases |b|
  {
    if |b| == 0 {
      assert a + b == a;
    } else {
      var b', c := b[..|b| - 1], b[|b| - 1];
      assert b == b' + [c];
      assert a + b == (a + b') + [c];
      MappingConcat(a, b');
      MappingSnoc(a + b', c);
      MappingSnoc(b', c);
    }
  }

  /** A key held by no slot is not mapped. */
  lemma {:induction false} MappingAbsent<E>(s: seq<Cell<E>>, key: int)
    requires Absent(s, key)
    ensures key !in Mapping(s)
    decreases |s|
  {
    if |s| > 0 {
      MappingAbsent(s[..|s| - 1], key);
    }
  }

  /** In an ascending prefix, slot i decides alone whether and to what its key is mapped. */
  lemma MappingAt<E>(s: seq<Cell<E>>, i: nat)
    requires Ascending(s) && i < |s|
    ensures s[i].0 in Mapping(s) <==> s[i].1.Live?
    ensures s[i].1.Live? ==> Mapping(s)[s[i].0] == s[i].1.value
  {
    var a, c, b := s[..i], s[i], s[i + 1..];
    assert s == (a + [c]) + b;
    MappingConcat(a + [c], b);
    MappingSnoc(a, c);
    MappingAbsent(a, c.0);
    MappingAbsent(b, c.0);
  }

  /** Writing a live cell for a key that no other slot holds updates the mapping at that key. */
  lemma MappingSet<E>(s: seq<Cell<E>>, i: nat, c: Cell<E>)
    requires i < |s| && c.1.Live?
    requires Absent(s[..i], c.0) && Absent(s[i + 1..], c.0)
    requires s[i].1.Live? ==> s[i].0 == c.0
    ensures Mapping(s[i := c]) == Mapping(s)[c.0 := c.1.value]
  {
    var a, b := s[..i], s[i + 1..];
    assert s == (a + [s[i]]) + b;
    assert s[i := c] == (a + [c]) + b;
    MappingConcat(a + [s[i]], b);
    MappingConcat(a + [c], b);
    MappingSnoc(a, s[i]);
    MappingSnoc(a, c);
    MappingAbsent(a, c.0);
    MappingAbsent(b, c.0);
  }

  /** Tombstoning a slot whose key no other slot holds removes that key. */
  lemma MappingTombstone<E>(s: seq<Cell<E>>, i: nat)
    requires i < |s|
    requires Absent(s[..i], s[i].0) && Absent(s[i + 1..], s[i].0)
    ensures Mapping(s[i := (s[i].0, Deleted)]) == Mapping(s) - {s[i].0}
  {
    var a, b, c := s[..i], s[i + 1..], (s[i].0, Deleted);
    assert s == (a + [s[i]]) + b;
    assert s[i := c] == (a + [c]) + b;
    MappingConcat(a + [s[i]], b);
    MappingConcat(a + [c], b);
    MappingSnoc(a, s[i]);
    MappingSnoc(a, c);
    MappingAbsent(a, c.0);
    MappingAbsent(b, c.0);
  }

  /** Inserting a live cell for a new key anywhere adds exactly that key. */
  lemma MappingInsert<E>(s: seq<Cell<E>>, i: nat, c: Cell<E>)
    requires i <= |s| && c.1.Live? && Absent(s, c.0)
    ensures Mapping(InsertAt(s, i, c)) == Mapping(s)[c.0 := c.1.value]
  {
    var a, b := s[..i], s[i..];
    assert InsertAt(s, i, c) == (a + [c]) + b;
    assert s == a + b;
    MappingConcat(a + [c], b);
    MappingConcat(a, b);
    MappingSnoc(a, c);
    MappingAbsent(b, c.0);
    UpdateUnion(Mapping(a), Mapping(b), c.0, c.1.value);
  }

  lemma UpdateUnion<E>(a: map<int, E>, b: map<int, E>, k: int, v: E)
    requires k !in b
    ensures a[k := v] + b == (a + b)[k := v]
  {
  }

  /** Compaction keeps the mapping. */
  lemma {:induction false} MappingCompact<E>(s: seq<Cell<E>>)
    ensures Mapping(Compact(s)) == Mapping(s)
    decreases |s|
  {
    if |s| > 0 {
      var s', c := s[..|s| - 1], s[|s| - 1];
      MappingCompact(s');
      if c.1.Live? {
        MappingSnoc(Compact(s'), c);
      } else {
        assert Compact(s) == Compact(s');
      }
    }
  }

  /** With distinct keys and no tombstone, there are as many mappings as slots. */
  lemma {:induction false} MappingSize<E>(s: seq<Cell<E>>)
    requires Ascending(s) && AllLive(s)
    ensures |Mapping(s)| == |s|
    decreases |s|
  {
    if |s| > 0 {
      var s', c := s[..|s| - 1], s[|s| - 1];
      MappingSize(s');
      MappingAbsent(s', c.0);
    }
  }

  // ---------------------------------------------------------------------------
  // Lemmas about compaction.
  // ---------------------------------------------------------------------------

  /** Compaction keeps only live slots, each taken from the input. */
  lemma {:induction false} CompactLive<E>(s: seq<Cell<E>>)
    ensures AllLive(Compact(s))
    ensures forall i :: 0 <= i < |Compact(s)| ==> Compact(s)[i] in s
    decreases |s|
  {
    if |s| > 0 {
      var s' := s[..|s| - 1];
      CompactLive(s');
      forall i | 0 <= i < |Compact(s')| ensures Compact(s')[i] in s {
        assert Compact(s')[i] in s';
      }
    }
  }

  /** Compaction leaves a prefix without tombstones untouched. */
  lemma {:induction false} CompactAllLive<E>(s: seq<Cell<E>>)
    requires AllLive(s)
    ensures Compact(s) == s
    decreases |s|
  {
    if |s| > 0 {
      var s' := s[..|s| - 1];
      CompactAllLive(s');
      assert s == s' + [s[|s| - 1]];
    }
  }

  lemma CompactBelow<E>(s: seq<Cell<E>>, bound: int)
    requires Below(s, bound)
    ensures Below(Compact(s), bound)
  {
    var r := Compact(s);
    CompactLive(s);
    forall i | 0 <= i < |r| ensures r[i].0 < bound {
      var j :| 0 <= j < |s| && s[j] == r[i];
    }
  }

  lemma CompactAbsent<E>(s: seq<Cell<E>>, key: int)
    requires Absent(s, key)
    ensures Absent(Compact(s), key)
  {
    var r := Compact(s);
    CompactLive(s);
    forall i | 0 <= i < |r| ensures r[i].0 != key {
      var j :| 0 <= j < |s| && s[j] == r[i];
    }
  }

  /** Compaction keeps the keys strictly ascending. */
  lemma {:induction false} CompactAscending<E>(s: seq<Cell<E>>)
    requires Ascending(s)
    ensures Ascending(Compact(s))
    decreases |s|
  {
    if |s| > 0 {
      var s', c := s[..|s| - 1], s[|s| - 1];
      CompactAscending(s');
      CompactBelow(s', c.0);
    }
  }

  // ---------------------------------------------------------------------------
  // Lemmas about the operations.
  // ---------------------------------------------------------------------------

  /**
   * gc() removes every tombstone, keeps the live slots' order and pairing,
   * leaves as many slots as there are live mappings, and keeps the invariant.
   */
  lemma GcCorrect<E>(st: Store<E>)
    requires Inv(st)
    ensures Inv(Gc(st)) && !Gc(st).garbage && AllLive(Gc(st).slots)
    ensures Mapping(Gc(st).slots) == Mapping(st.slots)
    ensures |Gc(st).slots| == |Mapping(st.slots)|
  {
    CompactAscending(st.slots);
    CompactLive(st.slots);
    MappingCompact(st.slots);
    MappingSize(Compact(st.slots));
  }

  /** Compacting twice gives what compacting once gives. */
  lemma GcIdempotent<E>(st: Store<E>)
    ensures Gc(Gc(st)) == Gc(st)
  {
    CompactLive(st.slots);
    CompactAllLive(Compact(st.slots));
  }

  /** The implicit compaction leaves exactly the live slots, whether or not the flag was set. */
  lemma TidyCorrect<E>(st: Store<E>)
    requires Inv(st)
    ensures Tidy(st).slots == Compact(st.slots) && Tidy(st).capacity == st.capacity
    ensures Inv(Tidy(st)) && !Tidy(st).garbage
    ensures Mapping(Tidy(st).slots) == Mapping(st.slots)
  {
    GcCorrect(st);
    if !st.garbage {
      CompactAllLive(st.slots);
    }
  }

  /** size() is the number of live mappings. */
  lemma SizeIsLiveCount<E>(st: Store<E>)
    requires Inv(st)
    ensures |Tidy(st).slots| == |Mapping(st.slots)|
  {
    TidyCorrect(st);
    GcCorrect(st);
  }

  /**
   * After compaction, keyAt(i) are ascending and valueAt(i) is the value mapped
   * to keyAt(i).
   */
  lemma EntryAt<E>(st: Store<E>, i: nat)
    requires Inv(st) && i < |Tidy(st).slots|
    ensures Ascending(Tidy(st).slots)
    ensures Tidy(st).slots[i].1.Live?
    ensures Tidy(st).slots[i].0 in Mapping(st.slots)
    ensures Mapping(st.slots)[Tidy(st).slots[i].0] == Tidy(st).slots[i].1.value
  {
    TidyCorrect(st);
    MappingAt(Tidy(st).slots, i);
  }

  lemma AscendingInsert<E>(s: seq<Cell<E>>, q: nat, c: Cell<E>)
    requires Ascending(s) && q <= |s|
    requires forall j :: 0 <= j < q ==> s[j].0 < c.0
    requires forall j :: q <= j < |s| ==> c.0 < s[j].0
    ensures Ascending(InsertAt(s, q, c))
  {
    var r := InsertAt(s, q, c);
    forall i, j | 0 <= i < j < |r| ensures r[i].0 < r[j].0 {
      if j < q {
      } else if i > q {
        assert r[i] == s[i - 1] && r[j] == s[j - 1];
      } else if i == q {
        assert r[j] == s[j - 1];
      } else if j == q {
      } else {
        assert r[j] == s[j - 1];
      }
    }
  }

  /** The compaction before an insertion keeps the invariant, the mapping and every key bound. */
  lemma CompactIfFullCorrect<E>(st: Store<E>, key: int)
    requires Inv(st)
    ensures var b := CompactIfFull(st);
      && Inv(b) && b.capacity == st.capacity
      && Mapping(b.slots) == Mapping(st.slots)
      && (Absent(st.slots, key) ==> Absent(b.slots, key))
      && (Below(st.slots, key) ==> Below(b.slots, key))
  {
    GcCorrect(st);
    if Absent(st.slots, key) {
      CompactAbsent(st.slots, key);
    }
    if Below(st.slots, key) {
      CompactBelow(st.slots, key);
    }
  }

  /** A key that a binary search does not find at its insertion point is held by no slot. */
  lemma MissAbsent<E>(s: seq<Cell<E>>, key: int)
    requires Ascending(s)
    requires InsertionPoint(s, key) == |s| || s[InsertionPoint(s, key)].0 != key
    ensures Absent(s, key)
    ensures forall j :: InsertionPoint(s, key) <= j < |s| ==> key < s[j].0
  {
    var p := InsertionPoint(s, key);
    forall j | p <= j < |s| ensures key < s[j].0 {
      if p < j {
        assert s[p].0 < s[j].0;
      }
    }
  }

  /** Any index with only smaller keys before it and no smaller key at it is the insertion point. */
  lemma {:induction false} InsertionPointUnique<E>(s: seq<Cell<E>>, key: int, p: nat)
    requires p <= |s|
    requires forall j :: 0 <= j < p ==> s[j].0 < key
    requires p < |s| ==> key <= s[p].0
    ensures InsertionPoint(s, key) == p
    decreases |s|
  {
    if p > 0 {
      InsertionPointUnique(s[1..], key, p - 1);
    }
  }

  /**
   * get(key, dflt) as the code reads it: the value at the search position when
   * the search finds key there and the slot is not a tombstone, else dflt.
   */
  function GetStore<E>(st: Store<E>, key: int, dflt: E): E {
    var s := st.slots;
    var p := InsertionPoint(s, key);
    if p < |s| && s[p].0 == key && s[p].1.Live? then s[p].1.value else dflt
  }

  /** get(key, dflt) returns the mapped value when there is one, and dflt otherwise. */
  lemma GetStoreCorrect<E>(st: Store<E>, key: int, dflt: E)
    requires Inv(st)
    ensures GetStore(st, key, dflt) == if key in Mapping(st.slots) then Mapping(st.slots)[key] else dflt
  {
    var s := st.slots;
    var p := InsertionPoint(s, key);
    if p < |s| && s[p].0 == key {
      MappingAt(s, p);
    } else {
      MissAbsent(s, key);
      MappingAbsent(s, key);
    }
  }

  /** put's exact hit and tombstone reuse: slot p is (re)written in place. */
  lemma PutInPlaceCorrect<E>(st: Store<E>, key: int, value: E)
    requires Inv(st)
    requires InsertionPoint(st.slots, key) < |st.slots|
    requires var p := InsertionPoint(st.slots, key);
      st.slots[p].0 == key || st.slots[p].1.Deleted?
    ensures var p := InsertionPoint(st.slots, key);
      var r := st.(slots := st.slots[p := (key, Live(value))]);
      Inv(r) && Mapping(r.slots) == Mapping(st.slots)[key := value]
  {
    var s := st.slots;
    var p := InsertionPoint(s, key);
    var c := (key, Live(value));
    assert Absent(s[..p], key);
    assert Absent(s[p + 1..], key) by {
      forall j | p < j < |s| ensures s[j].0 != key {
        assert s[p].0 < s[j].0;
      }
    }
    MappingSet(s, p, c);
    var r := s[p := c];
    forall i, j | 0 <= i < j < |r| ensures r[i].0 < r[j].0 {
      if i == p {
        assert s[p].0 < s[j].0;
      }
    }
  }

  /** Inserting a live cell for a new key at its insertion point keeps the invariant. */
  lemma InsertKeepsInv<E>(b: Store<E>, key: int, value: E, capacity: nat)
    requires Inv(b) && Absent(b.slots, key) && capacity > |b.slots|
    ensures Inv(Store(InsertAt(b.slots, InsertionPoint(b.slots, key), (key, Live(value))), capacity, b.garbage))
  {
    var c := (key, Live(value));
    var q := InsertionPoint(b.slots, key);
    var ins := InsertAt(b.slots, q, c);
    MissAbsent(b.slots, key);
    AscendingInsert(b.slots, q, c);
    assert NoEmpty(ins) by {
      forall j | 0 <= j < |ins| ensures !ins[j].1.Empty? {
        if j > q { assert ins[j] == b.slots[j - 1]; }
      }
    }
    assert !b.garbage ==> AllLive(ins) by {
      if !b.garbage {
        forall j | 0 <= j < |ins| ensures ins[j].1.Live? {
          if j > q { assert ins[j] == b.slots[j - 1]; }
        }
      }
    }
  }

  /** put's general path: optional compaction, growth by one, shift and insert. */
  lemma PutInsertCorrect<E>(st: Store<E>, key: int, value: E)
    requires Inv(st) && Absent(st.slots, key)
    ensures var b := CompactIfFull(st);
      var r := Store(InsertAt(b.slots, InsertionPoint(b.slots, key), (key, Live(value))),
                     if |b.slots| >= b.capacity then |b.slots| + 1 else b.capacity,
                     b.garbage);
      Inv(r) && Mapping(r.slots) == Mapping(st.slots)[key := value]
  {
    var b := CompactIfFull(st);
    CompactIfFullCorrect(st, key);
    var q := InsertionPoint(b.slots, key);
    MappingInsert(b.slots, q, (key, Live(value)));
    InsertKeepsInv(b, key, value, if |b.slots| >= b.capacity then |b.slots| + 1 else b.capacity);
  }

  /** put's path past the two in-place cases: compact when full, grow when still full, insert. */
  lemma PutStoreMiss<E>(st: Store<E>, key: int, value: E)
    requires var p := InsertionPoint(st.slots, key);
      !(p < |st.slots| && (st.slots[p].0 == key || st.slots[p].1.Deleted?))
    ensures var b := CompactIfFull(st);
      PutStore(st, key, value)
      == Store(InsertAt(b.slots, InsertionPoint(b.slots, key), (key, Live(value))),
               if |b.slots| >= b.capacity then |b.slots| + 1 else b.capacity,
               b.garbage)
  {
  }

  /**
   * put(key, value) keeps the invariant and maps key to value, every other
   * key keeping its lookup result.
   */
  lemma PutStoreCorrect<E>(st: Store<E>, key: int, value: E)
    requires Inv(st)
    ensures Inv(PutStore(st, key, value))
    ensures Mapping(PutStore(st, key, value).slots) == Mapping(st.slots)[key := value]
  {
    var s := st.slots;
    var p := InsertionPoint(s, key);
    if p < |s| && (s[p].0 == key || s[p].1.Deleted?) {
      PutInPlaceCorrect(st, key, value);
    } else {
      MissAbsent(s, key);
      PutInsertCorrect(st, key, value);
    }
  }

  /**
   * When the insertion point holds a tombstone, put overwrites that slot's key
   * and value and leaves the other slots, the slot count and the capacity alone.
   */
  lemma PutReusesTombstone<E>(st: Store<E>, key: int, value: E)
    requires Inv(st)
    requires InsertionPoint(st.slots, key) < |st.slots|
    requires st.slots[InsertionPoint(st.slots, key)].0 != key
    requires st.slots[InsertionPoint(st.slots, key)].1.Deleted?
    ensures var r := PutStore(st, key, value); var p := InsertionPoint(st.slots, key);
      && |r.slots| == |st.slots| && r.capacity == st.capacity && r.garbage == st.garbage
      && r.slots[p] == (key, Live(value))
      && forall j :: 0 <= j < |st.slots| && j != p ==> r.slots[j] == st.slots[j]
  {
  }

  /**
   * append(key, value) keeps the invariant and has the same effect on the
   * mapping as put(key, value).
   */
  lemma AppendStoreCorrect<E>(st: Store<E>, key: int, value: E, grown: nat)
    requires Inv(st) && grown > |st.slots|
    ensures Inv(AppendStore(st, key, value, grown))
    ensures Mapping(AppendStore(st, key, value, grown).slots) == Mapping(st.slots)[key := value]
    ensures Mapping(AppendStore(st, key, value, grown).slots) == Mapping(PutStore(st, key, value).slots)
  {
    PutStoreCorrect(st, key, value);
    var s := st.slots;
    if !(|s| != 0 && key <= s[|s| - 1].0) {
      assert Below(s, key) by {
        forall j | 0 <= j < |s| ensures s[j].0 < key {
          if j < |s| - 1 { assert s[j].0 < s[|s| - 1].0; }
        }
      }
      AppendTailCorrect(st, key, value, grown);
    }
  }

  /** append's fast path: a key above every slot key goes to the end. */
  lemma AppendTailCorrect<E>(st: Store<E>, key: int, value: E, grown: nat)
    requires Inv(st) && grown > |st.slots| && Below(st.slots, key)
    ensures var b := CompactIfFull(st);
      var r := Store(b.slots + [(key, Live(value))],
                     if |b.slots| >= b.capacity then grown else b.capacity,
                     b.garbage);
      Inv(r) && Mapping(r.slots) == Mapping(st.slots)[key := value]
  {
    var c := (key, Live(value));
    var b := CompactIfFull(st);
    CompactIfFullCorrect(st, key);
    MappingAbsent(b.slots, key);
    MappingSnoc(b.slots, c);
  }

  /**
   * removeAt(i) tombstones slot i in place, sets the garbage flag when the slot
   * was not yet a tombstone, removes slot i's key and changes no other slot.
   */
  lemma RemoveAtStoreCorrect<E>(st: Store<E>, i: nat)
    requires Inv(st) && i < |st.slots|
    ensures var r := RemoveAtStore(st, i);
      && Inv(r)
      && r.slots == st.slots[i := (st.slots[i].0, Deleted)]
      && r.garbage == (st.garbage || !st.slots[i].1.Deleted?)
      && Mapping(r.slots) == Mapping(st.slots) - {st.slots[i].0}
  {
    var s := st.slots;
    MappingAt(s, i);
    if s[i].1.Deleted? {
      assert s[i := (s[i].0, Deleted)] == s;
    } else {
      assert Absent(s[..i], s[i].0);
      assert Absent(s[i + 1..], s[i].0) by {
        forall j | i < j < |s| ensures s[j].0 != s[i].0 {
          assert s[i].0 < s[j].0;
        }
      }
      MappingTombstone(s, i);
    }
  }

  /**
   * delete(key) keeps the invariant and unmaps key; deleting an absent or
   * already deleted key changes nothing.
   */
  lemma DeleteStoreCorrect<E>(st: Store<E>, key: int)
    requires Inv(st)
    ensures Inv(DeleteStore(st, key))
    ensures Mapping(DeleteStore(st, key).slots) == Mapping(st.slots) - {key}
    ensures key !in Mapping(st.slots) ==> DeleteStore(st, key) == st
    ensures key in Mapping(st.slots) ==> DeleteStore(st, key).garbage
  {
    var s := st.slots;
    var p := InsertionPoint(s, key);
    if p < |s| && s[p].0 == key {
      RemoveAtStoreCorrect(st, p);
      MappingAt(s, p);
    } else {
      MissAbsent(s, key);
      MappingAbsent(s, key);
    }
  }

  /** The keys of the slots in [lo, end). */
  function KeysIn<E>(s: seq<Cell<E>>, lo: nat, end: nat): set<int>
    requires end <= |s|
  {
    set j | lo <= j < end :: s[j].0
  }

  lemma KeysInStep<E>(s: seq<Cell<E>>, s': seq<Cell<E>>, lo: nat, end: nat)
    requires lo < end <= |s| == |s'|
    requires forall j :: lo < j < end ==> s'[j].0 == s[j].0
    ensures KeysIn(s, lo, end) == {s[lo].0} + KeysIn(s', lo + 1, end)
  {
    var keys, keys' := KeysIn(s, lo, end), KeysIn(s', lo + 1, end);
    forall k | k in keys ensures k in {s[lo].0} + keys' {
      var j :| lo <= j < end && s[j].0 == k;
      if j > lo {
        assert s'[j].0 == k;
      }
    }
    forall k | k in keys' ensures k in keys {
      var j :| lo + 1 <= j < end && s'[j].0 == k;
      assert s[j].0 == k;
    }
  }

  /**
   * removeAtRange tombstones exactly the slots in [lo, end) and leaves every
   * other slot, the length and the capacity as they were.
   */
  lemma {:induction false} RemoveRangeStoreSlots<E>(st: Store<E>, lo: nat, end: nat)
    requires Inv(st) && end <= |st.slots|
    ensures var r := RemoveRangeStore(st, lo, end);
      && |r.slots| == |st.slots| && r.capacity == st.capacity
      && (forall j :: 0 <= j < |st.slots| && !(lo <= j < end) ==> r.slots[j] == st.slots[j])
      && (forall j :: lo <= j < end ==> r.slots[j] == (st.slots[j].0, Deleted))
    decreases end - lo
  {
    if lo < end {
      var st' := RemoveAtStore(st, lo);
      RemoveAtStoreCorrect(st, lo);
      RemoveRangeStoreSlots(st', lo + 1, end);
      var r := RemoveRangeStore(st', lo + 1, end);
      assert RemoveRangeStore(st, lo, end) == r;
      assert r.slots[lo] == st'.slots[lo];
    }
  }

  /** removeAtRange keeps the invariant and unmaps exactly the keys of the slots in [lo, end). */
  lemma {:induction false} RemoveRangeStoreCorrect<E>(st: Store<E>, lo: nat, end: nat)
    requires Inv(st) && end <= |st.slots|
    ensures var r := RemoveRangeStore(st, lo, end);
      && Inv(r)
      && Mapping(r.slots) == Mapping(st.slots) - KeysIn(st.slots, lo, end)
    decreases end - lo
  {
    if end <= lo {
      assert KeysIn(st.slots, lo, end) == {};
    } else {
      var st' := RemoveAtStore(st, lo);
      RemoveAtStoreCorrect(st, lo);
      RemoveRangeStoreCorrect(st', lo + 1, end);
      assert RemoveRangeStore(st, lo, end) == RemoveRangeStore(st', lo + 1, end);
      KeysInStep(st.slots, st'.slots, lo, end);
      MinusMinus(Mapping(st.slots), {st.slots[lo].0}, KeysIn(st'.slots, lo + 1, end));
    }
  }

  lemma MinusMinus<E>(m: map<int, E>, a: set<int>, b: set<int>)
    ensures m - a - b == m - (a + b)
  {
  }

  /** Rebinding the value of one slot of a live, ascending prefix. */
  lemma SetLiveCorrect<E>(t: seq<Cell<E>>, i: nat, value: E)
    requires Ascending(t) && AllLive(t) && i < |t|
    ensures Ascending(t[i := (t[i].0, Live(value))]) && AllLive(t[i := (t[i].0, Live(value))])
    ensures Mapping(t[i := (t[i].0, Live(value))]) == Mapping(t)[t[i].0 := value]
  {
    var c := (t[i].0, Live(value));
    var u := t[i := c];
    assert Ascending(u) by {
      forall a, b | 0 <= a < b < |u| ensures u[a].0 < u[b].0 {
        assert u[a].0 == t[a].0 && u[b].0 == t[b].0;
      }
    }
    assert Absent(t[..i], c.0) by {
      forall j | 0 <= j < i ensures t[..i][j].0 != c.0 {
        assert t[j].0 < t[i].0;
      }
    }
    assert Absent(t[i + 1..], c.0) by {
      forall j | i + 1 <= j < |t| ensures t[j].0 != c.0 {
        assert t[i].0 < t[j].0;
      }
    }
    MappingSet(t, i, c);
  }

  /** setValueAt(i, value) rebinds the i-th live key to value. */
  lemma SetValueAtStoreCorrect<E>(st: Store<E>, i: nat, value: E)
    requires Inv(st) && i < |Tidy(st).slots|
    ensures Inv(SetValueAtStore(st, i, value))
    ensures Mapping(SetValueAtStore(st, i, value).slots)
         == Mapping(st.slots)[Tidy(st).slots[i].0 := value]
  {
    TidyCorrect(st);
    SetLiveCorrect(Tidy(st).slots, i, value);
  }

  // ---------------------------------------------------------------------------
  // Concrete behaviour.
  // ---------------------------------------------------------------------------

  /** put(5, x); put(1, y); put(3, z) on an empty array lays the keys out as 1, 3, 5. */
  lemma PutThreeKeysAscending<E>(x: E, y: E, z: E)
    ensures var st := PutStore(PutStore(PutStore(Store([], 10, false), 5, x), 1, y), 3, z);
      st.slots == [(1, Live(y)), (3, Live(z)), (5, Live(x))]
  {
    var s1 := PutStore(Store([], 10, false), 5, x);
    assert s1.slots == [(5, Live(x))];
    var s2 := PutStore(s1, 1, y);
    assert InsertionPoint(s1.slots, 1) == 0;
    assert s2.slots == [(1, Live(y)), (5, Live(x))];
    assert InsertionPoint(s2.slots, 3) == 1;
  }

  /**
   * Then delete(3); put(3, w): the search finds 3 at its tombstoned slot, so put
   * takes the exact-hit branch and revives it in place: 3 maps to w and three
   * slots remain.
   */
  lemma DeleteThenPutRevives<E>(x: E, y: E, z: E, w: E)
    ensures var st := Store([(1, Live(y)), (3, Live(z)), (5, Live(x))], 10, false);
      var st' := PutStore(DeleteStore(st, 3), 3, w);
      && st'.slots == [(1, Live(y)), (3, Live(w)), (5, Live(x))]
      && 3 in Mapping(st'.slots) && Mapping(st'.slots)[3] == w
      && |Tidy(st').slots| == 3
  {
    var st := Store([(1, Live(y)), (3, Live(z)), (5, Live(x))], 10, false);
    assert Inv(st);
    assert InsertionPoint(st.slots, 3) == 1;
    var d := DeleteStore(st, 3);
    assert d.slots == [(1, Live(y)), (3, Deleted), (5, Live(x))];
    DeleteStoreCorrect(st, 3);
    assert InsertionPoint(d.slots, 3) == 1;
    var st' := PutStore(d, 3, w);
    assert st'.slots == [(1, Live(y)), (3, Live(w)), (5, Live(x))];
    PutStoreCorrect(d, 3, w);
    CompactAllLive(st'.slots);
  }
}
