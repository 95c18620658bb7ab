/**
 * SparseArray<E>: an int-keyed map kept in two parallel arrays, keys strictly
 * ascending over the occupied prefix [0, size), with lazy deletion through a
 * tombstone cell and a garbage flag.  The class works on the arrays in place;
 * every method is specified by the function of SparseModel it implements on
 * the abstract state State().
 */
module SparseArrays {
  import opened SparseModel

  /** The bitwise complement ~x of a Java int, as the search encodes a miss. */
  function Complement(x: int): (r: int)
    ensures x >= 0 <==> r < 0
    ensures -r - 1 == x
  {
    -x - 1
  }

  /** min(n, index + count), the end of the range removeAtRange walks. */
  function RangeEnd(n: int, index: int, count: int): (r: int)
    ensures r <= n && r <= index + count
    ensures r == n || r == index + count
  {
    if n <= index + count then n else index + count
  }

  // ---------------------------------------------------------------------------
  // The parallel arrays as one sequence of cells.
  // ---------------------------------------------------------------------------

  /** Pairs up a key sequence and a value-cell sequence of the same length. */
  function Zip<E>(ks: seq<int>, vs: seq<Slot<E>>): (r: seq<Cell<E>>)
    requires |ks| == |vs|
    ensures |r| == |ks|
  {
    seq(|ks|, j requires 0 <= j < |ks| => (ks[j], vs[j]))
  }

  lemma {:induction false} ZipAt<E>(ks: seq<int>, vs: seq<Slot<E>>, j: nat)
    requires |ks| == |vs| && j < |ks|
    ensures Zip(ks, vs)[j] == (ks[j], vs[j])
    decreases |ks|
  {
    if j < |ks| - 1 {
      ZipAt(ks[..|ks| - 1], vs[..|vs| - 1], j);
    }
  }

  lemma ZipAll<E>(ks: seq<int>, vs: seq<Slot<E>>)
    requires |ks| == |vs|
    ensures forall j :: 0 <= j < |ks| ==> Zip(ks, vs)[j] == (ks[j], vs[j])
  {
    forall j | 0 <= j < |ks| ensures Zip(ks, vs)[j] == (ks[j], vs[j]) {
      ZipAt(ks, vs, j);
    }
  }

  /** Zip commutes with updating one position of both sequences. */
  lemma ZipSet<E>(ks: seq<int>, vs: seq<Slot<E>>, i: nat, k: int, v: Slot<E>)
    requires |ks| == |vs| && i < |vs|
    ensures Zip(ks[i := k], vs[i := v]) == Zip(ks, vs)[i := (k, v)]
  {
    ZipAll(ks, vs);
    ZipAll(ks[i := k], vs[i := v]);
  }

  /** Zip commutes with inserting one position into both sequences. */
  lemma ZipInsert<E>(ks: seq<int>, vs: seq<Slot<E>>, i: nat, k: int, v: Slot<E>)
    requires |ks| == |vs| && i <= |ks|
    ensures Zip(InsertAt(ks, i, k), InsertAt(vs, i, v)) == InsertAt(Zip(ks, vs), i, (k, v))
  {
    ZipAll(ks, vs);
    ZipAll(InsertAt(ks, i, k), InsertAt(vs, i, v));
  }

  /**
   * System.arraycopy(src, srcPos, dst, dstPos, len): dst[dstPos..dstPos+len)
   * receives what src[srcPos..srcPos+len) held before the call, also when src
   * and dst are the same array and the ranges overlap.
   */
  method ArrayCopy<T>(src: array<T>, srcPos: nat, dst: array<T>, dstPos: nat, len: nat)
    requires srcPos + len <= src.Length && dstPos + len <= dst.Length
    modifies dst
    ensures dst[..] == old(dst[..dstPos]) + old(src[srcPos..srcPos + len]) + old(dst[dstPos + len..])
  {
    ghost var d0, s0 := dst[..], src[..];
    forall j | dstPos <= j < dstPos + len {
      dst[j] := src[srcPos + j - dstPos];
    }
    assert forall j :: 0 <= j < dst.Length ==>
      dst[j] == if dstPos <= j < dstPos + len then s0[srcPos + j - dstPos] else d0[j];
  }

  /** a.clone() on an array: a fresh array with the same elements. */
  method CopyOf<T>(a: array<T>) returns (b: array<T>)
    ensures fresh(b) && b[..] == a[..]
  {
    b := new T[a.Length](j requires 0 <= j < a.Length reads a => a[j]);
  }

  /**
   * The growth step of put and append on one array: a fresh array of length n
   * whose first a.Length cells are copied from a by System.arraycopy.
   */
  method Enlarge<T>(a: array<T>, n: nat, fill: T) returns (b: array<T>)
    requires a.Length <= n
    ensures fresh(b) && b.Length == n && b[..a.Length] == a[..]
    ensures forall j :: a.Length <= j < n ==> b[j] == fill
  {
    b := new T[n](_ => fill);
    ArrayCopy(a, 0, b, 0, a.Length);
    assert b[..] == a[..] + b[a.Length..];
  }

  /**
   * The insertion step of put on one array: System.arraycopy shifts the cells
   * [i, n) right by one and x is written at i.
   */
  method ShiftInsert<T>(a: array<T>, i: nat, n: nat, x: T)
    requires i <= n < a.Length
    modifies a
    ensures a[..n + 1] == InsertAt(old(a[..n]), i, x)
    ensures a[n + 1..] == old(a[n + 1..])
  {
    ghost var a0 := a[..];
    if n - i != 0 {
      ArrayCopy(a, i, a, i + 1, n - i);
    }
    ghost var a1 := a[..];
    assert forall j :: 0 <= j <= i ==> a1[j] == a0[j];
    assert forall j :: i < j <= n ==> a1[j] == a0[j - 1];
    a[i] := x;
  }

  // ---------------------------------------------------------------------------
  // The compaction loop of gc().
  // ---------------------------------------------------------------------------

  /** The non-tombstone cells among the first i positions, paired with their keys, in order. */
  function LiveCells<E>(ks: seq<int>, vs: seq<Slot<E>>, i: nat): (r: seq<Cell<E>>)
    requires i <= |ks| && i <= |vs|
    ensures |r| <= i
  {
    if i == 0 then [] else LiveCells(ks, vs, i - 1) + if vs[i - 1].Live? then [(ks[i - 1], vs[i - 1])] else []
  }

  lemma {:induction false} LiveCellsCompact<E>(ks: seq<int>, vs: seq<Slot<E>>, i: nat)
    requires i <= |ks| == |vs|
    ensures LiveCells(ks, vs, i) == Compact(Zip(ks, vs)[..i])
  {
    if i > 0 {
      LiveCellsCompact(ks, vs, i - 1);
      var z := Zip(ks, vs);
      assert z[..i][..i - 1] == z[..i - 1];
      ZipAt(ks, vs, i - 1);
    }
  }

  /**
   * Arrays whose first o cells hold the live cells of ks0/vs0 in order hold
   * the compaction of the slots ks0/vs0 describe.
   */
  lemma CompactedPrefix<E>(ks0: seq<int>, vs0: seq<Slot<E>>, ks: seq<int>, vs: seq<Slot<E>>, o: nat)
    requires |ks0| == |vs0| && o <= |ks| && o <= |vs|
    requires o == |LiveCells(ks0, vs0, |ks0|)|
    requires forall j :: 0 <= j < o ==> (ks[j], vs[j]) == LiveCells(ks0, vs0, |ks0|)[j]
    ensures Zip(ks[..o], vs[..o]) == Compact(Zip(ks0, vs0))
  {
    LiveCellsCompact(ks0, vs0, |ks0|);
    assert Zip(ks0, vs0)[..|ks0|] == Zip(ks0, vs0);
    ZipAll(ks[..o], vs[..o]);
  }

  /**
   * The loop of gc(): moves every non-tombstone cell of the prefix [0, n) down
   * over the tombstones, nulling each cell it vacates, and returns how many
   * cells it kept.
   */
  method CompactCells<E>(keys: array<int>, values: array<Slot<E>>, n: nat) returns (o: nat)
    requires n <= keys.Length && n <= values.Length
    requires forall j :: 0 <= j < n ==> !values[j].Empty?
    modifies keys, values
    ensures o <= n
    ensures Zip(keys[..o], values[..o]) == Compact(Zip(old(keys[..n]), old(values[..n])))
    ensures forall j :: o <= j < keys.Length ==> keys[j] == old(keys[j])
    ensures forall j :: n <= j < values.Length ==> values[j] == old(values[j])
    ensures forall j :: o <= j < n ==> values[j] == if old(values[j]).Deleted? then Deleted else Empty
  {
    ghost var ks0, vs0 := keys[..n], values[..n];
    ghost var k0, v0 := keys[..], values[..];
    ghost var out: seq<Cell<E>> := [];
    o := 0;
    var i := 0;
    while i < n
      invariant 0 <= o <= i <= n
      invariant out == LiveCells(ks0, vs0, i) && |out| == o
      invariant forall j :: 0 <= j < o ==> keys[j] == out[j].0
      invariant forall j :: 0 <= j < o ==> values[j] == out[j].1
      invariant forall j :: o <= j < keys.Length ==> keys[j] == k0[j]
      invariant forall j :: i <= j < values.Length ==> values[j] == v0[j]
      invariant forall j :: o <= j < i ==> values[j] == if v0[j].Deleted? then Deleted else Empty
    {
      if !values[i].Deleted? {
        MoveDown(keys, values, i, o);
        out := out + [(ks0[i], vs0[i])];
        o := o + 1;
      }
      i := i + 1;
    }
    CompactedPrefix(ks0, vs0, keys[..], values[..], o);
    assert keys[..][..o] == keys[..o] && values[..][..o] == values[..o];
  }

  /**
   * One kept cell of gc(): unless it already sits at o, the pair at i moves
   * down to o and the value cell at i is nulled.
   */
  method MoveDown<E>(keys: array<int>, values: array<Slot<E>>, i: nat, o: nat)
    requires o <= i < keys.Length && i < values.Length
    modifies keys, values
    ensures forall j :: 0 <= j < keys.Length ==> keys[j] == if j == o then old(keys[i]) else old(keys[j])
    ensures forall j :: 0 <= j < values.Length ==>
      values[j] == if j == o then old(values[i]) else if j == i then Empty else old(values[j])
  {
    if i != o {
      keys[o] := keys[i];
      values[o] := values[i];
      values[i] := Empty;
    }
  }

  /** The loop of indexOfValue: the first index below n whose cell holds value, or -1. */
  method FindValue<E(==)>(values: array<Slot<E>>, n: nat, value: E) returns (r: int)
    requires n <= values.Length
    ensures -1 <= r < n
    ensures 0 <= r ==> values[r] == Live(value)
    ensures forall j :: 0 <= j < n && (r < 0 || j < r) ==> values[j] != Live(value)
  {
    var i := 0;
    while i < n
      invariant 0 <= i <= n
      invariant forall j :: 0 <= j < i ==> values[j] != Live(value)
    {
      if values[i] == Live(value) {
        return i;
      }
      i := i + 1;
    }
    return -1;
  }

  // ---------------------------------------------------------------------------
  // Binary search.
  // ---------------------------------------------------------------------------

  /**
   * The binary search over a[0..n): the index of key when some slot holds it,
   * otherwise the complement of the insertion point, before which every key is
   * smaller and from which every key is larger.
   */
  method BinarySearch(a: array<int>, n: nat, key: int) returns (r: int)
    requires n <= a.Length
    requires forall i, j :: 0 <= i < j < n ==> a[i] <= a[j]
    ensures 0 <= r ==> r < n && a[r] == key
    ensures r < 0 ==> Complement(r) <= n
    ensures r < 0 ==> forall j :: 0 <= j < Complement(r) ==> a[j] < key
    ensures r < 0 ==> forall j :: Complement(r) <= j < n ==> key < a[j]
  {
    var lo, hi := 0, n - 1;
    while lo <= hi
      invariant 0 <= lo <= hi + 1 <= n
      invariant forall j :: 0 <= j < lo ==> a[j] < key
      invariant forall j :: hi < j < n ==> key < a[j]
      decreases hi - lo
    {
      var mid := (lo + hi) / 2;
      if a[mid] < key {
        lo := mid + 1;
      } else if key < a[mid] {
        hi := mid - 1;
      } else {
        return mid;
      }
    }
    return Complement(lo);
  }

  // ---------------------------------------------------------------------------
  // The class.
  // ---------------------------------------------------------------------------

  class SparseArray<E(==)> {
    var keys: array<int>
    var values: array<Slot<E>>
    var size: nat
    var garbage: bool

    /** The occupied prefix as (key, cell) pairs. */
    ghost function Slots(): (r: seq<Cell<E>>)
      reads this, keys, values
      requires size <= keys.Length && size <= values.Length
      ensures |r| == size
    {
      Zip(keys[..size], values[..size])
    }

    /** The abstract state: the prefix, the array length and the garbage flag. */
    ghost function State(): Store<E>
      reads this, keys, values
      requires size <= keys.Length && size <= values.Length
    {
      Store(Slots(), keys.Length, garbage)
    }

    /** Parallel arrays of one length, and the slot invariant on the prefix. */
    ghost predicate Valid()
      reads this, keys, values
    {
      && keys.Length == values.Length
      && size <= keys.Length
      && Inv(State())
    }

    /** The key-to-value mapping the array holds. */
    ghost function Contents(): map<int, E>
      reads this, keys, values
      requires size <= keys.Length && size <= values.Length
    {
      Mapping(Slots())
    }

    /** The live entries in index order, as size(), keyAt() and valueAt() see them. */
    ghost function Entries(): seq<Cell<E>>
      reads this, keys, values
      requires size <= keys.Length && size <= values.Length
    {
      Compact(Slots())
    }

    /** Slot j of the prefix is the pair of array cells at j. */
    lemma SlotsMatch()
      requires size <= keys.Length && size <= values.Length
      ensures forall j :: 0 <= j < size ==> Slots()[j] == (keys[j], values[j])
    {
      ZipAll(keys[..size], values[..size]);
    }

    /** An ascending prefix is sorted in the sense the binary search asks for. */
    lemma SortedPrefix()
      requires Valid()
      ensures forall i, j :: 0 <= i < j < size ==> keys[i] <= keys[j]
    {
      SlotsMatch();
      forall i, j | 0 <= i < j < size ensures keys[i] <= keys[j] {
        assert Slots()[i].0 < Slots()[j].0;
      }
    }

    /** No cell of the prefix is null. */
    lemma NoNullInPrefix()
      requires Valid()
      ensures forall j :: 0 <= j < size ==> !values[j].Empty?
    {
      SlotsMatch();
      forall j | 0 <= j < size ensures !values[j].Empty? {
        assert !Slots()[j].1.Empty?;
      }
    }

    /**
     * Turns a search result r on the prefix into a statement about the abstract
     * slots: a hit is the insertion point and holds key, a miss encodes the
     * insertion point, and no slot holds key.
     */
    lemma SearchResult(key: int, r: int)
      requires Valid()
      requires 0 <= r ==> r < size && keys[r] == key
      requires r < 0 ==> Complement(r) <= size
      requires r < 0 ==> forall j :: 0 <= j < Complement(r) ==> keys[j] < key
      requires r < 0 ==> forall j :: Complement(r) <= j < size ==> key < keys[j]
      ensures 0 <= r ==> InsertionPoint(Slots(), key) == r && Slots()[r] == (key, values[r])
      ensures r < 0 ==> InsertionPoint(Slots(), key) == Complement(r)
      ensures r < 0 ==> Absent(Slots(), key)
      ensures r < 0 && Complement(r) < size ==> Slots()[Complement(r)] == (keys[Complement(r)], values[Complement(r)])
    {
      var s := Slots();
      SlotsMatch();
      if 0 <= r {
        forall j | 0 <= j < r ensures s[j].0 < key {
          assert s[j].0 < s[r].0;
        }
        InsertionPointUnique(s, key, r);
      } else {
        InsertionPointUnique(s, key, Complement(r));
        forall j | 0 <= j < |s| ensures s[j].0 != key {
          if j < Complement(r) { assert keys[j] < key; } else { assert key < keys[j]; }
        }
      }
    }

    /**
     * SparseArray(initialCapacity): empty arrays for capacity 0, otherwise
     * arrays of the length ideal that the ideal-size rounding returns for
     * initialCapacity.
     */
    constructor (initialCapacity: nat, ideal: nat)
      requires initialCapacity == 0 || initialCapacity <= ideal
      ensures Valid() && fresh(keys) && fresh(values)
      ensures State() == Store([], if initialCapacity == 0 then 0 else ideal, false)
      ensures Contents() == map[]
    {
      var n := if initialCapacity == 0 then 0 else ideal;
      keys := new int[n](_ => 0);
      values := new Slot<E>[n](_ => Empty);
      size := 0;
      garbage := false;
    }

    /** SparseArray(): the capacity-10 constructor. */
    constructor Default(ideal: nat)
      requires 10 <= ideal
      ensures Valid() && fresh(keys) && fresh(values)
      ensures State() == Store([], ideal, false)
      ensures Contents() == map[]
    {
      keys := new int[ideal](_ => 0);
      values := new Slot<E>[ideal](_ => Empty);
      size := 0;
      garbage := false;
    }

    /** clone(): a new SparseArray over fresh copies of both arrays. */
    method Clone() returns (c: SparseArray<E>)
      requires Valid()
      ensures fresh(c) && fresh(c.keys) && fresh(c.values)
      ensures c.keys[..] == keys[..] && c.values[..] == values[..]
      ensures c.size == size && c.garbage == garbage
      ensures c.Valid() && c.State() == State()
    {
      c := new SparseArray(0, 0);
      c.keys := CopyOf(keys);
      c.values := CopyOf(values);
      c.size := size;
      c.garbage := garbage;
      assert c.keys[..size] == keys[..size] && c.values[..size] == values[..size];
    }

    /**
     * get(key, valueIfKeyNotFound): the value mapped to key, or the default when
     * key is absent or tombstoned.
     */
    method Get(key: int, valueIfKeyNotFound: E) returns (r: E)
      requires Valid()
      ensures r == GetStore(State(), key, valueIfKeyNotFound)
      ensures r == if key in Contents() then Contents()[key] else valueIfKeyNotFound
    {
      SortedPrefix();
      var i := BinarySearch(keys, size, key);
      SearchResult(key, i);
      GetStoreCorrect(State(), key, valueIfKeyNotFound);
      if i < 0 || values[i].Deleted? {
        r := valueIfKeyNotFound;
      } else {
        NoNullInPrefix();
        r := values[i].value;
      }
    }

    /**
     * removeAt(index): tombstones the cell at index unless it already is one.  An
     * index past the occupied prefix only touches a cell outside the state.
     */
    method RemoveAt(index: nat)
      requires Valid() && index < keys.Length
      modifies this, values
      ensures Valid() && keys == old(keys) && values == old(values)
      ensures index < old(size) ==> State() == RemoveAtStore(old(State()), index)
      ensures old(size) <= index ==>
        State() == old(State()).(garbage := old(garbage) || !old(values[index]).Deleted?)
      ensures values[index] == Deleted
      ensures forall j :: 0 <= j < values.Length && j != index ==> values[j] == old(values[j])
    {
      ghost var st := State();
      ghost var ks, vs := keys[..size], values[..size];
      if index < size {
        RemoveAtStoreCorrect(st, index);
        SlotsMatch();
        if !values[index].Deleted? {
          values[index] := Deleted;
          garbage := true;
        }
        assert keys[..size] == ks[index := ks[index]];
        assert values[..size] == vs[index := Deleted];
        ZipSet(ks, vs, index, ks[index], Deleted);
        assert State() == RemoveAtStore(st, index);
      } else {
        if !values[index].Deleted? {
          values[index] := Deleted;
          garbage := true;
        }
        assert keys[..size] == ks;
        assert values[..size] == vs;
      }
    }

    /** delete(key): tombstones key's slot unless it is absent or already a tombstone. */
    method Delete(key: int)
      requires Valid()
      modifies this, values
      ensures Valid() && keys == old(keys) && values == old(values)
      ensures State() == DeleteStore(old(State()), key)
      ensures Contents() == old(Contents()) - {key}
      ensures forall j :: size <= j < values.Length ==> values[j] == old(values[j])
    {
      ghost var st := State();
      DeleteStoreCorrect(st, key);
      SortedPrefix();
      var i := BinarySearch(keys, size, key);
      SearchResult(key, i);
      if i >= 0 {
        RemoveAt(i);
      }
    }

    /** remove(key), an alias for delete(key). */
    method Remove(key: int)
      requires Valid()
      modifies this, values
      ensures Valid() && keys == old(keys) && values == old(values)
      ensures State() == DeleteStore(old(State()), key)
      ensures Contents() == old(Contents()) - {key}
      ensures forall j :: size <= j < values.Length ==> values[j] == old(values[j])
    {
      Delete(key);
    }

    /**
     * removeAtRange(index, count): removeAt(i) for every i from index up to
     * min(size, index + count).
     */
    method RemoveAtRange(index: int, count: int)
      requires Valid()
      requires 0 <= index || count <= 0
      modifies this, values
      ensures Valid() && keys == old(keys) && values == old(values)
      ensures State() ==
        if 0 <= index < RangeEnd(old(size), index, count)
        then RemoveRangeStore(old(State()), index, RangeEnd(old(size), index, count))
        else old(State())
      ensures forall j :: size <= j < values.Length ==> values[j] == old(values[j])
    {
      ghost var st := State();
      var end := RangeEnd(size, index, count);
      var i := index;
      while i < end
        invariant Valid() && keys == old(keys) && values == old(values) && size == old(size)
        invariant forall j :: size <= j < values.Length ==> values[j] == old(values[j])
        invariant index < end ==> 0 <= index <= i <= end
        invariant index < end ==> RemoveRangeStore(State(), i, end) == RemoveRangeStore(st, index, end)
        invariant index >= end ==> State() == st
        decreases end - i
      {
        RemoveAt(i);
        i := i + 1;
      }
    }

    /**
     * gc(): moves every live slot down over the tombstones, keeping order and
     * pairing, nulls the cells it vacates, and sets size to the live count.
     */
    method Gc()
      requires Valid()
      modifies this, keys, values
      ensures Valid() && keys == old(keys) && values == old(values)
      ensures State() == SparseModel.Gc(old(State()))
      ensures Contents() == old(Contents())
      ensures size == |Contents()|
      ensures forall j :: size <= j < keys.Length ==> keys[j] == old(keys[j])
      ensures forall j :: old(size) <= j < values.Length ==> values[j] == old(values[j])
      ensures forall j :: size <= j < old(size) ==>
        values[j] == if old(values[j]).Deleted? then Deleted else Empty
    {
      ghost var st := State();
      ghost var ks0, vs0 := keys[..size], values[..size];
      GcCorrect(st);
      NoNullInPrefix();
      var o := CompactCells(keys, values, size);
      ghost var z := Zip(keys[..o], values[..o]);
      assert z == Compact(st.slots);
      garbage := false;
      size := o;
      assert Slots() == z;
    }

    /**
     * The growth step of put and append: fresh arrays of length n holding the
     * old contents, the rest null.
     */
    method Grow(n: nat)
      requires Valid() && keys.Length < n
      modifies this
      ensures Valid() && fresh(keys) && fresh(values) && keys.Length == n
      ensures Slots() == old(Slots()) && size == old(size) && garbage == old(garbage)
    {
      ghost var ks, vs := keys[..size], values[..size];
      assert ks == keys[..][..size] && vs == values[..][..size];
      var nkeys := Enlarge(keys, n, 0);
      var nvalues := Enlarge(values, n, Empty);
      keys, values := nkeys, nvalues;
      assert keys[..size] == ks && values[..size] == vs;
    }

    /** Writes Live(value) into the value cell at i, inside the occupied prefix. */
    method SetValue(i: nat, value: E)
      requires size <= keys.Length && size <= values.Length && i < size
      modifies values
      ensures Slots() == old(Slots())[i := (keys[i], Live(value))]
    {
      ghost var ks, vs := keys[..size], values[..size];
      values[i] := Live(value);
      assert keys[..size] == ks;
      assert values[..size] == vs[i := Live(value)];
    }

    /** Writes key and Live(value) into the cells at i, inside the occupied prefix. */
    method SetCell(i: nat, key: int, value: E)
      requires size <= keys.Length && size <= values.Length && i < size
      modifies keys, values
      ensures Slots() == old(Slots())[i := (key, Live(value))]
    {
      ghost var ks, vs := keys[..size], values[..size];
      keys[i] := key;
      values[i] := Live(value);
      assert keys[..size] == ks[i := key];
      assert values[..size] == vs[i := Live(value)];
      ZipSet(ks, vs, i, key, Live(value));
    }

    /**
     * The tail of put: shifts the cells [i, size) right by one with
     * System.arraycopy, writes key and Live(value) at i and counts the new slot.
     */
    method InsertCell(i: nat, key: int, value: E)
      requires keys.Length == values.Length && i <= size < keys.Length
      modifies this, keys, values
      ensures keys == old(keys) && values == old(values) && garbage == old(garbage)
      ensures size == old(size) + 1
      ensures Slots() == InsertAt(old(Slots()), i, (key, Live(value)))
    {
      ghost var ks, vs := keys[..size], values[..size];
      ShiftInsert(keys, i, size, key);
      ShiftInsert(values, i, size, Live(value));
      size := size + 1;
      ZipInsert(ks, vs, i, key, Live(value));
    }

    /**
     * put(key, value): replaces in place on an exact hit, reuses a tombstone at
     * the insertion point, and otherwise hands over to PutMiss.
     */
    method Put(key: int, value: E)
      requires Valid()
      modifies this, keys, values
      ensures Valid()
      ensures State() == PutStore(old(State()), key, value)
      ensures Contents() == old(Contents())[key := value]
      ensures (keys == old(keys) || fresh(keys)) && (values == old(values) || fresh(values))
    {
      ghost var st := State();
      SortedPrefix();
      var i := BinarySearch(keys, size, key);
      SearchResult(key, i);
      if i >= 0 {
        SetValue(i, value);
      } else {
        i := Complement(i);
        if i < size && values[i].Deleted? {
          SetCell(i, key, value);
        } else {
          PutMiss(i, key, value);
        }
      }
      PutStoreCorrect(st, key, value);
    }

    /**
     * The rest of put once the insertion point i holds neither key nor a
     * tombstone: compact when full with garbage, grow by one slot when still
     * full, then shift right and insert.
     */
    method PutMiss(i: nat, key: int, value: E)
      requires Valid() && i == InsertionPoint(Slots(), key)
      requires Absent(Slots(), key)
      requires !(i < size && Slots()[i].1.Deleted?)
      modifies this, keys, values
      ensures Valid()
      ensures State() == PutStore(old(State()), key, value)
      ensures (keys == old(keys) || fresh(keys)) && (values == old(values) || fresh(values))
    {
      ghost var st := State();
      assert Inv(PutStore(st, key, value)) by {
        PutStoreCorrect(st, key, value);
      }
      PutStoreMiss(st, key, value);
      var j := CompactBeforeInsert(i, key);
      assert keys == old(keys) && values == old(values);
      ghost var b := State();
      ghost var full := size >= keys.Length;
      GrowInsert(j, key, value);
      if full {
        assert fresh(keys) && fresh(values);
      } else {
        assert keys == old(keys) && values == old(values);
      }
      assert State() == Store(InsertAt(b.slots, j, (key, Live(value))), keys.Length, b.garbage);
    }

    /**
     * The end of put's miss path: grows the arrays by one slot when they are
     * full, then shifts right and inserts at j.
     */
    method GrowInsert(j: nat, key: int, value: E)
      requires Valid() && j <= size
      modifies this, keys, values
      ensures keys.Length == values.Length && size <= keys.Length
      ensures keys.Length == if old(size) >= old(keys.Length) then old(size) + 1 else old(keys.Length)
      ensures State() == Store(InsertAt(old(Slots()), j, (key, Live(value))), keys.Length, old(garbage))
      ensures old(size) >= old(keys.Length) ==> fresh(keys) && fresh(values)
      ensures old(size) < old(keys.Length) ==> keys == old(keys) && values == old(values)
    {
      if size >= keys.Length {
        Grow(size + 1);
      }
      InsertCell(j, key, value);
    }

    /**
     * The compaction put runs when the arrays are full and garbage is set,
     * followed by a second search: returns the insertion point of key in the
     * compacted prefix (i itself when nothing was compacted).
     */
    method CompactBeforeInsert(i: nat, key: int) returns (j: nat)
      requires Valid() && i == InsertionPoint(Slots(), key)
      requires Absent(Slots(), key)
      modifies this, keys, values
      ensures Valid() && keys == old(keys) && values == old(values)
      ensures State() == CompactIfFull(old(State()))
      ensures Contents() == old(Contents())
      ensures j == InsertionPoint(Slots(), key)
    {
      ghost var st := State();
      CompactIfFullCorrect(st, key);
      j := i;
      if garbage && size >= keys.Length {
        Gc();
        SortedPrefix();
        var r := BinarySearch(keys, size, key);
        SearchResult(key, r);
        assert r < 0;
        j := Complement(r);
      }
    }
  
    /**
     * The compaction that size, keyAt, valueAt, setValueAt, indexOfKey and
     * indexOfValue run first when garbage is set.
     */
    method Tidy()
      requires Valid()
      modifies this, keys, values
      ensures Valid() && keys == old(keys) && values == old(values)
      ensures State() == SparseModel.Tidy(old(State()))
      ensures !garbage && AllLive(Slots())
      ensures Slots() == old(Entries()) && Entries() == Slots()
      ensures Contents() == old(Contents())
    {
      ghost var st := State();
      TidyCorrect(st);
      if garbage {
        Gc();
      }
      CompactAllLive(Slots());
    }

    /** size(): the number of live mappings, after compacting. */
    method Size() returns (r: nat)
      requires Valid()
      modifies this, keys, values
      ensures Valid() && keys == old(keys) && values == old(values)
      ensures State() == SparseModel.Tidy(old(State()))
      ensures r == |old(Contents())| && r == |old(Entries())|
    {
      ghost var st := State();
      SizeIsLiveCount(st);
      Tidy();
      r := size;
    }

    /**
     * keyAt(index): the key of the index-th live mapping, after compacting;
     * the keys of the live mappings are ascending.
     */
    method KeyAt(index: nat) returns (r: int)
      requires Valid() && index < |Entries()|
      modifies this, keys, values
      ensures Valid() && keys == old(keys) && values == old(values)
      ensures State() == SparseModel.Tidy(old(State()))
      ensures r == old(Entries())[index].0 && r in old(Contents())
      ensures Ascending(Entries())
    {
      ghost var st := State();
      EntryAt(st, index);
      Tidy();
      SlotsMatch();
      r := keys[index];
    }

    /** valueAt(index): the value of the index-th live mapping, after compacting. */
    method ValueAt(index: nat) returns (r: E)
      requires Valid() && index < |Entries()|
      modifies this, keys, values
      ensures Valid() && keys == old(keys) && values == old(values)
      ensures State() == SparseModel.Tidy(old(State()))
      ensures old(Entries())[index].1 == Live(r)
      ensures old(Entries())[index].0 in old(Contents())
      ensures old(Contents())[old(Entries())[index].0] == r
    {
      ghost var st := State();
      EntryAt(st, index);
      Tidy();
      SlotsMatch();
      r := values[index].value;
    }

    /** setValueAt(index, value): rebinds the key of the index-th live mapping to value. */
    method SetValueAt(index: nat, value: E)
      requires Valid() && index < |Entries()|
      modifies this, keys, values
      ensures Valid() && keys == old(keys) && values == old(values)
      ensures State() == SetValueAtStore(old(State()), index, value)
      ensures Contents() == old(Contents())[old(Entries())[index].0 := value]
    {
      ghost var st := State();
      SetValueAtStoreCorrect(st, index, value);
      Tidy();
      SlotsMatch();
      SetValue(index, value);
    }

    /**
     * indexOfKey(key): after compacting, the index of key among the live
     * mappings, or the complement of its insertion point when key is unmapped.
     */
    method IndexOfKey(key: int) returns (r: int)
      requires Valid()
      modifies this, keys, values
      ensures Valid() && keys == old(keys) && values == old(values)
      ensures State() == SparseModel.Tidy(old(State()))
      ensures 0 <= r <==> key in old(Contents())
      ensures 0 <= r ==> r < |Entries()| && Entries()[r].0 == key
      ensures r < 0 ==> Complement(r) == InsertionPoint(Entries(), key)
    {
      Tidy();
      SortedPrefix();
      r := BinarySearch(keys, size, key);
      SearchResult(key, r);
      if 0 <= r {
        MappingAt(Slots(), r);
      } else {
        MappingAbsent(Slots(), key);
      }
    }

    /**
     * indexOfValue(value): after compacting, the first index whose live mapping
     * holds value, or -1.
     */
    method IndexOfValue(value: E) returns (r: int)
      requires Valid()
      modifies this, keys, values
      ensures Valid() && keys == old(keys) && values == old(values)
      ensures State() == SparseModel.Tidy(old(State()))
      ensures -1 <= r < |old(Entries())|
      ensures 0 <= r ==> old(Entries())[r].1 == Live(value)
      ensures forall j :: 0 <= j < |old(Entries())| && (r < 0 || j < r) ==> old(Entries())[j].1 != Live(value)
    {
      Tidy();
      r := FindValue(values, size, value);
      SlotsMatch();
    }

    /** clear(): nulls the value cells of the prefix and empties the array. */
    method Clear()
      requires Valid()
      modifies this, values
      ensures Valid() && keys == old(keys) && values == old(values)
      ensures State() == Store([], old(keys.Length), false)
      ensures Contents() == map[]
      ensures forall j :: 0 <= j < old(size) ==> values[j] == Empty
      ensures forall j :: old(size) <= j < values.Length ==> values[j] == old(values[j])
    {
      var n := size;
      var i := 0;
      while i < n
        invariant keys == old(keys) && values == old(values) && size == old(size)
        invariant 0 <= i <= n == size <= values.Length
        invariant forall j :: 0 <= j < i ==> values[j] == Empty
        invariant forall j :: i <= j < values.Length ==> values[j] == old(values[j])
      {
        values[i] := Empty;
        i := i + 1;
      }
      size := 0;
      garbage := false;
    }

    /** Writes key and Live(value) just past the occupied prefix and counts the new slot. */
    method AppendCell(key: int, value: E)
      requires keys.Length == values.Length && size < keys.Length
      modifies this, keys, values
      ensures keys == old(keys) && values == old(values) && garbage == old(garbage)
      ensures size == old(size) + 1
      ensures Slots() == old(Slots()) + [(key, Live(value))]
    {
      ghost var ks, vs := keys[..size], values[..size];
      var pos := size;
      keys[pos] := key;
      values[pos] := Live(value);
      size := pos + 1;
      assert keys[..size] == ks + [key];
      assert values[..size] == vs + [Live(value)];
    }

    /**
     * append(key, value): put for a key not above the last slot key, and
     * otherwise the fast path AppendTail.
     */
    method Append(key: int, value: E, ideal: nat)
      requires Valid() && ideal > size
      modifies this, keys, values
      ensures Valid()
      ensures State() == AppendStore(old(State()), key, value, ideal)
      ensures (keys == old(keys) || fresh(keys)) && (values == old(values) || fresh(values))
    {
      SlotsMatch();
      if size != 0 && key <= keys[size - 1] {
        Put(key, value);
        return;
      }
      AppendTail(key, value, ideal);
    }

    /**
     * append's fast path for a key above every slot key: compact when full
     * with garbage, grow to ideal (the ideal-size rounding of the needed
     * length) when still full, and write at the end.
     */
    method AppendTail(key: int, value: E, ideal: nat)
      requires Valid() && ideal > size
      requires !(size != 0 && key <= Slots()[size - 1].0)
      modifies this, keys, values
      ensures Valid()
      ensures State() == AppendStore(old(State()), key, value, ideal)
      ensures (keys == old(keys) || fresh(keys)) && (values == old(values) || fresh(values))
    {
      ghost var st := State();
      AppendStoreCorrect(st, key, value, ideal);
      CompactIfFullCorrect(st, key);
      if garbage && size >= keys.Length {
        Gc();
      }
      ghost var b := State();
      assert b == CompactIfFull(st);
      if size >= keys.Length {
        Grow(ideal);
      }
      ghost var cap := keys.Length;
      assert cap == if |b.slots| >= b.capacity then ideal else b.capacity;
      AppendCell(key, value);
      assert State() == Store(b.slots + [(key, Live(value))], cap, b.garbage);
    }
  }
}
