/**
  The slot arena `UsizeMap<T>` of src/usizemap.rs: a dense vector of optional
  slots, a LIFO list of reusable (free) indices and a count of occupied slots.
  Keys are the slot indices the map hands out; `usize` is modelled as `nat`.
 */
module UsizeMaps {
  import opened Outcomes

  datatype UsizeMap<T> = UsizeMap(data: seq<Option<T>>, empty: seq<nat>, count: nat)

  /** Number of occupied (`Some`) slots in a slot vector. */
  function Occupied<T>(data: seq<Option<T>>): nat
  {
    if |data| == 0 then 0
    else Occupied(data[..|data| - 1]) + (if data[|data| - 1].Some? then 1 else 0)
  }

  /**
    The arena invariant kept by every public operation: each free index is in
    bounds, addresses an empty slot and is listed once; every empty slot is
    listed; and the live count is the number of occupied slots.
   */
  ghost predicate Valid<T>(m: UsizeMap<T>)
  {
    && (forall j :: 0 <= j < |m.empty| ==> m.empty[j] < |m.data| && m.data[m.empty[j]].None?)
    && (forall i, j :: 0 <= i < j < |m.empty| ==> m.empty[i] != m.empty[j])
    && (forall k :: 0 <= k < |m.data| && m.data[k].None? ==> k in m.empty)
    && m.count == Occupied(m.data)
  }

  function New<T>(): (m: UsizeMap<T>)
    ensures Valid(m)
    ensures Len(m) == 0 && m.empty == []
    ensures forall k :: !ContainsKey(m, k)
  {
    UsizeMap([], [], 0)
  }

  predicate ContainsKey<T>(m: UsizeMap<T>, key: nat)
  {
    key < |m.data| && m.data[key].Some?
  }

  /** `get` and `get_mut`: the value stored under `key`, if any. */
  function Get<T>(m: UsizeMap<T>, key: nat): (r: Option<T>)
    ensures r.Some? <==> ContainsKey(m, key)
  {
    if key < |m.data| then m.data[key] else None
  }

  /** The `Index` impl: panics unless `key` addresses an occupied slot. */
  function Index<T>(m: UsizeMap<T>, key: nat): (r: T)
    requires ContainsKey(m, key)
    ensures Get(m, key) == Some(r)
  {
    m.data[key].value
  }

  function Len<T>(m: UsizeMap<T>): nat
  {
    m.count
  }

  function Last(s: seq<nat>): nat
    requires |s| > 0
  {
    s[|s| - 1]
  }

  /**
    What `insert` asserts before reusing a slot: the most recently freed index,
    if it is in bounds, addresses an empty slot (otherwise the source panics).
   */
  predicate CanInsert<T>(m: UsizeMap<T>)
  {
    |m.empty| > 0 ==> (Last(m.empty) >= |m.data| || m.data[Last(m.empty)].None?)
  }

  /**
    `insert`: pops the most recently freed index (LIFO) and reuses it,
    otherwise appends a slot; returns the new map and the key.
   */
  function Insert<T>(m: UsizeMap<T>, element: T): (r: (UsizeMap<T>, nat))
    requires CanInsert(m)
    ensures Get(r.0, r.1) == Some(element)
    ensures r.0.count == m.count + 1
    ensures |m.empty| > 0 ==> r.1 == Last(m.empty) && r.0.empty == m.empty[..|m.empty| - 1]
    ensures |m.empty| == 0 ==> r.1 == |m.data| && r.0.empty == []
    ensures forall k :: k != r.1 ==> Get(r.0, k) == Get(m, k)
  {
    if |m.empty| > 0 then
      var index := Last(m.empty);
      var rest := m.empty[..|m.empty| - 1];
      if index < |m.data| then
        (UsizeMap(m.data[index := Some(element)], rest, m.count + 1), index)
      else
        // defensive branch of the source: grow the vector up to `index`
        var grown := m.data + seq(index + 1 - |m.data|, _ => None);
        (UsizeMap(grown[index := Some(element)], rest, m.count + 1), index)
    else
      (UsizeMap(m.data + [Some(element)], [], m.count + 1), |m.data|)
  }

  /**
    `remove`: takes the value out of an occupied slot and pushes the key onto
    the free list; an empty or out-of-range key changes nothing. The source
    decrements `count` (a `usize`), so a live slot must be counted.
   */
  function Remove<T>(m: UsizeMap<T>, key: nat): (r: (UsizeMap<T>, Option<T>))
    requires ContainsKey(m, key) ==> m.count > 0
    ensures r.1 == Get(m, key)
    ensures !ContainsKey(r.0, key)
    ensures forall k :: k != key ==> Get(r.0, k) == Get(m, k)
    ensures ContainsKey(m, key) ==> r.0.count == m.count - 1 && r.0.empty == m.empty + [key]
    ensures !ContainsKey(m, key) ==> r.0 == m
  {
    if ContainsKey(m, key) then
      (UsizeMap(m.data[key := None], m.empty + [key], m.count - 1), m.data[key])
    else
      (m, None)
  }

  /** `get_mut` followed by a write through the reference. */
  function Update<T>(m: UsizeMap<T>, key: nat, element: T): (r: UsizeMap<T>)
    requires ContainsKey(m, key)
    ensures Get(r, key) == Some(element)
    ensures forall k :: k != key ==> Get(r, k) == Get(m, k)
    ensures r.empty == m.empty && r.count == m.count && |r.data| == |m.data|
  {
    UsizeMap(m.data[key := Some(element)], m.empty, m.count)
  }

  /** `clear`: drops every slot and every free index. */
  function Clear<T>(m: UsizeMap<T>): (r: UsizeMap<T>)
    ensures Valid(r)
    ensures Len(r) == 0 && r.empty == []
    ensures forall k :: !ContainsKey(r, k)
  {
    UsizeMap([], [], 0)
  }

  /** `keys`: the indices of the occupied slots, in increasing order. */
  method Keys<T>(m: UsizeMap<T>) returns (keys: seq<nat>)
    ensures forall k: nat :: k in keys <==> ContainsKey(m, k)
    ensures forall i, j :: 0 <= i < j < |keys| ==> keys[i] < keys[j]
    ensures |keys| == Occupied(m.data)
  {
    keys := [];
    var i := 0;
    while i < |m.data|
      invariant 0 <= i <= |m.data|
      invariant forall k: nat :: k in keys <==> k < i && ContainsKey(m, k)
      invariant forall a, b :: 0 <= a < b < |keys| ==> keys[a] < keys[b]
      invariant forall a :: 0 <= a < |keys| ==> keys[a] < i
      invariant |keys| == Occupied(m.data[..i])
    {
      assert m.data[..i + 1][..i] == m.data[..i];
      if m.data[i].Some? {
        keys := keys + [i];
      }
      i := i + 1;
    }
    assert m.data[..|m.data|] == m.data;
  }

  // ----- Lemmas -----

  /** Writing one slot changes the occupied count by the difference it makes. */
  lemma {:induction false} OccupiedUpdate<T>(data: seq<Option<T>>, i: nat, v: Option<T>)
    requires i < |data|
    ensures Occupied(data[i := v]) + (if data[i].Some? then 1 else 0)
         == Occupied(data) + (if v.Some? then 1 else 0)
    decreases |data|
  {
    var n := |data| - 1;
    var u := data[i := v];
    assert u[..n] == if i < n then data[..n][i := v] else data[..n];
    if i < n {
      OccupiedUpdate(data[..n], i, v);
    }
  }

  lemma {:induction false} OccupiedAppendNone<T>(data: seq<Option<T>>, k: nat)
    ensures Occupied(data + seq(k, _ => None)) == Occupied(data)
    decreases k
  {
    if k > 0 {
      var grown := data + seq(k, _ => None);
      assert grown[..|grown| - 1] == data + seq(k - 1, _ => None);
      OccupiedAppendNone(data, k - 1);
    } else {
      assert data + seq(k, _ => None) == data;
    }
  }

  /** A valid map satisfies what `insert` asserts. */
  lemma ValidCanInsert<T>(m: UsizeMap<T>)
    requires Valid(m)
    ensures CanInsert(m)
  {
    if |m.empty| > 0 {
      assert m.empty[|m.empty| - 1] == Last(m.empty);
    }
  }

  /** A valid map counts every live slot, so `remove` never underflows. */
  lemma {:induction false} ValidCountsLive<T>(m: UsizeMap<T>, key: nat)
    requires Valid(m) && ContainsKey(m, key)
    ensures m.count > 0
  {
    OccupiedUpdate(m.data, key, None);
  }

  /** Reusing the last free index keeps the arena invariant. */
  lemma InsertReuseValid<T>(m: UsizeMap<T>, element: T)
    requires Valid(m) && |m.empty| > 0
    ensures CanInsert(m) && Valid(Insert(m, element).0)
  {
    ValidCanInsert(m);
    var n := |m.empty|;
    var index := Last(m.empty);
    assert m.empty[n - 1] == index;
    OccupiedUpdate(m.data, index, Some(element));
    var r := UsizeMap(m.data[index := Some(element)], m.empty[..n - 1], m.count + 1);
    assert Insert(m, element).0 == r;
    forall k | 0 <= k < |r.data| && r.data[k].None?
      ensures k in r.empty
    {
      assert k in m.empty;
      var j :| 0 <= j < n && m.empty[j] == k;
      assert r.empty[j] == k;
    }
  }

  /** Appending a slot keeps the arena invariant. */
  lemma InsertAppendValid<T>(m: UsizeMap<T>, element: T)
    requires Valid(m) && |m.empty| == 0
    ensures CanInsert(m) && Valid(Insert(m, element).0)
  {
    var d := m.data + [Some(element)];
    assert d[..|d| - 1] == m.data;
  }

  /** `insert` preserves the arena invariant. */
  lemma InsertValid<T>(m: UsizeMap<T>, element: T)
    requires Valid(m)
    ensures CanInsert(m) && Valid(Insert(m, element).0)
  {
    if |m.empty| > 0 {
      InsertReuseValid(m, element);
    } else {
      InsertAppendValid(m, element);
    }
  }

  /** `remove` preserves the arena invariant. */
  lemma RemoveValid<T>(m: UsizeMap<T>, key: nat)
    requires Valid(m)
    ensures (ContainsKey(m, key) ==> m.count > 0) && Valid(Remove(m, key).0)
  {
    if ContainsKey(m, key) {
      ValidCountsLive(m, key);
      OccupiedUpdate(m.data, key, None);
      var r := Remove(m, key).0;
      assert key !in m.empty;
      forall k | 0 <= k < |r.data| && r.data[k].None?
        ensures k in r.empty
      {
        if k != key {
          assert k in m.empty;
        } else {
          assert r.empty[|r.empty| - 1] == key;
        }
      }
    }
  }

  /** `get_mut` writes keep the arena invariant. */
  lemma UpdateValid<T>(m: UsizeMap<T>, key: nat, element: T)
    requires Valid(m) && ContainsKey(m, key)
    ensures Valid(Update(m, key, element))
  {
    OccupiedUpdate(m.data, key, Some(element));
    var r := Update(m, key, element);
    forall j | 0 <= j < |r.empty|
      ensures r.empty[j] < |r.data| && r.data[r.empty[j]].None?
    {
      assert m.data[m.empty[j]].None?;
    }
  }

  /** Inserting a sequence of values, returning every key handed out. */
  function InsertAll<T>(m: UsizeMap<T>, values: seq<T>): (r: (UsizeMap<T>, seq<nat>))
    requires m.empty == []
    ensures r.0.empty == [] && |r.1| == |values|
    ensures |r.0.data| == |m.data| + |values|
    decreases |values|
  {
    if |values| == 0 then (m, [])
    else
      var (m1, k) := Insert(m, values[0]);
      var (m2, ks) := InsertAll(m1, values[1..]);
      (m2, [k] + ks)
  }

  /** On a map with no free indices, successive inserts return consecutive keys. */
  lemma {:induction false} InsertAllKeys<T>(m: UsizeMap<T>, values: seq<T>)
    requires m.empty == []
    ensures forall i :: 0 <= i < |values| ==> InsertAll(m, values).1[i] == |m.data| + i
    decreases |values|
  {
    if |values| > 0 {
      var (m1, k) := Insert(m, values[0]);
      InsertAllKeys(m1, values[1..]);
    }
  }

  /** On a fresh map, the inserts return the keys 0, 1, 2, ... */
  lemma FreshKeysSequential<T>(values: seq<T>)
    ensures forall i :: 0 <= i < |values| ==> InsertAll(New<T>(), values).1[i] == i
  {
    InsertAllKeys(New<T>(), values);
  }

  /** The most recently freed key is the next one handed out (LIFO reuse). */
  lemma RemoveThenInsertReuses<T>(m: UsizeMap<T>, key: nat, element: T)
    requires Valid(m) && ContainsKey(m, key)
    ensures (ValidCountsLive(m, key); var m1 := Remove(m, key).0;
             CanInsert(m1) && Insert(m1, element).1 == key)
  {
    ValidCountsLive(m, key);
    var m1 := Remove(m, key).0;
    assert Last(m1.empty) == key;
    assert !ContainsKey(m1, key);
  }

  /** After `clear` the next insert hands out key 0 again. */
  lemma ClearThenInsertZero<T>(m: UsizeMap<T>, element: T)
    ensures Insert(Clear(m), element).1 == 0
    ensures Len(Insert(Clear(m), element).0) == 1
  {
  }

}
