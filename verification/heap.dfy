/**
  The reference-counted heap `Heap<T>` of src/heap.rs: a slot arena of
  `Blob`s, each a payload with a reference count. An entry is created with
  count 1 and freed when it is decremented at count 1.
 */
module Heaps {
  import opened Outcomes
  import U = UsizeMaps

  datatype Blob<T> = Blob(data: T, count: nat)

  datatype Heap<T> = Heap(data: U.UsizeMap<Blob<T>>)

  /**
    The heap invariant: the arena invariant holds and every live entry is
    referenced at least once, so the count-0 panic of `decr` cannot happen.
   */
  ghost predicate Valid<T>(h: Heap<T>)
  {
    && U.Valid(h.data)
    && forall k :: U.ContainsKey(h.data, k) ==> U.Index(h.data, k).count >= 1
  }

  predicate ContainsKey<T>(h: Heap<T>, index: nat)
  {
    U.ContainsKey(h.data, index)
  }

  function New<T>(): (h: Heap<T>)
    ensures Valid(h)
    ensures forall k :: !ContainsKey(h, k)
  {
    Heap(U.New())
  }

  /** `get`: the payload of a live entry (panics on a dead index). */
  function Get<T>(h: Heap<T>, index: nat): (r: T)
    requires ContainsKey(h, index)
    ensures TryGet(h, index) == Some(r)
  {
    U.Index(h.data, index).data
  }

  /** `try_get`: the payload of a live entry, `None` for a dead index. */
  function TryGet<T>(h: Heap<T>, index: nat): (r: Option<T>)
    ensures r.None? <==> !ContainsKey(h, index)
  {
    match U.Get(h.data, index)
    case Some(b) => Some(b.data)
    case None => None
  }

  /** `count`: the reference count of a live entry (panics on a dead index). */
  function Count<T>(h: Heap<T>, index: nat): (r: nat)
    requires ContainsKey(h, index)
    ensures Valid(h) ==> r >= 1
  {
    U.Index(h.data, index).count
  }

  /** The count of an entry, 0 for a dead index. */
  function CountOrZero<T>(h: Heap<T>, index: nat): nat
  {
    if ContainsKey(h, index) then Count(h, index) else 0
  }

  /** `push`: stores a payload under a fresh key with count 1. */
  function Push<T>(h: Heap<T>, payload: T): (r: (Heap<T>, nat))
    requires Valid(h)
    ensures Valid(r.0)
    ensures !ContainsKey(h, r.1) && ContainsKey(r.0, r.1)
    ensures Get(r.0, r.1) == payload && Count(r.0, r.1) == 1
    ensures forall k :: k != r.1 ==> U.Get(r.0.data, k) == U.Get(h.data, k)
    ensures forall k :: k != r.1 ==> TryGet(r.0, k) == TryGet(h, k) && CountOrZero(r.0, k) == CountOrZero(h, k)
  {
    U.InsertValid(h.data, Blob(payload, 1));
    var (m, key) := U.Insert(h.data, Blob(payload, 1));
    assert !ContainsKey(h, key) by {
      if |h.data.empty| > 0 {
        assert h.data.empty[|h.data.empty| - 1] == key;
      }
    }
    (Heap(m), key)
  }

  /** `incr`: one more reference to a live entry (panics on a dead index). */
  function Incr<T>(h: Heap<T>, index: nat): (r: Heap<T>)
    requires ContainsKey(h, index)
    ensures ContainsKey(r, index)
    ensures Count(r, index) == Count(h, index) + 1
    ensures Get(r, index) == Get(h, index)
    ensures forall k :: k != index ==> U.Get(r.data, k) == U.Get(h.data, k)
    ensures forall k :: TryGet(r, k) == TryGet(h, k)
    ensures forall k :: CountOrZero(r, k) == CountOrZero(h, k) + (if k == index then 1 else 0)
  {
    var b := U.Index(h.data, index);
    Heap(U.Update(h.data, index, Blob(b.data, b.count + 1)))
  }

  /** Replaces the payload of a live entry, keeping its count (`get` used mutably). */
  function Put<T>(h: Heap<T>, index: nat, payload: T): (r: Heap<T>)
    requires ContainsKey(h, index)
    ensures ContainsKey(r, index)
    ensures Get(r, index) == payload && Count(r, index) == Count(h, index)
    ensures forall k :: k != index ==> U.Get(r.data, k) == U.Get(h.data, k)
    ensures forall k :: k != index ==> TryGet(r, k) == TryGet(h, k)
    ensures forall k :: CountOrZero(r, k) == CountOrZero(h, k)
  {
    var b := U.Index(h.data, index);
    Heap(U.Update(h.data, index, Blob(payload, b.count)))
  }

  /**
    `decr`: drops one reference to a live entry. At count 1 the entry is
    removed and its key is freed; above 1 the count goes down by one.
   */
  function Decr<T>(h: Heap<T>, index: nat): (r: Heap<T>)
    requires Valid(h) && ContainsKey(h, index)
    ensures Valid(r)
    ensures Count(h, index) == 1 ==> !ContainsKey(r, index) && r.data.empty == h.data.empty + [index]
    ensures Count(h, index) > 1 ==>
      ContainsKey(r, index) && Count(r, index) == Count(h, index) - 1 && Get(r, index) == Get(h, index)
    ensures forall k :: k != index ==> U.Get(r.data, k) == U.Get(h.data, k)
    ensures forall k :: TryGet(r, k).Some? ==> TryGet(r, k) == TryGet(h, k)
    ensures forall k :: CountOrZero(r, k) + (if k == index then 1 else 0) == CountOrZero(h, k)
  {
    var b := U.Index(h.data, index);
    if b.count == 1 then
      U.RemoveValid(h.data, index);
      Heap(U.Remove(h.data, index).0)
    else
      U.UpdateValid(h.data, index, Blob(b.data, b.count - 1));
      Heap(U.Update(h.data, index, Blob(b.data, b.count - 1)))
  }

  /** `keys`: the live indices, in increasing order. */
  method Keys<T>(h: Heap<T>) returns (keys: seq<nat>)
    ensures forall k: nat :: k in keys <==> ContainsKey(h, k)
    ensures forall i, j :: 0 <= i < j < |keys| ==> keys[i] < keys[j]
  {
    keys := U.Keys(h.data);
  }

  /** Sum of the reference counts of every live entry. */
  function TotalOf<T>(data: seq<Option<Blob<T>>>): nat
  {
    if |data| == 0 then 0
    else TotalOf(data[..|data| - 1]) + (match data[|data| - 1] case Some(b) => b.count case None => 0)
  }

  function Total<T>(h: Heap<T>): nat
  {
    TotalOf(h.data.data)
  }

  // ----- Lemmas -----

  /** `incr` keeps the heap invariant. */
  lemma IncrValid<T>(h: Heap<T>, index: nat)
    requires Valid(h) && ContainsKey(h, index)
    ensures Valid(Incr(h, index))
  {
    var b := U.Index(h.data, index);
    U.UpdateValid(h.data, index, Blob(b.data, b.count + 1));
  }

  /** Replacing a payload keeps the heap invariant. */
  lemma PutValid<T>(h: Heap<T>, index: nat, payload: T)
    requires Valid(h) && ContainsKey(h, index)
    ensures Valid(Put(h, index, payload))
  {
    var b := U.Index(h.data, index);
    U.UpdateValid(h.data, index, Blob(payload, b.count));
  }

  /** Writing one slot moves the total by the difference in that slot's count. */
  lemma {:induction false} TotalOfUpdate<T>(data: seq<Option<Blob<T>>>, i: nat, v: Option<Blob<T>>)
    requires i < |data|
    ensures TotalOf(data[i := v]) + (match data[i] case Some(b) => b.count case None => 0)
         == TotalOf(data) + (match v case Some(b) => b.count case None => 0)
    decreases |data|
  {
    var n := |data| - 1;
    var u := data[i := v];
    assert u[..n] == if i < n then data[..n][i := v] else data[..n];
    if i < n {
      TotalOfUpdate(data[..n], i, v);
    }
  }

  /** `incr` adds exactly one to the total reference count. */
  lemma IncrTotal<T>(h: Heap<T>, index: nat)
    requires ContainsKey(h, index)
    ensures Total(Incr(h, index)) == Total(h) + 1
  {
    var b := U.Index(h.data, index);
    TotalOfUpdate(h.data.data, index, Some(Blob(b.data, b.count + 1)));
  }

  /** `decr` removes exactly one from the total reference count. */
  lemma DecrTotal<T>(h: Heap<T>, index: nat)
    requires Valid(h) && ContainsKey(h, index)
    ensures Total(Decr(h, index)) + 1 == Total(h)
  {
    var b := U.Index(h.data, index);
    if b.count == 1 {
      TotalOfUpdate(h.data.data, index, None);
    } else {
      TotalOfUpdate(h.data.data, index, Some(Blob(b.data, b.count - 1)));
    }
  }

  /** Replacing a payload leaves the total reference count unchanged. */
  lemma PutTotal<T>(h: Heap<T>, index: nat, payload: T)
    requires ContainsKey(h, index)
    ensures Total(Put(h, index, payload)) == Total(h)
  {
    var b := U.Index(h.data, index);
    TotalOfUpdate(h.data.data, index, Some(Blob(payload, b.count)));
  }

  /** A live entry contributes its count to the total. */
  lemma {:induction false} TotalCoversEntry<T>(h: Heap<T>, index: nat)
    requires ContainsKey(h, index)
    ensures Count(h, index) <= Total(h)
  {
    TotalOfUpdate(h.data.data, index, None);
  }

  /** `decr` undoes `incr`. */
  lemma DecrUndoesIncr<T>(h: Heap<T>, index: nat)
    requires Valid(h) && ContainsKey(h, index)
    ensures Valid(Incr(h, index)) && Decr(Incr(h, index), index) == h
  {
    IncrValid(h, index);
    var h1 := Incr(h, index);
    assert h1.data.data[index := h.data.data[index]] == h.data.data;
  }

  /** A freshly pushed entry is freed by a single `decr`, and its key is reused next. */
  lemma PushDecrFrees<T>(h: Heap<T>, payload: T, next: T)
    requires Valid(h)
    ensures var (h1, k) := Push(h, payload);
            var h2 := Decr(h1, k);
            !ContainsKey(h2, k) && Push(h2, next).1 == k
  {
    var (h1, k) := Push(h, payload);
    var h2 := Decr(h1, k);
    assert h2.data.empty[|h2.data.empty| - 1] == k;
  }
}
