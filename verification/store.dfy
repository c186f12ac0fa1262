/**
  The global state shared by the three container kinds: the object heap
  (maps from names to values), the array heap (vectors of values), the bytes
  heap (streams), and one deferred-decrement queue per kind. The process-wide
  statics of src/dataobject.rs, src/dataarray.rs and src/databytes.rs become
  fields of one record threaded through pure functions; a lock is transparent.
 */
module Stores {
  import opened Outcomes
  import opened Values
  import H = Heaps
  import U = UsizeMaps
  import A = Assoc
  import S = Streams

  datatype Kind = KObject | KArray | KBytes

  datatype State = State(
    objects: H.Heap<A.Entries<Data>>,
    arrays: H.Heap<seq<Data>>,
    bytes: H.Heap<S.DataStream>,
    odrop: seq<nat>,
    adrop: seq<nat>,
    bdrop: seq<nat>)

  /**
    The store invariant: the three heaps are well formed and every object
    entry is a map (no key twice).
   */
  ghost predicate Valid(st: State)
  {
    && H.Valid(st.objects)
    && H.Valid(st.arrays)
    && H.Valid(st.bytes)
    && MapsUnique(st.objects)
  }

  ghost predicate MapsUnique(h: H.Heap<A.Entries<Data>>)
  {
    forall i :: H.ContainsKey(h, i) ==> A.UniqueKeys(H.Get(h, i))
  }

  /** The heaps and queues right after `init`: nothing allocated, nothing queued. */
  function Empty(): (st: State)
    ensures Valid(st)
    ensures forall k, i :: !LiveAt(st, k, i)
    ensures forall k :: Queue(st, k) == []
  {
    State(H.New(), H.New(), H.New(), [], [], [])
  }

  /** The heap entry a value refers to, if it is a handle. */
  function HandleOf(d: Data): (r: Option<(Kind, nat)>)
    ensures r.Some? <==> IsHandle(d)
  {
    match d
    case DObject(i) => Some((KObject, i))
    case DArray(i) => Some((KArray, i))
    case DBytes(i) => Some((KBytes, i))
    case _ => None
  }

  predicate LiveAt(st: State, k: Kind, i: nat)
  {
    match k
    case KObject => H.ContainsKey(st.objects, i)
    case KArray => H.ContainsKey(st.arrays, i)
    case KBytes => H.ContainsKey(st.bytes, i)
  }

  /** The reference count of an entry, 0 once it has been freed. */
  function CountAt(st: State, k: Kind, i: nat): nat
  {
    match k
    case KObject => H.CountOrZero(st.objects, i)
    case KArray => H.CountOrZero(st.arrays, i)
    case KBytes => H.CountOrZero(st.bytes, i)
  }

  function Queue(st: State, k: Kind): seq<nat>
  {
    match k
    case KObject => st.odrop
    case KArray => st.adrop
    case KBytes => st.bdrop
  }

  function ObjectAt(st: State, i: nat): Option<A.Entries<Data>>
  {
    H.TryGet(st.objects, i)
  }

  function ArrayAt(st: State, i: nat): Option<seq<Data>>
  {
    H.TryGet(st.arrays, i)
  }

  function StreamAt(st: State, i: nat): Option<S.DataStream>
  {
    H.TryGet(st.bytes, i)
  }

  /** A handle whose target can be incremented without a panic (scalars trivially). */
  predicate HandleLive(st: State, d: Data)
  {
    match HandleOf(d)
    case None => true
    case Some((k, i)) => LiveAt(st, k, i)
  }

  /** 1 when `d` refers to entry `i` of kind `k`, else 0. */
  function Bump(d: Data, k: Kind, i: nat): nat
  {
    if HandleOf(d) == Some((k, i)) then 1 else 0
  }

  /** The indices of the handles of kind `k` among `ds`, in order. */
  function Handles(ds: seq<Data>, k: Kind): (r: seq<nat>)
    ensures |r| <= |ds|
    ensures forall j :: j in r <==> exists d :: d in ds && HandleOf(d) == Some((k, j))
  {
    if |ds| == 0 then []
    else
      var rest := Handles(ds[1..], k);
      assert forall d :: d in ds <==> d == ds[0] || d in ds[1..];
      match HandleOf(ds[0])
      case Some((k', j)) => if k' == k then [j] + rest else rest
      case None => rest
  }

  /** The value an optional replaced or removed value puts out of scope, if any. */
  function Released(prev: Option<Data>): (ds: seq<Data>)
    ensures prev.None? <==> ds == []
    ensures prev.Some? ==> ds == [prev.value]
  {
    match prev
    case Some(d) => [d]
    case None => []
  }

  /**
    The queues of `r` are those of `st` with the handles among `ds` appended,
    each to its own kind's queue, in order; scalars queue nothing.
   */
  predicate Queued(r: State, st: State, ds: seq<Data>)
  {
    && r.odrop == st.odrop + Handles(ds, KObject)
    && r.adrop == st.adrop + Handles(ds, KArray)
    && r.bdrop == st.bdrop + Handles(ds, KBytes)
  }

  /** Every entry's payload is the same in both states (so is every entry's liveness). */
  ghost predicate SamePayloads(a: State, b: State)
  {
    && (forall i :: ObjectAt(a, i) == ObjectAt(b, i))
    && (forall i :: ArrayAt(a, i) == ArrayAt(b, i))
    && (forall i :: StreamAt(a, i) == StreamAt(b, i))
  }

  predicate SameQueues(a: State, b: State)
  {
    a.odrop == b.odrop && a.adrop == b.adrop && a.bdrop == b.bdrop
  }

  ghost predicate SameCounts(a: State, b: State)
  {
    forall k, i :: CountAt(a, k, i) == CountAt(b, k, i)
  }

  /**
    `clone`, `get` and `incr` of DataObject, DataArray and DataBytes: one more
    reference to the target of a handle. Scalars change nothing.
   */
  function IncrHandle(st: State, d: Data): (r: State)
    requires Valid(st) && HandleLive(st, d)
    ensures Valid(r)
    ensures SamePayloads(r, st) && SameQueues(r, st)
    ensures forall k, i :: CountAt(r, k, i) == CountAt(st, k, i) + Bump(d, k, i)
  {
    match d
    case DObject(i) =>
      H.IncrValid(st.objects, i);
      MapsUniqueFrame(st.objects, H.Incr(st.objects, i), i);
      st.(objects := H.Incr(st.objects, i))
    case DArray(i) =>
      H.IncrValid(st.arrays, i);
      st.(arrays := H.Incr(st.arrays, i))
    case DBytes(i) =>
      H.IncrValid(st.bytes, i);
      st.(bytes := H.Incr(st.bytes, i))
    case _ => st
  }

  /**
    `decr` of DataObject, DataArray and DataBytes: one reference fewer, with
    no cascade to children. At count 1 the entry is freed.
   */
  function DecrHandle(st: State, d: Data): (r: State)
    requires Valid(st) && IsHandle(d) && HandleLive(st, d)
    ensures Valid(r) && SameQueues(r, st)
    ensures forall k, i :: CountAt(r, k, i) + Bump(d, k, i) == CountAt(st, k, i)
    ensures forall i :: ObjectAt(r, i).Some? ==> ObjectAt(r, i) == ObjectAt(st, i)
    ensures forall i :: ArrayAt(r, i).Some? ==> ArrayAt(r, i) == ArrayAt(st, i)
    ensures forall i :: StreamAt(r, i).Some? ==> StreamAt(r, i) == StreamAt(st, i)
    ensures !d.DObject? ==> r.objects == st.objects
    ensures !d.DArray? ==> r.arrays == st.arrays
    ensures !d.DBytes? ==> r.bytes == st.bytes
  {
    match d
    case DObject(i) =>
      MapsUniqueFrame(st.objects, H.Decr(st.objects, i), i);
      st.(objects := H.Decr(st.objects, i))
    case DArray(i) => st.(arrays := H.Decr(st.arrays, i))
    case DBytes(i) => st.(bytes := H.Decr(st.bytes, i))
  }

  /**
    The `Drop` impls of DataObject (src/dataobject.rs), DataArray and
    DataBytes: a handle going out of scope only queues its index on its
    kind's drop queue; the count is decremented later by `gc`.
   */
  function Release(st: State, d: Data): (r: State)
    ensures r.objects == st.objects && r.arrays == st.arrays && r.bytes == st.bytes
    ensures Queued(r, st, [d])
  {
    match d
    case DObject(i) => st.(odrop := st.odrop + [i])
    case DArray(i) => st.(adrop := st.adrop + [i])
    case DBytes(i) => st.(bdrop := st.bdrop + [i])
    case _ => st
  }

  /** Dropping an optional old value returned by a replacement or removal. */
  function ReleaseOpt(st: State, prev: Option<Data>): (r: State)
    ensures r.objects == st.objects && r.arrays == st.arrays && r.bytes == st.bytes
    ensures Queued(r, st, Released(prev))
  {
    match prev
    case Some(d) => Release(st, d)
    case None => st
  }

  /** Writes the map of a live object entry (a mutable `get` on the object heap). */
  function PutObject(st: State, i: nat, m: A.Entries<Data>): (r: State)
    requires Valid(st) && LiveAt(st, KObject, i) && A.UniqueKeys(m)
    ensures Valid(r) && SameCounts(r, st) && SameQueues(r, st)
    ensures ObjectAt(r, i) == Some(m)
    ensures forall j :: j != i ==> ObjectAt(r, j) == ObjectAt(st, j)
    ensures r.arrays == st.arrays && r.bytes == st.bytes
  {
    H.PutValid(st.objects, i, m);
    MapsUniqueFrame(st.objects, H.Put(st.objects, i, m), i);
    st.(objects := H.Put(st.objects, i, m))
  }

  /** Writes the vector of a live array entry. */
  function PutArray(st: State, i: nat, v: seq<Data>): (r: State)
    requires Valid(st) && LiveAt(st, KArray, i)
    ensures Valid(r) && SameCounts(r, st) && SameQueues(r, st)
    ensures ArrayAt(r, i) == Some(v)
    ensures forall j :: j != i ==> ArrayAt(r, j) == ArrayAt(st, j)
    ensures r.objects == st.objects && r.bytes == st.bytes
  {
    H.PutValid(st.arrays, i, v);
    st.(arrays := H.Put(st.arrays, i, v))
  }

  /** Writes the stream of a live bytes entry. */
  function PutStream(st: State, i: nat, s: S.DataStream): (r: State)
    requires Valid(st) && LiveAt(st, KBytes, i)
    ensures Valid(r) && SameCounts(r, st) && SameQueues(r, st)
    ensures StreamAt(r, i) == Some(s)
    ensures forall j :: j != i ==> StreamAt(r, j) == StreamAt(st, j)
    ensures r.objects == st.objects && r.arrays == st.arrays
  {
    H.PutValid(st.bytes, i, s);
    st.(bytes := H.Put(st.bytes, i, s))
  }

  /** Total reference count held by object and array entries; `delete` consumes it. */
  function Total(st: State): nat
  {
    H.Total(st.objects) + H.Total(st.arrays)
  }

  // ----- Lemmas -----

  /** Changing one object entry keeps every other map well formed. */
  lemma MapsUniqueFrame(h: H.Heap<A.Entries<Data>>, h2: H.Heap<A.Entries<Data>>, i: nat)
    requires MapsUnique(h)
    requires forall k :: k != i ==> U.Get(h2.data, k) == U.Get(h.data, k)
    requires H.ContainsKey(h2, i) ==>
      (A.UniqueKeys(H.Get(h2, i)) || (H.ContainsKey(h, i) && H.Get(h2, i) == H.Get(h, i)))
    ensures MapsUnique(h2)
  {
    forall k | H.ContainsKey(h2, k)
      ensures A.UniqueKeys(H.Get(h2, k))
    {
      if k != i {
        assert U.Get(h2.data, k) == U.Get(h.data, k);
        assert H.ContainsKey(h, k) && H.Get(h2, k) == H.Get(h, k);
      }
    }
  }

  /** The handles of a concatenation are the handles of its parts. */
  lemma {:induction false} HandlesAppend(a: seq<Data>, b: seq<Data>, k: Kind)
    ensures Handles(a + b, k) == Handles(a, k) + Handles(b, k)
    decreases |a|
  {
    if |a| == 0 {
      assert a + b == b;
    } else {
      assert (a + b)[0] == a[0];
      assert (a + b)[1..] == a[1..] + b;
      HandlesAppend(a[1..], b, k);
    }
  }

  /** Handles stay live across a step that frees and allocates nothing. */
  lemma HandlesStayLive(r: State, st: State, ds: seq<Data>)
    requires forall k, j :: LiveAt(r, k, j) == LiveAt(st, k, j)
    requires forall d :: d in ds ==> HandleLive(st, d)
    ensures forall d :: d in ds ==> HandleLive(r, d)
  {
    forall d | d in ds ensures HandleLive(r, d) {
      if HandleOf(d).Some? {
        var (k, j) := HandleOf(d).value;
        assert LiveAt(r, k, j) == LiveAt(st, k, j);
      }
    }
  }

  /** Two queueing steps make one. */
  lemma QueuedTrans(r: State, m: State, st: State, a: seq<Data>, b: seq<Data>)
    requires Queued(m, st, a) && Queued(r, m, b)
    ensures Queued(r, st, a + b)
  {
    HandlesAppend(a, b, KObject);
    AppendTwice(r.odrop, m.odrop, st.odrop, Handles(a, KObject), Handles(b, KObject), Handles(a + b, KObject));
    HandlesAppend(a, b, KArray);
    AppendTwice(r.adrop, m.adrop, st.adrop, Handles(a, KArray), Handles(b, KArray), Handles(a + b, KArray));
    HandlesAppend(a, b, KBytes);
    AppendTwice(r.bdrop, m.bdrop, st.bdrop, Handles(a, KBytes), Handles(b, KBytes), Handles(a + b, KBytes));
  }

  /** One queue grown in two steps. */
  lemma AppendTwice(r: seq<nat>, m: seq<nat>, q: seq<nat>, a: seq<nat>, b: seq<nat>, ab: seq<nat>)
    requires m == q + a && r == m + b && ab == a + b
    ensures r == q + ab
  {
  }

  /** Counts and payloads depend on the heaps only, not on the queues. */
  lemma SameHeaps(a: State, b: State)
    requires a.objects == b.objects && a.arrays == b.arrays && a.bytes == b.bytes
    ensures SameCounts(a, b) && SamePayloads(a, b)
  {
  }

  /** Decrementing an object or array entry consumes exactly one unit of the total. */
  lemma DecrHandleTotal(st: State, d: Data)
    requires Valid(st) && (d.DObject? || d.DArray?) && HandleLive(st, d)
    ensures Total(DecrHandle(st, d)) + 1 == Total(st)
  {
    match d
    case DObject(i) => H.DecrTotal(st.objects, i);
    case DArray(i) => H.DecrTotal(st.arrays, i);
  }

  /** Releasing and then collecting a fresh increment gives back the original counts. */
  lemma IncrThenDecr(st: State, d: Data)
    requires Valid(st) && IsHandle(d) && HandleLive(st, d)
    ensures var r := IncrHandle(st, d); HandleLive(r, d) && SameCounts(DecrHandle(r, d), st)
  {
  }
}
