/**
  `DataObject` of src/dataobject.rs: a handle to an entry of the object heap,
  whose payload is a map from names to values. Storing a handle raises its
  target's count at once; a handle that is overwritten or removed is only
  queued, and `gc` decrements it later.
 */
module Objects {
  import opened Outcomes
  import opened Values
  import opened Stores
  import H = Heaps
  import U = UsizeMaps
  import A = Assoc

  /** `DataObject::new`: a fresh entry holding an empty map, referenced once. */
  function New(st: State): (r: (State, nat))
    requires Valid(st)
    ensures Valid(r.0) && SameQueues(r.0, st)
    ensures !LiveAt(st, KObject, r.1)
    ensures ObjectAt(r.0, r.1) == Some([]) && CountAt(r.0, KObject, r.1) == 1
    ensures forall j :: j != r.1 ==> ObjectAt(r.0, j) == ObjectAt(st, j)
    ensures r.0.arrays == st.arrays && r.0.bytes == st.bytes
    ensures forall k, j: nat :: k != KObject || j != r.1 ==> CountAt(r.0, k, j) == CountAt(st, k, j)
  {
    var (h, i) := H.Push(st.objects, []);
    var r := st.(objects := h);
    assert MapsUnique(h) by {
      forall j | H.ContainsKey(h, j) ensures A.UniqueKeys(H.Get(h, j)) {
        if j != i {
          assert H.TryGet(h, j) == H.TryGet(st.objects, j);
        }
      }
    }
    forall j | j != i
      ensures CountAt(r, KObject, j) == CountAt(st, KObject, j)
    {
      assert U.Get(h.data, j) == U.Get(st.objects.data, j);
    }
    (r, i)
  }

  /** The map of a live object (`oheap().lock().get(data_ref)`). */
  function MapOf(st: State, i: nat): (m: A.Entries<Data>)
    requires LiveAt(st, KObject, i)
    ensures ObjectAt(st, i) == Some(m)
  {
    H.Get(st.objects, i)
  }

  /** `get_property`: a copy of the stored value; panics when the key is absent. */
  function GetProperty(st: State, i: nat, key: string): (r: Data)
    requires LiveAt(st, KObject, i) && A.ContainsKey(MapOf(st, i), key)
    ensures (key, r) in MapOf(st, i)
    ensures A.Find(MapOf(st, i), key) == Some(r)
  {
    A.Find(MapOf(st, i), key).value
  }

  /**
    `set_property`: raises the count of a stored handle first, then inserts,
    then queues the handle the key held before (if any).
   */
  function SetProperty(st: State, i: nat, key: string, d: Data): (r: State)
    requires Valid(st) && LiveAt(st, KObject, i) && HandleLive(st, d)
    ensures Valid(r) && LiveAt(r, KObject, i)
    ensures A.Find(MapOf(r, i), key) == Some(d)
    ensures forall k :: k != key ==> A.Find(MapOf(r, i), k) == A.Find(MapOf(st, i), k)
    ensures forall j :: j != i ==> ObjectAt(r, j) == ObjectAt(st, j)
    ensures forall j :: ArrayAt(r, j) == ArrayAt(st, j) && StreamAt(r, j) == StreamAt(st, j)
    ensures forall k, j :: CountAt(r, k, j) == CountAt(st, k, j) + Bump(d, k, j)
    ensures Queued(r, st, Released(A.Find(MapOf(st, i), key)))
  {
    var st1 := IncrHandle(st, d);
    assert MapOf(st1, i) == MapOf(st, i);
    var r := Store(st1, i, key, d);
    assert forall j :: ArrayAt(r, j) == ArrayAt(st1, j) && StreamAt(r, j) == StreamAt(st1, j);
    r
  }

  /** The insertion step of `set_property`, after any increment. */
  function Store(st: State, i: nat, key: string, d: Data): (r: State)
    requires Valid(st) && LiveAt(st, KObject, i)
    ensures Valid(r) && LiveAt(r, KObject, i) && SameCounts(r, st)
    ensures A.Find(MapOf(r, i), key) == Some(d)
    ensures forall k :: k != key ==> A.Find(MapOf(r, i), k) == A.Find(MapOf(st, i), k)
    ensures forall j :: j != i ==> ObjectAt(r, j) == ObjectAt(st, j)
    ensures r.arrays == st.arrays && r.bytes == st.bytes
    ensures Queued(r, st, Released(A.Find(MapOf(st, i), key)))
  {
    var m := MapOf(st, i);
    var (m2, prev) := A.Set(m, key, d);
    assert prev == A.Find(m, key);
    A.SetUnique(m, key, d);
    var st2 := PutObject(st, i, m2);
    var r := ReleaseOpt(st2, prev);
    SameHeaps(r, st2);
    assert MapOf(r, i) == m2;
    assert Queued(r, st, Released(prev));
    r
  }

  /**
    `remove_property`: takes the key out and queues the handle it held; an
    absent key changes nothing.
   */
  function RemoveProperty(st: State, i: nat, key: string): (r: State)
    requires Valid(st) && LiveAt(st, KObject, i)
    ensures Valid(r) && LiveAt(r, KObject, i)
    ensures !A.ContainsKey(MapOf(r, i), key)
    ensures forall k :: k != key ==> A.Find(MapOf(r, i), k) == A.Find(MapOf(st, i), k)
    ensures forall j :: j != i ==> ObjectAt(r, j) == ObjectAt(st, j)
    ensures r.arrays == st.arrays && r.bytes == st.bytes && SameCounts(r, st)
    ensures Queued(r, st, Released(A.Find(MapOf(st, i), key)))
    ensures !A.ContainsKey(MapOf(st, i), key) ==> r == st
  {
    var m := MapOf(st, i);
    var (m2, prev) := A.Remove(m, key);
    if prev.None? then st
    else ReleaseOpt(PutObject(st, i, m2), prev)
  }

  /**
    `put_object`, `put_array` and `put_bytes` as written: `set_property`
    raises the child's count, then `mem::forget` suppresses the drop of the
    argument, so the caller's reference is never given back.
   */
  function PutChildAsWritten(st: State, i: nat, key: string, child: Data): (r: State)
    requires Valid(st) && LiveAt(st, KObject, i) && IsHandle(child) && HandleLive(st, child)
    ensures Valid(r) && LiveAt(r, KObject, i)
    ensures A.Find(MapOf(r, i), key) == Some(child)
    ensures forall k :: k != key ==> A.Find(MapOf(r, i), k) == A.Find(MapOf(st, i), k)
    ensures forall j :: j != i ==> ObjectAt(r, j) == ObjectAt(st, j)
    ensures forall j :: ArrayAt(r, j) == ArrayAt(st, j) && StreamAt(r, j) == StreamAt(st, j)
    ensures forall k, j :: CountAt(r, k, j) == CountAt(st, k, j) + Bump(child, k, j)
    ensures Queued(r, st, Released(A.Find(MapOf(st, i), key)))
  {
    SetProperty(st, i, key, child)
  }

  /**
    `put_object`, `put_array` and `put_bytes` with ownership transferred: the
    argument is dropped after `set_property`, as `DataArray::push_object`
    does, so the net count change of the child is zero once `gc` has run.
   */
  function PutChild(st: State, i: nat, key: string, child: Data): (r: State)
    requires Valid(st) && LiveAt(st, KObject, i) && IsHandle(child) && HandleLive(st, child)
    ensures Valid(r) && LiveAt(r, KObject, i)
    ensures A.Find(MapOf(r, i), key) == Some(child)
    ensures forall k :: k != key ==> A.Find(MapOf(r, i), k) == A.Find(MapOf(st, i), k)
    ensures forall j :: j != i ==> ObjectAt(r, j) == ObjectAt(st, j)
    ensures forall j :: ArrayAt(r, j) == ArrayAt(st, j) && StreamAt(r, j) == StreamAt(st, j)
    ensures forall k, j :: CountAt(r, k, j) == CountAt(st, k, j) + Bump(child, k, j)
    ensures Queued(r, st, Released(A.Find(MapOf(st, i), key)) + [child])
  {
    var st1 := SetProperty(st, i, key, child);
    var r := Release(st1, child);
    SameHeaps(r, st1);
    assert MapOf(r, i) == MapOf(st1, i);
    QueuedTrans(r, st1, st, Released(A.Find(MapOf(st, i), key)), [child]);
    r
  }
}
