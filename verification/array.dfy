/**
  `DataArray` of src/dataarray.rs: a handle to an entry of the array heap,
  whose payload is a vector of values. As for objects, storing a handle
  raises its target's count at once and displacing one only queues it.
 */
module Arrays {
  import opened Outcomes
  import opened Values
  import opened Stores
  import H = Heaps
  import U = UsizeMaps

  /** `DataArray::new`: a fresh entry holding an empty vector, referenced once. */
  function New(st: State): (r: (State, nat))
    requires Valid(st)
    ensures Valid(r.0) && SameQueues(r.0, st)
    ensures !LiveAt(st, KArray, r.1)
    ensures ArrayAt(r.0, r.1) == Some([]) && CountAt(r.0, KArray, r.1) == 1
    ensures forall j :: j != r.1 ==> ArrayAt(r.0, j) == ArrayAt(st, j)
    ensures r.0.objects == st.objects && r.0.bytes == st.bytes
    ensures forall k, j: nat :: k != KArray || j != r.1 ==> CountAt(r.0, k, j) == CountAt(st, k, j)
  {
    var (h, i) := H.Push(st.arrays, []);
    var r := st.(arrays := h);
    forall j | j != i
      ensures CountAt(r, KArray, j) == CountAt(st, KArray, j)
    {
      assert U.Get(h.data, j) == U.Get(st.arrays.data, j);
    }
    (r, i)
  }

  /** The vector of a live array. */
  function VecOf(st: State, i: nat): (v: seq<Data>)
    requires LiveAt(st, KArray, i)
    ensures ArrayAt(st, i) == Some(v)
  {
    H.Get(st.arrays, i)
  }

  /** `len`. */
  function Len(st: State, i: nat): (n: nat)
    requires LiveAt(st, KArray, i)
    ensures n == |VecOf(st, i)|
  {
    |H.Get(st.arrays, i)|
  }

  /** `get_property`: a copy of element `id`; panics when `id` is out of range. */
  function GetProperty(st: State, i: nat, id: nat): (r: Data)
    requires LiveAt(st, KArray, i) && id < Len(st, i)
    ensures r in VecOf(st, i) && r == VecOf(st, i)[id]
  {
    VecOf(st, i)[id]
  }

  /** `push_property`: raises the count of a pushed handle, then appends. */
  function PushProperty(st: State, i: nat, d: Data): (r: State)
    requires Valid(st) && LiveAt(st, KArray, i) && HandleLive(st, d)
    ensures Valid(r) && SameQueues(r, st) && LiveAt(r, KArray, i)
    ensures VecOf(r, i) == VecOf(st, i) + [d]
    ensures forall k, j :: LiveAt(r, k, j) == LiveAt(st, k, j)
    ensures forall j :: j != i ==> ArrayAt(r, j) == ArrayAt(st, j)
    ensures forall j :: ObjectAt(r, j) == ObjectAt(st, j)
    ensures forall j :: StreamAt(r, j) == StreamAt(st, j)
    ensures forall k, j :: CountAt(r, k, j) == CountAt(st, k, j) + Bump(d, k, j)
  {
    var st1 := IncrHandle(st, d);
    var r := PutArray(st1, i, VecOf(st1, i) + [d]);
    assert forall k, j :: LiveAt(r, k, j) == LiveAt(st, k, j) by {
      forall k, j ensures LiveAt(r, k, j) == LiveAt(st, k, j) {
        if k == KArray && j != i {
          assert ArrayAt(r, j) == ArrayAt(st, j);
        } else if k == KObject {
          assert ObjectAt(r, j) == ObjectAt(st, j);
        } else if k == KBytes {
          assert StreamAt(r, j) == StreamAt(st, j);
        }
      }
    }
    r
  }

  /**
    `push_object`, `push_array` (and `push_list`) and `push_bytes`: the
    argument is moved in, pushed, and then dropped, which queues it.
   */
  function PushChild(st: State, i: nat, child: Data): (r: State)
    requires Valid(st) && LiveAt(st, KArray, i) && IsHandle(child) && HandleLive(st, child)
    ensures Valid(r) && LiveAt(r, KArray, i)
    ensures VecOf(r, i) == VecOf(st, i) + [child]
    ensures forall k, j :: CountAt(r, k, j) == CountAt(st, k, j) + Bump(child, k, j)
    ensures Queued(r, st, [child])
    ensures forall j :: j != i ==> ArrayAt(r, j) == ArrayAt(st, j)
    ensures forall j :: ObjectAt(r, j) == ObjectAt(st, j)
    ensures forall j :: StreamAt(r, j) == StreamAt(st, j)
  {
    var st1 := PushProperty(st, i, child);
    var r := Release(st1, child);
    SameHeaps(r, st1);
    assert VecOf(r, i) == VecOf(st1, i);
    r
  }

  /**
    `set_property`: raises the count of the new handle, replaces element
    `id` (panicking when it is out of range) and queues the old one.
   */
  function SetProperty(st: State, i: nat, id: nat, d: Data): (r: State)
    requires Valid(st) && LiveAt(st, KArray, i) && HandleLive(st, d) && id < Len(st, i)
    ensures Valid(r) && LiveAt(r, KArray, i)
    ensures VecOf(r, i) == VecOf(st, i)[id := d]
    ensures forall j :: j != i ==> ArrayAt(r, j) == ArrayAt(st, j)
    ensures forall j :: ObjectAt(r, j) == ObjectAt(st, j)
    ensures forall j :: StreamAt(r, j) == StreamAt(st, j)
    ensures forall k, j :: CountAt(r, k, j) == CountAt(st, k, j) + Bump(d, k, j)
    ensures Queued(r, st, [VecOf(st, i)[id]])
  {
    var prev := VecOf(st, i)[id];
    var st1 := IncrHandle(st, d);
    var st2 := PutArray(st1, i, VecOf(st1, i)[id := d]);
    Release(st2, prev)
  }

  /** `put_object`, `put_array` and `put_bytes`: `set_property`, then the argument drops. */
  function PutChild(st: State, i: nat, id: nat, child: Data): (r: State)
    requires Valid(st) && LiveAt(st, KArray, i) && IsHandle(child) && HandleLive(st, child)
    requires id < Len(st, i)
    ensures Valid(r) && LiveAt(r, KArray, i)
    ensures VecOf(r, i) == VecOf(st, i)[id := child]
    ensures forall k, j :: CountAt(r, k, j) == CountAt(st, k, j) + Bump(child, k, j)
    ensures Queued(r, st, [VecOf(st, i)[id], child])
    ensures forall j :: j != i ==> ArrayAt(r, j) == ArrayAt(st, j)
    ensures forall j :: ObjectAt(r, j) == ObjectAt(st, j)
    ensures forall j :: StreamAt(r, j) == StreamAt(st, j)
  {
    var st1 := SetProperty(st, i, id, child);
    var r := Release(st1, child);
    SameHeaps(r, st1);
    assert VecOf(r, i) == VecOf(st1, i);
    QueuedTrans(r, st1, st, [VecOf(st, i)[id]], [child]);
    PairAppend(VecOf(st, i)[id], child);
    r
  }

  /**
    `remove_property`: deletes element `id` (panicking when it is out of
    range), shifts the rest left and queues the removed handle.
   */
  function RemoveProperty(st: State, i: nat, id: nat): (r: State)
    requires Valid(st) && LiveAt(st, KArray, i) && id < Len(st, i)
    ensures Valid(r) && LiveAt(r, KArray, i) && SameCounts(r, st)
    ensures |VecOf(r, i)| + 1 == |VecOf(st, i)|
    ensures forall j :: 0 <= j < id ==> VecOf(r, i)[j] == VecOf(st, i)[j]
    ensures forall j :: id <= j < |VecOf(r, i)| ==> VecOf(r, i)[j] == VecOf(st, i)[j + 1]
    ensures forall j :: j != i ==> ArrayAt(r, j) == ArrayAt(st, j)
    ensures r.objects == st.objects && r.bytes == st.bytes
    ensures Queued(r, st, [VecOf(st, i)[id]])
  {
    var v := VecOf(st, i);
    Release(PutArray(st, i, v[..id] + v[id + 1..]), v[id])
  }

  /** How many of `ds` refer to entry `j` of kind `k`. */
  function Occurrences(ds: seq<Data>, k: Kind, j: nat): nat
  {
    if |ds| == 0 then 0 else Bump(ds[0], k, j) + Occurrences(ds[1..], k, j)
  }

  /** Pushes each of `ds` in turn (the loop of `join`). */
  function PushAll(st: State, i: nat, ds: seq<Data>): (r: State)
    requires Valid(st) && LiveAt(st, KArray, i)
    requires forall d :: d in ds ==> HandleLive(st, d)
    ensures Valid(r) && LiveAt(r, KArray, i)
    ensures forall k, j :: LiveAt(r, k, j) == LiveAt(st, k, j)
    decreases |ds|
  {
    if |ds| == 0 then st
    else
      var st1 := PushProperty(st, i, ds[0]);
      HandlesStayLive(st1, st, ds[1..]);
      PushAll(st1, i, ds[1..])
  }

  /** Pushing all of `ds` appends them in order and touches no other array and no queue. */
  lemma {:induction false} PushAllAppends(st: State, i: nat, ds: seq<Data>)
    requires Valid(st) && LiveAt(st, KArray, i)
    requires forall d :: d in ds ==> HandleLive(st, d)
    ensures SameQueues(PushAll(st, i, ds), st)
    ensures VecOf(PushAll(st, i, ds), i) == VecOf(st, i) + ds
    ensures forall j :: j != i ==> ArrayAt(PushAll(st, i, ds), j) == ArrayAt(st, j)
    ensures forall j :: ObjectAt(PushAll(st, i, ds), j) == ObjectAt(st, j)
    ensures forall j :: StreamAt(PushAll(st, i, ds), j) == StreamAt(st, j)
    decreases |ds|
  {
    if |ds| > 0 {
      var st1 := PushProperty(st, i, ds[0]);
      HandlesStayLive(st1, st, ds[1..]);
      PushAllAppends(st1, i, ds[1..]);
      assert PushAll(st, i, ds) == PushAll(st1, i, ds[1..]);
      assert VecOf(st1, i) == VecOf(st, i) + [ds[0]];
      AppendSplit(VecOf(st, i), ds);
    }
  }

  /** Two one-element sequences make a pair. */
  lemma PairAppend(x: Data, y: Data)
    ensures [x] + [y] == [x, y]
  {
  }

  /** Appending the head of `ds` and then its tail appends `ds`. */
  lemma AppendSplit(v: seq<Data>, ds: seq<Data>)
    requires |ds| > 0
    ensures v + [ds[0]] + ds[1..] == v + ds
  {
    assert [ds[0]] + ds[1..] == ds;
  }

  /** Pushing all of `ds` raises each entry's count by its number of occurrences in `ds`. */
  lemma {:induction false} PushAllCounts(st: State, i: nat, ds: seq<Data>)
    requires Valid(st) && LiveAt(st, KArray, i)
    requires forall d :: d in ds ==> HandleLive(st, d)
    ensures forall k, j :: CountAt(PushAll(st, i, ds), k, j) == CountAt(st, k, j) + Occurrences(ds, k, j)
    decreases |ds|
  {
    if |ds| > 0 {
      var st1 := PushProperty(st, i, ds[0]);
      HandlesStayLive(st1, st, ds[1..]);
      PushAllCounts(st1, i, ds[1..]);
      assert PushAll(st, i, ds) == PushAll(st1, i, ds[1..]);
    }
  }

  /**
    `join`: appends every element of array `a` (a snapshot taken first, so
    joining an array with itself doubles it), then drops the moved `a`.
   */
  function Join(st: State, i: nat, a: nat): (r: State)
    requires Valid(st) && LiveAt(st, KArray, i) && LiveAt(st, KArray, a)
    requires forall d :: d in VecOf(st, a) ==> HandleLive(st, d)
    ensures Valid(r) && LiveAt(r, KArray, i)
    ensures VecOf(r, i) == VecOf(st, i) + VecOf(st, a)
    ensures forall k, j :: CountAt(r, k, j) == CountAt(st, k, j) + Occurrences(VecOf(st, a), k, j)
    ensures Queued(r, st, [DArray(a)])
    ensures forall j :: j != i ==> ArrayAt(r, j) == ArrayAt(st, j)
    ensures forall j :: ObjectAt(r, j) == ObjectAt(st, j)
    ensures forall j :: StreamAt(r, j) == StreamAt(st, j)
  {
    var st1 := PushAll(st, i, VecOf(st, a));
    PushAllAppends(st, i, VecOf(st, a));
    PushAllCounts(st, i, VecOf(st, a));
    Release(st1, DArray(a))
  }

  /** The position of the first element `equals` to `b`, if any. */
  function FirstEqual(v: seq<Data>, b: Data): (r: Option<nat>)
    ensures r.Some? ==> r.value < |v| && Equals(v[r.value], b)
    ensures r.Some? ==> forall j :: 0 <= j < r.value ==> !Equals(v[j], b)
    ensures r.None? ==> forall j :: 0 <= j < |v| ==> !Equals(v[j], b)
  {
    if |v| == 0 then None
    else if Equals(v[0], b) then Some(0)
    else match FirstEqual(v[1..], b)
      case Some(j) => Some(j + 1)
      case None => None
  }

  /** `index_of`: the position of the first equal element, or -1. */
  method IndexOf(st: State, i: nat, b: Data) returns (r: int)
    requires LiveAt(st, KArray, i)
    ensures -1 <= r < Len(st, i)
    ensures r >= 0 ==> Equals(VecOf(st, i)[r], b) && forall j :: 0 <= j < r ==> !Equals(VecOf(st, i)[j], b)
    ensures r == -1 <==> forall j :: 0 <= j < Len(st, i) ==> !Equals(VecOf(st, i)[j], b)
    ensures r == match FirstEqual(VecOf(st, i), b) case Some(j) => j case None => -1
  {
    var v := VecOf(st, i);
    var n := |v|;
    var k := 0;
    while k < n
      invariant 0 <= k <= n
      invariant forall j :: 0 <= j < k ==> !Equals(v[j], b)
    {
      if Equals(v[k], b) {
        return k;
      }
      k := k + 1;
    }
    return -1;
  }

  /**
    `push_unique`: refuses a value `equals` to an element already present;
    otherwise appends it and raises the count of a handle.
   */
  method PushUnique(st: State, i: nat, b: Data) returns (r: State, pushed: bool)
    requires Valid(st) && LiveAt(st, KArray, i)
    requires FirstEqual(VecOf(st, i), b).None? ==> HandleLive(st, b)
    ensures Valid(r) && LiveAt(r, KArray, i) && SameQueues(r, st)
    ensures pushed <==> forall j :: 0 <= j < Len(st, i) ==> !Equals(VecOf(st, i)[j], b)
    ensures !pushed ==> r == st
    ensures pushed ==> VecOf(r, i) == VecOf(st, i) + [b]
    ensures forall j :: j != i ==> ArrayAt(r, j) == ArrayAt(st, j)
    ensures forall j :: ObjectAt(r, j) == ObjectAt(st, j)
    ensures forall j :: StreamAt(r, j) == StreamAt(st, j)
    ensures forall k, j :: CountAt(r, k, j) == CountAt(st, k, j) + (if pushed then Bump(b, k, j) else 0)
  {
    var at := IndexOf(st, i, b);
    if at >= 0 {
      return st, false;
    }
    r := PushProperty(st, i, b);
    assert VecOf(r, i) == VecOf(r, i)[..Len(st, i)] + [b];
    pushed := true;
  }

  /**
    `remove_data`: removes only the first element `equals` to `b` and
    queues it; returns false and changes nothing when there is none.
   */
  method RemoveData(st: State, i: nat, b: Data) returns (r: State, removed: bool)
    requires Valid(st) && LiveAt(st, KArray, i)
    ensures Valid(r) && LiveAt(r, KArray, i) && SameCounts(r, st)
    ensures removed <==> FirstEqual(VecOf(st, i), b).Some?
    ensures !removed ==> r == st
    ensures removed ==> var f := FirstEqual(VecOf(st, i), b).value;
      && VecOf(r, i) == VecOf(st, i)[..f] + VecOf(st, i)[f + 1..]
      && Queued(r, st, [VecOf(st, i)[f]])
    ensures forall j :: j != i ==> ArrayAt(r, j) == ArrayAt(st, j)
    ensures forall j :: ObjectAt(r, j) == ObjectAt(st, j)
    ensures forall j :: StreamAt(r, j) == StreamAt(st, j)
  {
    var at := IndexOf(st, i, b);
    if at < 0 {
      return st, false;
    }
    r := RemoveProperty(st, i, at);
    var v := VecOf(st, i);
    assert VecOf(r, i) == v[..at] + v[at + 1..];
    removed := true;
  }
}
