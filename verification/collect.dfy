/**
  Deferred collection: `DataObject::delete`, `DataArray::delete`, the three
  `gc` functions and the crate-level `gc` of src/ndata.rs. A `delete` takes
  one reference from an entry; at count 1 it frees the entry and recursively
  deletes the objects and arrays it referred to. A `delete` or a sequence of
  them panics (here: `None`) on an entry that is no longer live.
 */
module Collect {
  import opened Outcomes
  import opened Values
  import opened Stores
  import H = Heaps
  import A = Assoc
  import Objects
  import Arrays
  import Bytes

  /**
    What any sequence of deletes keeps: validity, no count rises, a surviving
    object or array keeps its payload, the bytes heap and the object and
    array queues are untouched, and the bytes queue only grows at its end.
   */
  ghost predicate Shrinks(r: State, st: State)
  {
    && Valid(r)
    && Total(r) <= Total(st)
    && (forall k, j :: CountAt(r, k, j) <= CountAt(st, k, j))
    && (forall j :: ObjectAt(r, j).Some? ==> ObjectAt(r, j) == ObjectAt(st, j))
    && (forall j :: ArrayAt(r, j).Some? ==> ArrayAt(r, j) == ArrayAt(st, j))
    && r.bytes == st.bytes
    && r.odrop == st.odrop && r.adrop == st.adrop
    && st.bdrop <= r.bdrop
  }

  /**
    `DataObject::delete`. At count 1 the Object and Array children are
    snapshotted first, the entry is freed, then the objects and then the
    arrays are deleted. Bytes children are ignored: neither decremented nor
    queued. A dead entry panics inside `Heap::count`.
   */
  function DeleteObject(st: State, i: nat): (r: Option<State>)
    requires Valid(st)
    ensures !LiveAt(st, KObject, i) ==> r.None?
    ensures r.Some? ==> Shrinks(r.value, st) && Total(r.value) < Total(st)
    ensures CountAt(st, KObject, i) > 1 ==> r == Some(DecrHandle(st, DObject(i)))
    ensures CountAt(st, KObject, i) == 1 && r.Some? ==> !LiveAt(r.value, KObject, i)
    ensures CountAt(st, KObject, i) == 1 && r.Some? ==> r.value.bdrop[..|st.bdrop|] == st.bdrop
    ensures (CountAt(st, KObject, i) == 1 && r.Some? ==>
      var vals := A.Values(Objects.MapOf(st, i));
      Total(r.value) + 1 + |Handles(vals, KObject)| + |Handles(vals, KArray)| <= Total(st))
    decreases Total(st), 0
  {
    if !LiveAt(st, KObject, i) then None
    else
      DecrHandleTotal(st, DObject(i));
      var st1 := DecrHandle(st, DObject(i));
      if CountAt(st, KObject, i) > 1 then Some(st1)
      else
        var vals := A.Values(Objects.MapOf(st, i));
        match DeleteObjects(st1, Handles(vals, KObject))
        case None => None
        case Some(st2) => DeleteArrays(st2, Handles(vals, KArray))
  }

  /**
    `DataArray::delete`. At count 1 every Bytes child is queued on the bytes
    queue (a temporary `DataBytes` is dropped), the entry is freed, then the
    Object children and then the Array children are deleted.
   */
  function DeleteArray(st: State, i: nat): (r: Option<State>)
    requires Valid(st)
    ensures !LiveAt(st, KArray, i) ==> r.None?
    ensures r.Some? ==> Shrinks(r.value, st) && Total(r.value) < Total(st)
    ensures CountAt(st, KArray, i) > 1 ==> r == Some(DecrHandle(st, DArray(i)))
    ensures CountAt(st, KArray, i) == 1 && r.Some? ==> !LiveAt(r.value, KArray, i)
    ensures (CountAt(st, KArray, i) == 1 && r.Some? ==>
      st.bdrop + Handles(Arrays.VecOf(st, i), KBytes) <= r.value.bdrop)
    ensures (CountAt(st, KArray, i) == 1 && r.Some? ==>
      var vec := Arrays.VecOf(st, i);
      Total(r.value) + 1 + |Handles(vec, KObject)| + |Handles(vec, KArray)| <= Total(st))
    decreases Total(st), 0
  {
    if !LiveAt(st, KArray, i) then None
    else if CountAt(st, KArray, i) > 1 then
      DecrHandleTotal(st, DArray(i));
      Some(DecrHandle(st, DArray(i)))
    else
      var vec := Arrays.VecOf(st, i);
      var st1 := DecrHandle(QueueBytes(st, vec), DArray(i));
      FreeArrayShrinks(st, i, vec);
      match DeleteObjects(st1, Handles(vec, KObject))
      case None => None
      case Some(st2) =>
        var r := DeleteArrays(st2, Handles(vec, KArray));
        if r.Some? then
          ShrinksTrans(r.value, st2, st1);
          ShrinksTrans(r.value, st1, st);
          r
        else r
  }

  /** The queueing of the Bytes children by `DataArray::delete`. */
  function QueueBytes(st: State, vec: seq<Data>): (r: State)
    ensures r == st.(bdrop := st.bdrop + Handles(vec, KBytes))
  {
    st.(bdrop := st.bdrop + Handles(vec, KBytes))
  }

  /** `DataObject::delete` on each index in turn; a panic stops the sequence. */
  function DeleteObjects(st: State, xs: seq<nat>): (r: Option<State>)
    requires Valid(st)
    ensures r.Some? ==> Shrinks(r.value, st) && Total(r.value) + |xs| <= Total(st)
    ensures |xs| == 0 ==> r == Some(st)
    decreases Total(st), |xs| + 1
  {
    if |xs| == 0 then Some(st)
    else match DeleteObject(st, xs[0])
      case None => None
      case Some(st1) => DeleteObjects(st1, xs[1..])
  }

  /** `DataArray::delete` on each index in turn; a panic stops the sequence. */
  function DeleteArrays(st: State, xs: seq<nat>): (r: Option<State>)
    requires Valid(st)
    ensures r.Some? ==> Shrinks(r.value, st) && Total(r.value) + |xs| <= Total(st)
    ensures |xs| == 0 ==> r == Some(st)
    decreases Total(st), |xs| + 1
  {
    if |xs| == 0 then Some(st)
    else match DeleteArray(st, xs[0])
      case None => None
      case Some(st1) => DeleteArrays(st1, xs[1..])
  }

  /** `DataObject::gc`: drains the object queue, deleting once per queued index. */
  function ObjectGc(st: State): (r: Option<State>)
    requires Valid(st)
    ensures r.Some? ==> Valid(r.value) && r.value.odrop == [] && r.value.adrop == st.adrop
    ensures r.Some? ==> Total(r.value) + |st.odrop| <= Total(st)
    ensures r.Some? ==> Shrinks(r.value, st.(odrop := []))
    ensures st.odrop == [] ==> r == Some(st)
  {
    match DeleteObjects(st.(odrop := []), st.odrop)
    case None => None
    case Some(s) => Some(s)
  }

  /** `DataArray::gc`: drains the array queue front to back, deleting once per queued index. */
  function ArrayGc(st: State): (r: Option<State>)
    requires Valid(st)
    ensures r.Some? ==> Valid(r.value) && r.value.adrop == [] && r.value.odrop == st.odrop
    ensures r.Some? ==> Total(r.value) + |st.adrop| <= Total(st)
    ensures r.Some? ==> Shrinks(r.value, st.(adrop := []))
    ensures st.adrop == [] ==> r == Some(st)
  {
    match DeleteArrays(st.(adrop := []), st.adrop)
    case None => None
    case Some(s) => Some(s)
  }

  /**
    The object and then the array phase of the crate-level `gc`: both
    queues drained, the bytes heap untouched, and the bytes queue grown at
    its end by the Bytes children of the arrays freed.
   */
  function HeapPhases(st: State): (r: Option<State>)
    requires Valid(st)
    ensures r.Some? ==> r.value.odrop == [] && r.value.adrop == []
    ensures r.Some? ==> Shrinks(r.value, st.(odrop := [], adrop := []))
    ensures r.Some? ==> Total(r.value) + |st.odrop| + |st.adrop| <= Total(st)
  {
    match ObjectGc(st)
    case None => None
    case Some(s1) =>
      match ArrayGc(s1)
      case None => None
      case Some(s2) =>
        PhasesShrink(st, s1, s2);
        Some(s2)
  }

  /** The two phases compose: the array phase shrinks what the object phase left. */
  lemma PhasesShrink(st: State, s1: State, s2: State)
    requires Shrinks(s1, st.(odrop := [])) && Shrinks(s2, s1.(adrop := []))
    ensures Shrinks(s2, st.(odrop := [], adrop := []))
  {
    var so := st.(odrop := []);
    ShrinksClearArrays(s1, so);
    assert so.(adrop := []) == st.(odrop := [], adrop := []);
    ShrinksTrans(s2, s1.(adrop := []), so.(adrop := []));
  }

  /** Emptying the array queue on both sides keeps a shrinking step. */
  lemma ShrinksClearArrays(r: State, st: State)
    requires Shrinks(r, st)
    ensures Shrinks(r.(adrop := []), st.(adrop := []))
  {
    var r1, st1 := r.(adrop := []), st.(adrop := []);
    assert r1.objects == r.objects && r1.arrays == r.arrays && r1.bytes == r.bytes;
    assert st1.objects == st.objects && st1.arrays == st.arrays && st1.bytes == st.bytes;
    SameHeaps(r1, r);
    SameHeaps(st1, st);
  }

  /**
    The crate-level `gc`: objects, then arrays, then bytes, so the bytes an
    array deletion queues are decremented by the same call. Every queue is
    empty afterwards, no count rises, every surviving entry keeps its
    payload, and each bytes entry loses one reference per occurrence in the
    bytes queue as the array phase left it.
   */
  function Gc(st: State): (r: Option<State>)
    requires Valid(st)
    ensures r.Some? ==> Valid(r.value) && r.value.odrop == [] && r.value.adrop == [] && r.value.bdrop == []
    ensures r.Some? ==> Total(r.value) + |st.odrop| + |st.adrop| <= Total(st)
    ensures r.Some? ==> forall k, j :: CountAt(r.value, k, j) <= CountAt(st, k, j)
    ensures r.Some? ==> forall j :: ObjectAt(r.value, j).Some? ==> ObjectAt(r.value, j) == ObjectAt(st, j)
    ensures r.Some? ==> forall j :: ArrayAt(r.value, j).Some? ==> ArrayAt(r.value, j) == ArrayAt(st, j)
    ensures r.Some? ==> forall j :: StreamAt(r.value, j).Some? ==> StreamAt(r.value, j) == StreamAt(st, j)
    ensures r.Some? ==> HeapPhases(st).Some? && var q := HeapPhases(st).value.bdrop;
      && st.bdrop <= q
      && forall j :: (CountAt(r.value, KBytes, j)
        == if CountAt(st, KBytes, j) > Bytes.Occurrences(q, j) then CountAt(st, KBytes, j) - Bytes.Occurrences(q, j) else 0)
  {
    match HeapPhases(st)
    case None => None
    case Some(s2) =>
      BytesPhase(st, s2);
      Some(Bytes.Gc(s2))
  }

  /** Draining the bytes queue after the two heap phases keeps what they promised. */
  lemma BytesPhase(st: State, s2: State)
    requires Valid(st) && Shrinks(s2, st.(odrop := [], adrop := []))
    ensures var r := Bytes.Gc(s2);
      && Total(r) == Total(s2)
      && (forall k, j :: CountAt(r, k, j) <= CountAt(st, k, j))
      && (forall j :: ObjectAt(r, j).Some? ==> ObjectAt(r, j) == ObjectAt(st, j))
      && (forall j :: ArrayAt(r, j).Some? ==> ArrayAt(r, j) == ArrayAt(st, j))
      && (forall j :: StreamAt(r, j).Some? ==> StreamAt(r, j) == StreamAt(st, j))
      && forall j :: (CountAt(r, KBytes, j)
        == if CountAt(st, KBytes, j) > Bytes.Occurrences(s2.bdrop, j) then CountAt(st, KBytes, j) - Bytes.Occurrences(s2.bdrop, j) else 0)
  {
    var r := Bytes.Gc(s2);
    var st0 := st.(odrop := [], adrop := []);
    assert st0.objects == st.objects && st0.arrays == st.arrays && st0.bytes == st.bytes;
    SameHeaps(st0, st);
    forall k, j ensures CountAt(r, k, j) <= CountAt(st, k, j) {
      if k != KBytes {
        assert CountAt(r, k, j) == CountAt(s2, k, j);
      }
    }
  }

  // ----- Lemmas -----

  /** Two shrinking steps make one. */
  lemma ShrinksTrans(r: State, m: State, st: State)
    requires Shrinks(r, m) && Shrinks(m, st)
    ensures Shrinks(r, st)
  {
  }

  /** Queueing the Bytes children and freeing an array at count 1 shrinks the state. */
  lemma FreeArrayShrinks(st: State, i: nat, vec: seq<Data>)
    requires Valid(st) && CountAt(st, KArray, i) == 1
    ensures var st1 := DecrHandle(QueueBytes(st, vec), DArray(i));
      && Shrinks(st1, st) && Total(st1) < Total(st) && !LiveAt(st1, KArray, i)
      && st1.bdrop == st.bdrop + Handles(vec, KBytes)
  {
    DecrHandleTotal(QueueBytes(st, vec), DArray(i));
  }

  /**
    An array holding one bytes handle, both referenced once and the array
    queued: one `gc` frees both, the bytes through the queue the array
    deletion fills.
   */
  lemma ArrayThenBytesInOneGc(st: State, a: nat, b: nat)
    requires Valid(st) && st.odrop == [] && st.adrop == [a] && st.bdrop == []
    requires ArrayAt(st, a) == Some([DBytes(b)])
    requires CountAt(st, KArray, a) == 1 && CountAt(st, KBytes, b) == 1
    ensures Gc(st).Some?
    ensures !LiveAt(Gc(st).value, KArray, a) && !LiveAt(Gc(st).value, KBytes, b)
  {
    var vec := [DBytes(b)];
    assert Handles(vec, KBytes) == [b];
    assert Handles(vec, KObject) == [] && Handles(vec, KArray) == [];
    var s0 := st.(adrop := []);
    assert ObjectGc(st) == Some(st);
    var s1 := DeleteArray(s0, a);
    assert s1.Some? && s1.value.bdrop == [b];
    assert DeleteArrays(s0, [a]) == s1;
    assert ArrayGc(st) == s1;
    assert CountAt(s1.value, KBytes, b) == 1;
    assert Bytes.Occurrences([b], b) == 1;
    assert CountAt(Bytes.Gc(s1.value), KBytes, b) == 0;
  }

  /**
    An object queued with count 1 that holds the only reference to an empty
    array: one `gc` frees both, the array through the recursive delete of
    the object's children.
   */
  lemma ObjectThenChildInOneGc(st: State, x: nat, key: string, a: nat)
    requires Valid(st) && st.odrop == [x] && st.adrop == [] && st.bdrop == []
    requires ObjectAt(st, x) == Some([(key, DArray(a))]) && ArrayAt(st, a) == Some([])
    requires CountAt(st, KObject, x) == 1 && CountAt(st, KArray, a) == 1
    ensures Gc(st).Some?
    ensures !LiveAt(Gc(st).value, KObject, x) && !LiveAt(Gc(st).value, KArray, a)
  {
    var s0 := st.(odrop := []);
    var vals := A.Values(Objects.MapOf(s0, x));
    assert vals == [DArray(a)];
    assert Handles(vals, KObject) == [] && Handles(vals, KArray) == [a];
    var s1 := DecrHandle(s0, DObject(x));
    assert CountAt(s1, KArray, a) == 1 && ArrayAt(s1, a) == Some([]);
    var s2 := DeleteArray(s1, a);
    assert s2.Some? && !LiveAt(s2.value, KArray, a);
    assert DeleteArrays(s1, [a]) == s2;
    assert DeleteObject(s0, x) == s2;
    assert DeleteObjects(s0, [x]) == s2;
    assert ObjectGc(st) == s2;
    assert ArrayGc(s2.value) == s2;
  }

  /**
    Two objects referring to each other, one of them also held by a handle
    that is dropped: `gc` only decrements, and both stay alive with
    count 1, still referring to each other. Cycles are never collected.
   */
  lemma CycleSurvivesGc(st: State, x: nat, y: nat)
    requires Valid(st) && st.odrop == [x] && st.adrop == [] && st.bdrop == []
    requires LiveAt(st, KObject, x) && LiveAt(st, KObject, y) && x != y
    requires DObject(y) in A.Values(Objects.MapOf(st, x))
    requires DObject(x) in A.Values(Objects.MapOf(st, y))
    requires CountAt(st, KObject, x) == 2 && CountAt(st, KObject, y) == 1
    ensures Gc(st).Some?
    ensures CountAt(Gc(st).value, KObject, x) == 1 && CountAt(Gc(st).value, KObject, y) == 1
    ensures ObjectAt(Gc(st).value, x) == ObjectAt(st, x) && ObjectAt(Gc(st).value, y) == ObjectAt(st, y)
  {
    var s0 := st.(odrop := []);
    assert DeleteObjects(s0, [x]) == DeleteObject(s0, x);
  }

  /** No live object or array holds the value `d`. */
  ghost predicate Unreferenced(st: State, d: Data)
  {
    && (forall j :: ObjectAt(st, j).Some? ==> d !in A.Values(ObjectAt(st, j).value))
    && (forall j :: ArrayAt(st, j).Some? ==> d !in ArrayAt(st, j).value)
  }

  /** With only one array queued, and referenced more than once, `gc` only decrements it. */
  lemma GcOneQueuedArray(st: State, a: nat)
    requires Valid(st) && st.odrop == [] && st.adrop == [a] && st.bdrop == []
    requires CountAt(st, KArray, a) > 1
    ensures Gc(st) == Some(DecrHandle(st.(adrop := []), DArray(a)))
  {
    var s1 := st.(adrop := []);
    assert DeleteArrays(s1, [a]) == DeleteArray(s1, a);
  }

  /** An empty array queued twice and referenced twice is freed by one `gc`. */
  lemma GcTwiceQueuedArray(st: State, a: nat)
    requires Valid(st) && st.odrop == [] && st.adrop == [a, a] && st.bdrop == []
    requires CountAt(st, KArray, a) == 2 && ArrayAt(st, a) == Some([])
    ensures Gc(st).Some? && !LiveAt(Gc(st).value, KArray, a)
  {
    var s1 := st.(adrop := []);
    var s2 := DecrHandle(s1, DArray(a));
    assert DeleteArray(s1, a) == Some(s2);
    assert Handles([], KBytes) == [] && Handles([], KObject) == [] && Handles([], KArray) == [];
    var s3 := DeleteArray(s2, a);
    assert s3.Some? && !LiveAt(s3.value, KArray, a);
    assert [a, a][1..] == [a] && [a][1..] == [];
    assert DeleteArrays(s2, [a]) == s3;
    assert DeleteArrays(s1, [a, a]) == s3;
    assert ObjectGc(st) == Some(st);
    assert ArrayGc(st) == s3;
  }

  /**
    The garbage-collection example as written: array `a` is stored under
    the new key "a" of object `o` with `put_array`, and the key is then
    overwritten by an integer.
   */
  function LeakExample(st: State, o: nat, a: nat): (r: State)
    requires Valid(st) && LiveAt(st, KObject, o) && LiveAt(st, KArray, a)
    ensures Valid(r)
  {
    Objects.SetProperty(Objects.PutChildAsWritten(st, o, "a", DArray(a)), o, "a", DInt(42))
  }

  /** The same example with ownership of the argument passed on, as `DataArray::push_array` does. */
  function FixedExample(st: State, o: nat, a: nat): (r: State)
    requires Valid(st) && LiveAt(st, KObject, o) && LiveAt(st, KArray, a)
    ensures Valid(r)
  {
    Objects.SetProperty(Objects.PutChild(st, o, "a", DArray(a)), o, "a", DInt(42))
  }

  /** As written, the example queues the array once but raised its count once. */
  lemma LeakExampleQueues(st: State, o: nat, a: nat)
    requires Valid(st) && st.odrop == [] && st.adrop == [] && st.bdrop == []
    requires LiveAt(st, KObject, o) && !A.ContainsKey(Objects.MapOf(st, o), "a") && LiveAt(st, KArray, a)
    ensures var r := LeakExample(st, o, a);
      && r.odrop == [] && r.bdrop == [] && r.adrop == [a]
      && CountAt(r, KArray, a) == CountAt(st, KArray, a) + 1
  {
    var st1 := Objects.PutChildAsWritten(st, o, "a", DArray(a));
    assert Queued(st1, st, []);
    OneThenTwo(a);
    assert st1.adrop == [];
    OverwriteQueues(st1, o, a);
  }

  /** With ownership passed on, the example queues the array twice. */
  lemma FixedExampleQueues(st: State, o: nat, a: nat)
    requires Valid(st) && st.odrop == [] && st.adrop == [] && st.bdrop == []
    requires LiveAt(st, KObject, o) && !A.ContainsKey(Objects.MapOf(st, o), "a") && LiveAt(st, KArray, a)
    ensures var r := FixedExample(st, o, a);
      && r.odrop == [] && r.bdrop == [] && r.adrop == [a, a]
      && CountAt(r, KArray, a) == CountAt(st, KArray, a) + 1 && ArrayAt(r, a) == ArrayAt(st, a)
  {
    var st1 := Objects.PutChild(st, o, "a", DArray(a));
    NothingReleased(DArray(a));
    QueuedArray(st1, st, a);
    OneThenTwo(a);
    assert st1.adrop == [a];
    OverwriteQueues(st1, o, a);
  }

  /** Overwriting key "a", which holds `DArray(a)`, by an integer queues the array once more. */
  lemma OverwriteQueues(st: State, o: nat, a: nat)
    requires Valid(st) && LiveAt(st, KObject, o)
    requires A.Find(Objects.MapOf(st, o), "a") == Some(DArray(a))
    ensures var r := Objects.SetProperty(st, o, "a", DInt(42));
      && r.odrop == st.odrop && r.bdrop == st.bdrop && r.adrop == st.adrop + [a]
      && CountAt(r, KArray, a) == CountAt(st, KArray, a) && ArrayAt(r, a) == ArrayAt(st, a)
  {
    var r := Objects.SetProperty(st, o, "a", DInt(42));
    assert Released(A.Find(Objects.MapOf(st, o), "a")) == [DArray(a)];
    QueuedArray(r, st, a);
    assert Bump(DInt(42), KArray, a) == 0;
  }

  /** Queueing one array handle grows the array queue only. */
  lemma QueuedArray(r: State, st: State, a: nat)
    requires Queued(r, st, [DArray(a)])
    ensures r.odrop == st.odrop && r.bdrop == st.bdrop && r.adrop == st.adrop + [a]
  {
    assert Handles([DArray(a)], KArray) == [a];
    assert Handles([DArray(a)], KObject) == [] && Handles([DArray(a)], KBytes) == [];
  }

  /** A queue that receives `a` once, then once more. */
  lemma OneThenTwo(a: nat)
    ensures [] + [a] == [a] && [a] + [a] == [a, a]
  {
  }

  /** Nothing replaced, then one value dropped: only that value is queued. */
  lemma NothingReleased(d: Data)
    ensures Released(None) + [d] == [d]
  {
  }

  /** The example as written references the array from nowhere it was not referenced before. */
  lemma LeakExampleUnreferenced(st: State, o: nat, a: nat)
    requires Valid(st) && LiveAt(st, KObject, o) && LiveAt(st, KArray, a)
    requires Unreferenced(st, DArray(a))
    ensures Unreferenced(LeakExample(st, o, a), DArray(a))
  {
    var st1 := Objects.PutChildAsWritten(st, o, "a", DArray(a));
    OverwriteKeepsUnreferenced(st, Objects.SetProperty(st1, o, "a", DInt(42)), o, a);
  }

  /**
    As written, the array (referenced once and by nothing else) survives
    `gc` with count 1 while still referenced by nothing and queued nowhere,
    so no later `gc` reaches it.
   */
  lemma PutArrayLeaks(st: State, o: nat, a: nat)
    requires Valid(st) && st.odrop == [] && st.adrop == [] && st.bdrop == []
    requires LiveAt(st, KObject, o) && !A.ContainsKey(Objects.MapOf(st, o), "a")
    requires CountAt(st, KArray, a) == 1 && Unreferenced(st, DArray(a))
    ensures var g := Gc(LeakExample(st, o, a));
      && g.Some? && CountAt(g.value, KArray, a) == 1 && Unreferenced(g.value, DArray(a))
      && g.value.odrop == [] && g.value.adrop == [] && g.value.bdrop == []
  {
    var st2 := LeakExample(st, o, a);
    LeakExampleQueues(st, o, a);
    LeakExampleUnreferenced(st, o, a);
    GcOneQueuedArray(st2, a);
    UnreferencedFrame(DecrHandle(st2.(adrop := []), DArray(a)), st2, DArray(a));
  }

  /** Overwriting the only key that could hold `DArray(a)` with an integer keeps it unreferenced. */
  lemma OverwriteKeepsUnreferenced(st: State, st2: State, o: nat, a: nat)
    requires Valid(st) && Unreferenced(st, DArray(a))
    requires LiveAt(st, KObject, o) && LiveAt(st2, KObject, o) && A.UniqueKeys(Objects.MapOf(st2, o))
    requires A.Find(Objects.MapOf(st2, o), "a") == Some(DInt(42))
    requires forall k :: k != "a" ==> A.Find(Objects.MapOf(st2, o), k) == A.Find(Objects.MapOf(st, o), k)
    requires forall j :: j != o ==> ObjectAt(st2, j) == ObjectAt(st, j)
    requires forall j :: ArrayAt(st2, j) == ArrayAt(st, j)
    ensures Unreferenced(st2, DArray(a))
  {
    var m, m2 := Objects.MapOf(st, o), Objects.MapOf(st2, o);
    if DArray(a) in A.Values(m2) {
      A.ValueFound(m2, DArray(a));
      var k :| A.Find(m2, k) == Some(DArray(a));
      FoundInValues(m, k, DArray(a));
      assert false;
    }
    forall j | ObjectAt(st2, j).Some?
      ensures DArray(a) !in A.Values(ObjectAt(st2, j).value)
    {
      if j != o {
        assert ObjectAt(st2, j) == ObjectAt(st, j);
      }
    }
  }

  /** Entries that keep their payloads keep `d` unreferenced. */
  lemma UnreferencedFrame(r: State, st: State, d: Data)
    requires Unreferenced(st, d)
    requires forall j :: ObjectAt(r, j).Some? ==> ObjectAt(r, j) == ObjectAt(st, j)
    requires forall j :: ArrayAt(r, j).Some? ==> ArrayAt(r, j) == ArrayAt(st, j)
    ensures Unreferenced(r, d)
  {
  }

  /**
    With ownership passed on, an empty array referenced once and stored by
    the example is freed by the first `gc`.
   */
  lemma PutArrayCorrected(st: State, o: nat, a: nat)
    requires Valid(st) && st.odrop == [] && st.adrop == [] && st.bdrop == []
    requires LiveAt(st, KObject, o) && !A.ContainsKey(Objects.MapOf(st, o), "a")
    requires CountAt(st, KArray, a) == 1 && ArrayAt(st, a) == Some([])
    ensures var g := Gc(FixedExample(st, o, a));
      g.Some? && !LiveAt(g.value, KArray, a)
  {
    FixedExampleQueues(st, o, a);
    GcTwiceQueuedArray(FixedExample(st, o, a), a);
  }

  /** A value found under some key is among the values. */
  lemma FoundInValues(m: A.Entries<Data>, k: string, d: Data)
    requires A.Find(m, k) == Some(d)
    ensures d in A.Values(m)
  {
    var p :| 0 <= p < |m| && m[p] == (k, d);
    assert A.Values(m)[p] == d;
  }
}
