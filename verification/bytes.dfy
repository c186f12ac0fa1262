/**
  `DataBytes` of src/databytes.rs: a handle to an entry of the bytes heap,
  whose payload is a `DataStream`. The panicking accessors require a live
  handle; their `try_` twins report `InvalidBytesRef` instead.
 */
module Bytes {
  import opened Outcomes
  import opened Numerals
  import opened Values
  import opened Stores
  import H = Heaps
  import U = UsizeMaps
  import S = Streams

  /** Pushes a stream as a fresh entry with count 1. */
  function Push(st: State, s: S.DataStream): (r: (State, nat))
    requires Valid(st)
    ensures Valid(r.0) && SameQueues(r.0, st)
    ensures !LiveAt(st, KBytes, r.1)
    ensures StreamAt(r.0, r.1) == Some(s) && CountAt(r.0, KBytes, r.1) == 1
    ensures forall j :: j != r.1 ==> StreamAt(r.0, j) == StreamAt(st, j)
    ensures r.0.objects == st.objects && r.0.arrays == st.arrays
    ensures forall k, j: nat :: k != KBytes || j != r.1 ==> CountAt(r.0, k, j) == CountAt(st, k, j)
  {
    var (h, i) := H.Push(st.bytes, s);
    var r := st.(bytes := h);
    forall j | j != i
      ensures CountAt(r, KBytes, j) == CountAt(st, KBytes, j)
    {
      assert U.Get(h.data, j) == U.Get(st.bytes.data, j);
    }
    (r, i)
  }

  /** `DataBytes::new`: an empty stream with both sides open. */
  function New(st: State): (r: (State, nat))
    requires Valid(st)
    ensures Valid(r.0) && SameQueues(r.0, st) && !LiveAt(st, KBytes, r.1)
    ensures StreamAt(r.0, r.1) == Some(S.New()) && CountAt(r.0, KBytes, r.1) == 1
    ensures forall j :: j != r.1 ==> StreamAt(r.0, j) == StreamAt(st, j)
    ensures r.0.objects == st.objects && r.0.arrays == st.arrays
    ensures forall k, j: nat :: k != KBytes || j != r.1 ==> CountAt(r.0, k, j) == CountAt(st, k, j)
  {
    Push(st, S.New())
  }

  /** `DataBytes::from_bytes`: a finished stream holding `buf`. */
  function FromBytes(st: State, buf: seq<u8>): (r: (State, nat))
    requires Valid(st)
    ensures Valid(r.0) && SameQueues(r.0, st) && !LiveAt(st, KBytes, r.1)
    ensures StreamAt(r.0, r.1) == Some(S.FromBytes(buf)) && CountAt(r.0, KBytes, r.1) == 1
    ensures forall j :: j != r.1 ==> StreamAt(r.0, j) == StreamAt(st, j)
    ensures r.0.objects == st.objects && r.0.arrays == st.arrays
    ensures forall k, j: nat :: k != KBytes || j != r.1 ==> CountAt(r.0, k, j) == CountAt(st, k, j)
  {
    Push(st, S.FromBytes(buf))
  }

  /** The stream of a live entry. */
  function StreamOf(st: State, i: nat): (s: S.DataStream)
    requires LiveAt(st, KBytes, i)
    ensures StreamAt(st, i) == Some(s)
  {
    H.Get(st.bytes, i)
  }

  /** Replaces the stream of a live entry; nothing else changes. */
  function Update(st: State, i: nat, s: S.DataStream): (r: State)
    requires Valid(st) && LiveAt(st, KBytes, i)
    ensures Valid(r) && SameCounts(r, st) && SameQueues(r, st) && LiveAt(r, KBytes, i)
    ensures StreamOf(r, i) == s
    ensures forall j :: j != i ==> StreamAt(r, j) == StreamAt(st, j)
    ensures r.objects == st.objects && r.arrays == st.arrays
  {
    PutStream(st, i, s)
  }

  /** `get_data`: the current content. */
  function GetData(st: State, i: nat): (d: seq<u8>)
    requires LiveAt(st, KBytes, i)
    ensures exists s :: StreamAt(st, i) == Some(s) && s.data == d
  {
    StreamOf(st, i).data
  }

  /**
    `write`: false, with nothing changed, for a dead handle or a stream that
    is not open on both sides; otherwise appends `buf`.
   */
  function Write(st: State, i: nat, buf: seq<u8>): (r: (State, bool))
    requires Valid(st)
    ensures Valid(r.0) && SameCounts(r.0, st) && SameQueues(r.0, st)
    ensures r.1 <==> LiveAt(st, KBytes, i) && StreamOf(st, i).writeOpen && StreamOf(st, i).readOpen
    ensures !r.1 ==> r.0 == st
    ensures r.1 ==> LiveAt(r.0, KBytes, i) && StreamOf(r.0, i) == StreamOf(st, i).(data := GetData(st, i) + buf)
    ensures forall j :: j != i ==> StreamAt(r.0, j) == StreamAt(st, j)
    ensures r.0.objects == st.objects && r.0.arrays == st.arrays
  {
    if !LiveAt(st, KBytes, i) then (st, false)
    else
      var (s, ok) := S.Write(StreamOf(st, i), buf);
      if ok then (Update(st, i, s), true) else (st, false)
  }

  /**
    `read`: panics on a dead handle or a closed read side; otherwise takes up
    to `n` bytes from the front.
   */
  function Read(st: State, i: nat, n: nat): (r: (State, seq<u8>))
    requires Valid(st) && LiveAt(st, KBytes, i) && StreamOf(st, i).readOpen
    ensures Valid(r.0) && SameCounts(r.0, st) && SameQueues(r.0, st) && LiveAt(r.0, KBytes, i)
    ensures |r.1| == S.Min(n, |GetData(st, i)|)
    ensures r.1 + GetData(r.0, i) == GetData(st, i)
    ensures StreamOf(r.0, i).readOpen <==> StreamOf(st, i).writeOpen || |GetData(r.0, i)| > 0
    ensures StreamOf(r.0, i).writeOpen == StreamOf(st, i).writeOpen
    ensures StreamOf(r.0, i).len == StreamOf(st, i).len
    ensures StreamOf(r.0, i).mimeType == StreamOf(st, i).mimeType
    ensures forall j :: j != i ==> StreamAt(r.0, j) == StreamAt(st, j)
    ensures r.0.objects == st.objects && r.0.arrays == st.arrays
  {
    var (s, d) := S.Read(StreamOf(st, i), n);
    (Update(st, i, s), d)
  }

  /** `set_data`: replaces the content, records its length and closes the write side. */
  function SetData(st: State, i: nat, buf: seq<u8>): (r: State)
    requires Valid(st) && LiveAt(st, KBytes, i)
    ensures Valid(r) && LiveAt(r, KBytes, i)
    ensures GetData(r, i) == buf && StreamOf(r, i).len == |buf| && !StreamOf(r, i).writeOpen
    ensures StreamOf(r, i).readOpen == StreamOf(st, i).readOpen
    ensures StreamOf(r, i).mimeType == StreamOf(st, i).mimeType
    ensures SameCounts(r, st) && SameQueues(r, st)
    ensures forall j :: j != i ==> StreamAt(r, j) == StreamAt(st, j)
    ensures r.objects == st.objects && r.arrays == st.arrays
  {
    Update(st, i, S.SetData(StreamOf(st, i), buf))
  }

  /** `current_len`: the number of bytes not yet read. */
  function CurrentLen(st: State, i: nat): (n: nat)
    requires LiveAt(st, KBytes, i)
    ensures n == |GetData(st, i)|
  {
    |StreamOf(st, i).data|
  }

  /** `stream_len`: the nominal length, independent of what has been read. */
  function StreamLen(st: State, i: nat): (n: nat)
    requires LiveAt(st, KBytes, i)
    ensures n == StreamOf(st, i).len
  {
    StreamOf(st, i).len
  }

  /** `set_stream_len`: only the nominal length changes. */
  function SetStreamLen(st: State, i: nat, n: nat): (r: State)
    requires Valid(st) && LiveAt(st, KBytes, i)
    ensures Valid(r) && LiveAt(r, KBytes, i)
    ensures StreamOf(r, i) == StreamOf(st, i).(len := n)
    ensures SameCounts(r, st) && SameQueues(r, st)
    ensures forall j :: j != i ==> StreamAt(r, j) == StreamAt(st, j)
    ensures r.objects == st.objects && r.arrays == st.arrays
  {
    Update(st, i, StreamOf(st, i).(len := n))
  }

  /** `close_write`: only the write side changes. */
  function CloseWrite(st: State, i: nat): (r: State)
    requires Valid(st) && LiveAt(st, KBytes, i)
    ensures Valid(r) && LiveAt(r, KBytes, i)
    ensures StreamOf(r, i) == StreamOf(st, i).(writeOpen := false)
    ensures SameCounts(r, st) && SameQueues(r, st)
    ensures forall j :: j != i ==> StreamAt(r, j) == StreamAt(st, j)
    ensures r.objects == st.objects && r.arrays == st.arrays
  {
    Update(st, i, S.CloseWrite(StreamOf(st, i)))
  }

  /** `close_read`: only the read side changes. */
  function CloseRead(st: State, i: nat): (r: State)
    requires Valid(st) && LiveAt(st, KBytes, i)
    ensures Valid(r) && LiveAt(r, KBytes, i)
    ensures StreamOf(r, i) == StreamOf(st, i).(readOpen := false)
    ensures SameCounts(r, st) && SameQueues(r, st)
    ensures forall j :: j != i ==> StreamAt(r, j) == StreamAt(st, j)
    ensures r.objects == st.objects && r.arrays == st.arrays
  {
    Update(st, i, S.CloseRead(StreamOf(st, i)))
  }

  /** `set_mime_type`. */
  function SetMimeType(st: State, i: nat, mime: Option<string>): (r: State)
    requires Valid(st) && LiveAt(st, KBytes, i)
    ensures Valid(r) && LiveAt(r, KBytes, i)
    ensures StreamOf(r, i) == StreamOf(st, i).(mimeType := mime)
    ensures SameCounts(r, st) && SameQueues(r, st)
    ensures forall j :: j != i ==> StreamAt(r, j) == StreamAt(st, j)
    ensures r.objects == st.objects && r.arrays == st.arrays
  {
    Update(st, i, StreamOf(st, i).(mimeType := mime))
  }

  /**
    `to_hex_string`: two upper-case hex digits per unread byte, separated by
    single spaces.
   */
  function ToHexString(st: State, i: nat): (s: string)
    requires LiveAt(st, KBytes, i)
    ensures |GetData(st, i)| == 0 ==> s == []
    ensures |GetData(st, i)| > 0 ==> |s| == 3 * |GetData(st, i)| - 1
    ensures forall j :: 0 <= j < |GetData(st, i)| ==> PairAt(s, j) == HexByte(GetData(st, i)[j])
  {
    var d := GetData(st, i);
    HexStringPairs(d);
    HexString(d)
  }

  /** `deep_copy`: a fresh entry holding a copy of the stream, with count 1. */
  function DeepCopy(st: State, i: nat): (r: (State, nat))
    requires Valid(st) && LiveAt(st, KBytes, i)
    ensures Valid(r.0) && SameQueues(r.0, st) && r.1 != i && LiveAt(r.0, KBytes, i)
    ensures StreamAt(r.0, r.1) == StreamAt(st, i) && CountAt(r.0, KBytes, r.1) == 1
    ensures StreamAt(r.0, i) == StreamAt(st, i)
    ensures forall j :: j != r.1 ==> StreamAt(r.0, j) == StreamAt(st, j)
    ensures r.0.objects == st.objects && r.0.arrays == st.arrays
    ensures forall k, j: nat :: k != KBytes || j != r.1 ==> CountAt(r.0, k, j) == CountAt(st, k, j)
  {
    Push(st, S.DeepCopy(StreamOf(st, i)))
  }

  // ----- The `try_` variants: `InvalidBytesRef` for a dead handle -----

  /** `try_get_data`. */
  function TryGetData(st: State, i: nat): (r: Result<seq<u8>, S.NDataError>)
    ensures r.Err? <==> !LiveAt(st, KBytes, i)
    ensures r.Err? ==> r.error == S.InvalidBytesRef
    ensures r.Ok? ==> r.value == GetData(st, i)
  {
    if !LiveAt(st, KBytes, i) then Err(S.InvalidBytesRef) else Ok(GetData(st, i))
  }

  /** `try_write`: unlike `write`, only the write side is checked. */
  function TryWrite(st: State, i: nat, buf: seq<u8>): (r: Result<State, S.NDataError>)
    requires Valid(st)
    ensures !LiveAt(st, KBytes, i) ==> r == Err(S.InvalidBytesRef)
    ensures LiveAt(st, KBytes, i) && !StreamOf(st, i).writeOpen ==> r == Err(S.StreamNotWritable)
    ensures r.Ok? <==> LiveAt(st, KBytes, i) && StreamOf(st, i).writeOpen
    ensures r.Ok? ==> Valid(r.value) && SameCounts(r.value, st) && LiveAt(r.value, KBytes, i)
    ensures r.Ok? ==> StreamOf(r.value, i) == StreamOf(st, i).(data := GetData(st, i) + buf)
    ensures r.Ok? ==> SameQueues(r.value, st) && forall j :: j != i ==> StreamAt(r.value, j) == StreamAt(st, j)
    ensures r.Ok? ==> r.value.objects == st.objects && r.value.arrays == st.arrays
  {
    if !LiveAt(st, KBytes, i) then Err(S.InvalidBytesRef)
    else match S.TryWrite(StreamOf(st, i), buf)
      case Err(e) => Err(e)
      case Ok(s) => Ok(Update(st, i, s))
  }

  /** `try_read`: `StreamNotReadable` where `read` would panic. */
  function TryRead(st: State, i: nat, n: nat): (r: Result<(State, seq<u8>), S.NDataError>)
    requires Valid(st)
    ensures !LiveAt(st, KBytes, i) ==> r == Err(S.InvalidBytesRef)
    ensures LiveAt(st, KBytes, i) && !StreamOf(st, i).readOpen ==> r == Err(S.StreamNotReadable)
    ensures LiveAt(st, KBytes, i) && StreamOf(st, i).readOpen ==> r == Ok(Read(st, i, n))
  {
    if !LiveAt(st, KBytes, i) then Err(S.InvalidBytesRef)
    else if !StreamOf(st, i).readOpen then Err(S.StreamNotReadable)
    else Ok(Read(st, i, n))
  }

  /** `try_set_data`. */
  function TrySetData(st: State, i: nat, buf: seq<u8>): (r: Result<State, S.NDataError>)
    requires Valid(st)
    ensures r.Err? <==> !LiveAt(st, KBytes, i)
    ensures r.Err? ==> r.error == S.InvalidBytesRef
    ensures r.Ok? ==> r.value == SetData(st, i, buf)
  {
    if !LiveAt(st, KBytes, i) then Err(S.InvalidBytesRef) else Ok(SetData(st, i, buf))
  }

  /** `try_current_len`. */
  function TryCurrentLen(st: State, i: nat): (r: Result<nat, S.NDataError>)
    ensures r.Err? <==> !LiveAt(st, KBytes, i)
    ensures r.Err? ==> r.error == S.InvalidBytesRef
    ensures r.Ok? ==> r.value == CurrentLen(st, i)
  {
    if !LiveAt(st, KBytes, i) then Err(S.InvalidBytesRef) else Ok(CurrentLen(st, i))
  }

  /** `try_stream_len`. */
  function TryStreamLen(st: State, i: nat): (r: Result<nat, S.NDataError>)
    ensures r.Err? <==> !LiveAt(st, KBytes, i)
    ensures r.Err? ==> r.error == S.InvalidBytesRef
    ensures r.Ok? ==> r.value == StreamLen(st, i)
  {
    if !LiveAt(st, KBytes, i) then Err(S.InvalidBytesRef) else Ok(StreamLen(st, i))
  }

  /** `try_set_stream_len`. */
  function TrySetStreamLen(st: State, i: nat, n: nat): (r: Result<State, S.NDataError>)
    requires Valid(st)
    ensures r.Err? <==> !LiveAt(st, KBytes, i)
    ensures r.Err? ==> r.error == S.InvalidBytesRef
    ensures r.Ok? ==> r.value == SetStreamLen(st, i, n)
  {
    if !LiveAt(st, KBytes, i) then Err(S.InvalidBytesRef) else Ok(SetStreamLen(st, i, n))
  }

  /** `try_is_write_open`. */
  function TryIsWriteOpen(st: State, i: nat): (r: Result<bool, S.NDataError>)
    ensures r.Err? <==> !LiveAt(st, KBytes, i)
    ensures r.Err? ==> r.error == S.InvalidBytesRef
    ensures r.Ok? ==> r.value == StreamOf(st, i).writeOpen
  {
    if !LiveAt(st, KBytes, i) then Err(S.InvalidBytesRef) else Ok(StreamOf(st, i).writeOpen)
  }

  /** `try_is_read_open`. */
  function TryIsReadOpen(st: State, i: nat): (r: Result<bool, S.NDataError>)
    ensures r.Err? <==> !LiveAt(st, KBytes, i)
    ensures r.Err? ==> r.error == S.InvalidBytesRef
    ensures r.Ok? ==> r.value == StreamOf(st, i).readOpen
  {
    if !LiveAt(st, KBytes, i) then Err(S.InvalidBytesRef) else Ok(StreamOf(st, i).readOpen)
  }

  /** `try_close_write`. */
  function TryCloseWrite(st: State, i: nat): (r: Result<State, S.NDataError>)
    requires Valid(st)
    ensures r.Err? <==> !LiveAt(st, KBytes, i)
    ensures r.Err? ==> r.error == S.InvalidBytesRef
    ensures r.Ok? ==> r.value == CloseWrite(st, i)
  {
    if !LiveAt(st, KBytes, i) then Err(S.InvalidBytesRef) else Ok(CloseWrite(st, i))
  }

  /** `try_close_read`. */
  function TryCloseRead(st: State, i: nat): (r: Result<State, S.NDataError>)
    requires Valid(st)
    ensures r.Err? <==> !LiveAt(st, KBytes, i)
    ensures r.Err? ==> r.error == S.InvalidBytesRef
    ensures r.Ok? ==> r.value == CloseRead(st, i)
  {
    if !LiveAt(st, KBytes, i) then Err(S.InvalidBytesRef) else Ok(CloseRead(st, i))
  }

  /** `try_set_mime_type`. */
  function TrySetMimeType(st: State, i: nat, mime: Option<string>): (r: Result<State, S.NDataError>)
    requires Valid(st)
    ensures r.Err? <==> !LiveAt(st, KBytes, i)
    ensures r.Err? ==> r.error == S.InvalidBytesRef
    ensures r.Ok? ==> r.value == SetMimeType(st, i, mime)
  {
    if !LiveAt(st, KBytes, i) then Err(S.InvalidBytesRef) else Ok(SetMimeType(st, i, mime))
  }

  /** `try_get_mime_type`. */
  function TryGetMimeType(st: State, i: nat): (r: Result<Option<string>, S.NDataError>)
    ensures r.Err? <==> !LiveAt(st, KBytes, i)
    ensures r.Err? ==> r.error == S.InvalidBytesRef
    ensures r.Ok? ==> r.value == StreamOf(st, i).mimeType
  {
    if !LiveAt(st, KBytes, i) then Err(S.InvalidBytesRef) else Ok(StreamOf(st, i).mimeType)
  }

  // ----- Collection -----

  /** How often `j` occurs in `xs`. */
  function Occurrences(xs: seq<nat>, j: nat): nat
  {
    if |xs| == 0 then 0 else (if xs[0] == j then 1 else 0) + Occurrences(xs[1..], j)
  }

  /** Decrements each still-live entry named in `xs`, in order, skipping dead ones. */
  function DecrAll(st: State, xs: seq<nat>): (r: State)
    requires Valid(st)
    ensures Valid(r) && SameQueues(r, st)
    ensures r.objects == st.objects && r.arrays == st.arrays
    ensures forall j :: (CountAt(r, KBytes, j)
      == if CountAt(st, KBytes, j) > Occurrences(xs, j) then CountAt(st, KBytes, j) - Occurrences(xs, j) else 0)
    ensures forall j :: StreamAt(r, j).Some? ==> StreamAt(r, j) == StreamAt(st, j)
    decreases |xs|
  {
    if |xs| == 0 then st
    else
      var st1 := if LiveAt(st, KBytes, xs[0]) then DecrHandle(st, DBytes(xs[0])) else st;
      DecrAll(st1, xs[1..])
  }

  /**
    `DataBytes::gc`: drains the bytes queue, decrementing each still-live
    entry once per occurrence and skipping entries already freed.
   */
  function Gc(st: State): (r: State)
    requires Valid(st)
    ensures Valid(r) && r.bdrop == [] && r.odrop == st.odrop && r.adrop == st.adrop
    ensures r.objects == st.objects && r.arrays == st.arrays
    ensures forall j :: (CountAt(r, KBytes, j)
      == if CountAt(st, KBytes, j) > Occurrences(st.bdrop, j) then CountAt(st, KBytes, j) - Occurrences(st.bdrop, j) else 0)
    ensures forall j :: StreamAt(r, j).Some? ==> StreamAt(r, j) == StreamAt(st, j)
  {
    DecrAll(st.(bdrop := []), st.bdrop)
  }

  // ----- Lemmas -----

  /** A stream written while open reads back everything written after its earlier content. */
  lemma WriteThenRead(st: State, i: nat, buf: seq<u8>)
    requires Valid(st) && LiveAt(st, KBytes, i)
    requires StreamOf(st, i).readOpen && StreamOf(st, i).writeOpen
    ensures var (w, ok) := Write(st, i, buf);
      ok && Read(w, i, CurrentLen(st, i) + |buf|).1 == GetData(st, i) + buf
  {
  }

  /** A bytes handle released once more than it was referenced is freed by one `gc`. */
  lemma ReleaseFreesUnshared(st: State, i: nat)
    requires Valid(st) && CountAt(st, KBytes, i) == 1 && st.bdrop == []
    ensures !LiveAt(Gc(Release(st, DBytes(i))), KBytes, i)
  {
  }
}
