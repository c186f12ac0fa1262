/**
  `DataStream` of src/databytes.rs: a byte buffer with a nominal length, a
  read side and a write side. Writes append while the stream is writable,
  reads consume from the front while it is readable, and a read that drains
  a stream whose write side is closed also closes its read side.
 */
module Streams {
  import opened Outcomes
  import opened Numerals

  /** `NDataError`. */
  datatype NDataError = InvalidBytesRef | StreamNotReadable | StreamNotWritable

  datatype DataStream = DataStream(
    data: seq<u8>,
    len: nat,
    readOpen: bool,
    writeOpen: bool,
    mimeType: Option<string>)

  /** `DataStream::new`: empty, both sides open. */
  function New(): (s: DataStream)
    ensures s.data == [] && s.len == 0
    ensures s.readOpen && s.writeOpen && s.mimeType.None?
  {
    DataStream([], 0, true, true, None)
  }

  /** `DataStream::from_bytes`: a finished stream holding `buf`. */
  function FromBytes(buf: seq<u8>): (s: DataStream)
    ensures s.data == buf && s.len == |buf|
    ensures s.readOpen && !s.writeOpen && s.mimeType.None?
  {
    DataStream(buf, |buf|, true, false, None)
  }

  /** `DataStream::deep_copy`: every field copied. */
  function DeepCopy(s: DataStream): (r: DataStream)
    ensures r == s
  {
    DataStream(s.data, s.len, s.readOpen, s.writeOpen, s.mimeType)
  }

  /** `DataBytes::write` on a live stream: appends only while both sides are open. */
  function Write(s: DataStream, buf: seq<u8>): (r: (DataStream, bool))
    ensures r.1 <==> s.writeOpen && s.readOpen
    ensures r.1 ==> r.0 == s.(data := s.data + buf)
    ensures !r.1 ==> r.0 == s
  {
    if !s.writeOpen || !s.readOpen then (s, false)
    else (s.(data := s.data + buf), true)
  }

  /** `DataBytes::try_write` on a live stream: checks the write side only. */
  function TryWrite(s: DataStream, buf: seq<u8>): (r: Result<DataStream, NDataError>)
    ensures r.Err? <==> !s.writeOpen
    ensures r.Err? ==> r.error == StreamNotWritable
    ensures r.Ok? ==> r.value == s.(data := s.data + buf)
  {
    if !s.writeOpen then Err(StreamNotWritable)
    else Ok(s.(data := s.data + buf))
  }

  function Min(a: nat, b: nat): nat
  {
    if a < b then a else b
  }

  /**
    `DataBytes::read` on a live, readable stream: takes up to `n` bytes from
    the front; the read side closes once a write-closed stream is drained.
   */
  function Read(s: DataStream, n: nat): (r: (DataStream, seq<u8>))
    requires s.readOpen
    ensures |r.1| == Min(n, |s.data|)
    ensures r.1 + r.0.data == s.data
    ensures r.0.readOpen <==> s.writeOpen || |r.0.data| > 0
    ensures r.0.writeOpen == s.writeOpen && r.0.len == s.len && r.0.mimeType == s.mimeType
  {
    var k := Min(n, |s.data|);
    var rest := s.data[k..];
    var closeRead := !s.writeOpen && |rest| == 0;
    assert s.data[..k] + rest == s.data;
    (s.(data := rest, readOpen := if closeRead then false else s.readOpen), s.data[..k])
  }

  /** `DataBytes::try_read` on a live stream: `StreamNotReadable` instead of a panic. */
  function TryRead(s: DataStream, n: nat): (r: Result<(DataStream, seq<u8>), NDataError>)
    ensures r.Err? <==> !s.readOpen
    ensures r.Err? ==> r.error == StreamNotReadable
    ensures r.Ok? ==> r.value == Read(s, n)
  {
    if !s.readOpen then Err(StreamNotReadable) else Ok(Read(s, n))
  }

  /** `set_data`: replaces the content, records its length and closes the write side. */
  function SetData(s: DataStream, buf: seq<u8>): (r: DataStream)
    ensures r.data == buf && r.len == |buf| && !r.writeOpen
    ensures r.readOpen == s.readOpen && r.mimeType == s.mimeType
  {
    s.(data := buf, len := |buf|, writeOpen := false)
  }

  /** `close_write`. */
  function CloseWrite(s: DataStream): (r: DataStream)
    ensures !r.writeOpen && r == s.(writeOpen := false)
  {
    s.(writeOpen := false)
  }

  /** `close_read`. */
  function CloseRead(s: DataStream): (r: DataStream)
    ensures !r.readOpen && r == s.(readOpen := false)
  {
    s.(readOpen := false)
  }

  // ----- Lemmas -----

  /** Reading everything from a stream with its write side closed closes the read side too. */
  lemma DrainClosesRead(s: DataStream)
    requires s.readOpen && !s.writeOpen
    ensures var (r, d) := Read(s, |s.data|); d == s.data && r.data == [] && !r.readOpen
  {
  }

  /** Two reads return what one larger read returns, when the first does not drain the stream. */
  lemma ReadSplit(s: DataStream, n: nat, m: nat)
    requires s.readOpen && n + m <= |s.data| && (s.writeOpen || n < |s.data|)
    ensures var (s1, d1) := Read(s, n);
            s1.readOpen &&
            var (s2, d2) := Read(s1, m);
            d1 + d2 == Read(s, n + m).1 && s2 == Read(s, n + m).0
  {
    var (s1, d1) := Read(s, n);
    assert s1.data == s.data[n..];
    assert s1.data[m..] == s.data[n + m..];
    assert s.data[..n + m] == s.data[..n] + s.data[n..][..m];
  }

  /** Whatever `write` accepts, the following reads return after the earlier content. */
  lemma WriteThenReadAll(s: DataStream, buf: seq<u8>)
    requires s.readOpen && s.writeOpen
    ensures var (w, ok) := Write(s, buf); ok && Read(w, |s.data| + |buf|).1 == s.data + buf
  {
  }

  /** `try_write` accepts a read-closed stream that `write` refuses. */
  lemma TryWriteIgnoresReadSide(s: DataStream, buf: seq<u8>)
    requires s.writeOpen && !s.readOpen
    ensures !Write(s, buf).1 && TryWrite(s, buf).Ok?
  {
  }
}
