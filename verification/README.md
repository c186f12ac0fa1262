# ndata in Dafny

A Dafny model of the core of **ndata**, a Rust crate that keeps dynamically
typed values (`Data`: int, float, string, boolean, null and handles to
Objects, Arrays and Bytes) in three reference-counted heaps that the host
collects by hand with `gc()`.

The model is functional. The crate's global state consists of three heaps and
three pending-decrement ("drop") queues, which the Rust code keeps behind
spin-locked statics. Here that state is one immutable record, `Stores.State`,
and every operation is a pure function from state to state. Dropping a
handle is the explicit step "append its index to its kind's queue", and
`gc` drains the queues through a recursive `delete`. That recursion
terminates because every call consumes one reference count.

Modules, in dependency order:

- `Outcomes`: `Option` and `Result`.
- `Numerals`: `u8`/`u64`/`i64` ranges, upper-case and lower-case
  hexadecimal digits, `from_str_radix(_, 16)`, `{:02X}` bytes, decimal text
  of integers.
- `UsizeMaps` (`src/usizemap.rs`): the slot arena. It holds a sequence of
  optional slots, a LIFO free-list and a live count, and its invariant
  `Valid` is proved preserved by every operation.
- `Heaps` (`src/heap.rs`): payload plus count on top of the arena. `decr` at
  count 1 frees the slot.
- `Values` (`src/data.rs`): the `Data` sum type, `clone`, the `is_*`
  predicates, accessors, `equals`, `type_name_owned` and `Default`. A float
  carries its 64 IEEE bits, and `equals` compares them as `f64 ==` does:
  NaN differs from itself, and +0 equals -0.
- `Assoc`: a `HashMap<String, Data>` as an association list with unique
  keys. The list order is the iteration order.
- `Streams` (`src/databytes.rs`, `DataStream`): the byte stream. Writes
  append while both sides are open; reads consume from the front; the read
  side closes itself once the write side is closed and the data is
  drained.
- `Stores`: the global state and the shared count and queue steps.
- `Objects` (`src/dataobject.rs`), `Arrays` (`src/dataarray.rs`) and
  `Bytes` (`src/databytes.rs`, `DataBytes`): the container operations.
- `Collect`: `DataObject::delete`/`gc`, `DataArray::delete`/`gc`,
  `DataBytes::gc` and the crate-level `gc` ordering of `src/ndata.rs`.
- `JsonEscape`, `JsonParse` and `JsonWrite` (`src/json_util.rs`):
  - string escaping and `unescape` per section 7 of RFC 8259, including
    UTF-16 surrogate pairs;
  - the recursive-descent parser, producing an abstract `Json` tree with
    the crate's own error variants;
  - the writer over the store.

  The parser keeps the crate's deviations from RFC 8259: a leading minus
  is refused, a signed exponent is cut after its sign, and leading zeros
  are accepted.
- `Config` (`src/ndata.rs`, `NDataConfig`): twelve `u64` words as 192
  upper-case hexadecimal characters, and back.

Panics of the source become `requires` clauses: a non-live index, a missing
key, an index out of range, a read on a closed stream. Conditions the source
reports as values become `Option`/`Result` results: `try_*`, the parser's
`ParseError`, `UsizeMap::get`, and a `delete` that would panic.

Reference cycles are never collected. `delete` frees an entry only when
its count is exactly 1 as it is processed (src/dataobject.rs:396,
src/dataarray.rs:484); otherwise it only decrements. Two objects that refer
to each other therefore keep each other alive through every `gc`
(`Collect.CycleSurvivesGc`).

## Model

| member | source | states |
|---|---|---|
| `UsizeMaps.New` | src/usizemap.rs:50-56 | a fresh map is well formed, has length 0, an empty free-list and no key |
| `UsizeMaps.Get` | src/usizemap.rs:186-190 | `get` answers `Some` exactly for occupied in-range keys |
| `UsizeMaps.Index` | src/usizemap.rs:466-473 | indexing requires an occupied key (it panics otherwise) and returns what `get` returns |
| `UsizeMaps.Insert` | src/usizemap.rs:112-134 | the element is stored under the returned key and the count rises by one; the key is the last freed one (popped) when the free-list is non-empty and the old length otherwise; every other key keeps its value |
| `UsizeMaps.Remove` | src/usizemap.rs:153-168 | returns the old value; afterwards the key is absent and every other key keeps its value; a live key lowers the count by one and is pushed on the free-list; an absent or out-of-range key changes nothing |
| `UsizeMaps.Update` | src/usizemap.rs:211-215 | writing through `get_mut` changes only that key; free-list, count and length are unchanged |
| `UsizeMaps.Clear` | src/usizemap.rs:395-399 | afterwards the map is well formed, empty and has no free keys |
| `UsizeMaps.Keys` | src/usizemap.rs:298-311 | the keys are exactly the occupied indices, in increasing order, as many as there are occupied slots |
| `UsizeMaps.InsertValid` | src/usizemap.rs:112-134 | insert preserves the invariant: free indices are in bounds, address empty slots and are listed once, and the count equals the number of occupied slots |
| `UsizeMaps.RemoveValid` | src/usizemap.rs:153-168 | remove preserves the same invariant |
| `UsizeMaps.UpdateValid` | src/usizemap.rs:211-215 | `get_mut` writes preserve the invariant |
| `UsizeMaps.FreshKeysSequential` | src/usizemap.rs:540-559 | on a fresh map, successive inserts return 0, 1, 2, … |
| `UsizeMaps.RemoveThenInsertReuses` | src/usizemap.rs:615-638 | an insert right after removing a key returns that key |
| `UsizeMaps.ClearThenInsertZero` | src/usizemap.rs:793-815 | after `clear`, the next insert returns 0 and the length is 1 |
| `Heaps.New` | src/heap.rs:40-44 | a fresh heap is well formed and holds no key |
| `Heaps.Push` | src/heap.rs:68-74 | the payload is stored under a key that was not live, with count 1; no other entry changes |
| `Heaps.Get` | src/heap.rs:99-102 | `get` requires a live index and returns the payload `try_get` finds |
| `Heaps.TryGet` | src/heap.rs:126-129 | `try_get` is `None` exactly when the index is not live |
| `Heaps.Count` | src/heap.rs:184-188 | `count` requires a live index; in a well-formed heap it is at least 1, so the count-0 branch of `decr` is unreachable |
| `Heaps.Incr` | src/heap.rs:209-211 | the count of the index rises by exactly one; payloads and all other counts are unchanged |
| `Heaps.Decr` | src/heap.rs:239-267 | at count 1 the entry is freed and its index pushed on the free-list; above 1 the count falls by one and the payload stays; no other entry changes |
| `Heaps.Keys` | src/heap.rs:288-291 | the keys are exactly the live indices, in increasing order |
| `Heaps.DecrTotal` | src/heap.rs:239-267 | every `decr` lowers the sum of all counts by exactly one |
| `Heaps.DecrUndoesIncr` | src/heap.rs:209-267 | `decr` after `incr` restores the heap exactly |
| `Heaps.PushDecrFrees` | src/heap.rs:68-74 | a pushed entry decremented once is gone, and the next push reuses its index |
| `Values.Clone` | src/data.rs:92-101 | `clone` keeps the variant and the payload; a handle copies only its index |
| `Values.ExactlyOneKind` | src/data.rs:106-148 | exactly one `is_*` predicate holds of any value, and `is_number` holds exactly for ints and floats |
| `Values.Int` | src/data.rs:151-153 | `int()` is defined only on `DInt` and returns its payload |
| `Values.Boolean` | src/data.rs:161-163 | `boolean()` is defined only on `DBoolean` and returns its payload |
| `Values.Float` | src/data.rs:156-158 | `float()` is defined only on `DFloat` and returns its payload |
| `Values.Equals` | src/data.rs:204-214 | equal values have the same variant; a non-float equals exactly the identical value, so handles are equal iff their indices are; floats compare as `f64` |
| `Values.EqualsSymmetric` | src/data.rs:204-214 | `equals` is symmetric |
| `Values.EqualsReflexive` | src/data.rs:204-214 | `equals` is reflexive on everything but NaN |
| `Values.IntNeverEqualsFloat` | src/data.rs:204-214 | an int never equals a float, whatever their values |
| `Values.NaNNotEqual` | src/data.rs:204-214 | a NaN is not equal to itself |
| `Values.TypeNameDistinct` | src/data.rs:217-228 | two values get the same type name exactly when they have the same variant, so the eight names are distinct |
| `Values.Default` | src/data.rs:233-235 | the default value is `DNull` |
| `Stores.IncrHandle` | src/dataobject.rs:105-107 | incrementing a handle's target raises exactly that count by one; payloads and queues are unchanged |
| `Stores.DecrHandle` | src/dataobject.rs:109-111 | decrementing a handle's target lowers exactly that count by one, frees the entry at count 1, and leaves other payloads and the queues alone |
| `Stores.Release` | src/dataobject.rs:452-454 | dropping a handle only appends its index to its kind's queue (scalars queue nothing) |
| `Stores.IncrThenDecr` | src/dataobject.rs:105-111 | a decrement after an increment restores every count |
| `Objects.New` | src/dataobject.rs:95-98 | a new object is a live, empty map with count 1, under an index that was not live; nothing else changes |
| `Objects.GetProperty` | src/dataobject.rs:241-250 | `get_property` requires the key and returns the value stored under it, changing no count |
| `Objects.SetProperty` | src/dataobject.rs:289-344 | the key maps to the new value and every other key is unchanged; a handle's target count rises by one; the replaced value, if any, is queued; nothing else changes |
| `Objects.RemoveProperty` | src/dataobject.rs:270-285 | the key is gone and every other key is unchanged; the removed value is queued; an absent key changes nothing |
| `Objects.PutChildAsWritten` | src/dataobject.rs:358-379 | as written, `put_object`/`put_array`/`put_bytes` store the handle and raise its count, and queue nothing for the argument |
| `Objects.PutChild` | src/dataobject.rs:358-379 | with ownership passed on, the argument's handle is also queued, so the net count is unchanged |
| `Arrays.New` | src/dataarray.rs:72-77 | a new array is live, empty and has count 1, under an index that was not live |
| `Arrays.Len` | src/dataarray.rs:196-200 | `len` requires a live array and is the number of its elements |
| `Arrays.GetProperty` | src/dataarray.rs:275-280 | `get_property` requires `id < len` and returns element `id` |
| `Arrays.PushProperty` | src/dataarray.rs:327-341 | the value is appended and earlier elements are unchanged; a handle's target count rises by one; no queue changes |
| `Arrays.PushChild` | src/dataarray.rs:364-381 | `push_object`/`push_array`/`push_bytes` append the argument and raise its count, then queue the argument, which they drop; no other array, object or bytes entry changes |
| `Arrays.SetProperty` | src/dataarray.rs:384-415 | only position `id` changes; the new handle is incremented and the old element is queued |
| `Arrays.PutChild` | src/dataarray.rs:438-450 | `put_object`/`put_array`/`put_bytes` replace element `id` and raise the argument's count, then queue the old element and the dropped argument; no other array, object or bytes entry changes |
| `Arrays.RemoveProperty` | src/dataarray.rs:453-472 | element `id` is removed, later elements shift left by one, and the removed element is queued |
| `Arrays.PushAllCounts` | src/dataarray.rs:320-324 | pushing a sequence raises each count by the number of its occurrences |
| `Arrays.Join` | src/dataarray.rs:320-324 | `join` appends every element of the other array, increments each handle once per occurrence, and queues the other array; no other array, object or bytes entry changes |
| `Arrays.FirstEqual` | src/dataarray.rs:203-214 | the first position whose element `equals` the argument, if any |
| `Arrays.IndexOf` | src/dataarray.rs:203-214 | the smallest position holding an equal element, or -1 exactly when there is none |
| `Arrays.PushUnique` | src/dataarray.rs:217-240 | appends and increments exactly when no element is equal; otherwise the state is unchanged; no queue and no other entry changes |
| `Arrays.RemoveData` | src/dataarray.rs:243-272 | removes the first equal element and queues it, and reports true; otherwise changes nothing and reports false; no count and no other entry changes |
| `Streams.New` | src/databytes.rs:58-66 | a new stream is empty, has length 0, and both sides are open |
| `Streams.FromBytes` | src/databytes.rs:68-77 | holds the buffer, has its length, read side open, write side closed |
| `Streams.DeepCopy` | src/databytes.rs:79-87 | the copy equals the original |
| `Streams.Write` | src/databytes.rs:164-183 | appends exactly when both sides are open; otherwise reports false and changes nothing |
| `Streams.TryWrite` | src/databytes.rs:338-351 | fails, with `StreamNotWritable`, exactly when the write side is closed; it does not look at the read side |
| `Streams.Read` | src/databytes.rs:185-202 | requires an open read side; returns the first `min(n, len)` bytes, which followed by the rest give the old data; the read side closes exactly when the write side is closed and nothing is left |
| `Streams.TryRead` | src/databytes.rs:353-370 | fails, with `StreamNotReadable`, exactly when the read side is closed, and otherwise is `read` |
| `Streams.SetData` | src/databytes.rs:204-216 | replaces the data, sets the length, closes the write side, and leaves the read side |
| `Streams.CloseWrite` | src/databytes.rs:265-272 | the write side is closed and every other field is kept |
| `Streams.CloseRead` | src/databytes.rs:274-281 | the read side is closed and every other field is kept |
| `Streams.DrainClosesRead` | src/databytes.rs:185-202 | reading everything from a write-closed stream returns all the data and closes the read side |
| `Streams.ReadSplit` | src/databytes.rs:185-202 | reading `n` then `m` bytes gives the same bytes as reading `n + m` |
| `Streams.WriteThenReadAll` | src/databytes.rs:164-202 | after a successful write, reading everything returns the old data followed by the buffer |
| `Streams.TryWriteIgnoresReadSide` | src/databytes.rs:164-183 | with the read side closed, `write` refuses while `try_write` succeeds |
| `Bytes.Push` | src/databytes.rs:143-151 | a new stream is stored live with count 1 under an index that was not live; nothing else changes |
| `Bytes.New` | src/databytes.rs:143-146 | a new empty stream with both sides open, live with count 1 under an index that was not live; no other entry and no queue changes |
| `Bytes.FromBytes` | src/databytes.rs:148-151 | a finished stream holding the buffer, live with count 1 under an index that was not live; no other entry and no queue changes |
| `Bytes.GetData` | src/databytes.rs:155-162 | `get_data` requires a live ref and returns the stream's data |
| `Bytes.CurrentLen` | src/databytes.rs:218-225 | `current_len` is the number of bytes `get_data` returns |
| `Bytes.StreamLen` | src/databytes.rs:227-234 | `stream_len` is the recorded length, whatever has been read |
| `Bytes.SetStreamLen` | src/databytes.rs:236-243 | only the recorded length of that stream changes; counts, queues, objects, arrays and every other stream are unchanged |
| `Bytes.CloseWrite` | src/databytes.rs:265-272 | only the write side of that stream closes; counts, queues, objects, arrays and every other stream are unchanged |
| `Bytes.CloseRead` | src/databytes.rs:274-281 | only the read side of that stream closes; counts, queues, objects, arrays and every other stream are unchanged |
| `Bytes.SetMimeType` | src/databytes.rs:283-290 | only the MIME type of that stream changes; counts, queues, objects, arrays and every other stream are unchanged |
| `Bytes.DeepCopy` | src/databytes.rs:313-325 | a copy of the stream under an index that was not live, with count 1; the original and every other entry, count and queue are unchanged |
| `Bytes.Write` | src/databytes.rs:164-183 | succeeds exactly when the ref is live and both sides are open; the data grows by the buffer; otherwise nothing changes; counts, queues, objects, arrays and every other stream are unchanged |
| `Bytes.Read` | src/databytes.rs:185-202 | requires a live ref with an open read side; returns the first `min(n, len)` bytes, which followed by the remaining data give the old data; the read side closes exactly when the write side is closed and nothing is left; write side, length and MIME type are kept; counts, queues, objects, arrays and every other stream are unchanged |
| `Bytes.SetData` | src/databytes.rs:204-216 | replaces the data, sets the length to its size and closes the write side; the read side and MIME type are kept; counts, queues, objects, arrays and every other stream are unchanged |
| `Bytes.ToHexString` | src/databytes.rs:301-311 | empty for no data; otherwise `3n - 1` characters, byte `j` as two upper-case hex digits at position `3j` |
| `Bytes.TryGetData` | src/databytes.rs:329-336 | `InvalidBytesRef` exactly when the ref is not live, the data otherwise |
| `Bytes.TryWrite` | src/databytes.rs:338-351 | `InvalidBytesRef` for a dead ref, `StreamNotWritable` for a closed write side, otherwise the data grows by the buffer and counts, queues, objects, arrays and every other stream are unchanged |
| `Bytes.TryRead` | src/databytes.rs:353-370 | `InvalidBytesRef` for a dead ref, `StreamNotReadable` for a closed read side, otherwise `read` |
| `Bytes.TrySetData` | src/databytes.rs:372-385 | `InvalidBytesRef` exactly when the ref is not live, otherwise `set_data` |
| `Bytes.TryCurrentLen` | src/databytes.rs:387-394 | `InvalidBytesRef` exactly when the ref is not live, otherwise the data length |
| `Bytes.TryStreamLen` | src/databytes.rs:396-403 | `InvalidBytesRef` exactly when the ref is not live, otherwise the recorded length |
| `Bytes.TrySetStreamLen` | src/databytes.rs:405-413 | `InvalidBytesRef` exactly when the ref is not live, otherwise `set_stream_len` |
| `Bytes.TryIsWriteOpen` | src/databytes.rs:415-422 | `InvalidBytesRef` exactly when the ref is not live, otherwise the write flag |
| `Bytes.TryIsReadOpen` | src/databytes.rs:424-431 | `InvalidBytesRef` exactly when the ref is not live, otherwise the read flag |
| `Bytes.TryCloseWrite` | src/databytes.rs:433-441 | `InvalidBytesRef` exactly when the ref is not live, otherwise the write side closes |
| `Bytes.TryCloseRead` | src/databytes.rs:443-451 | `InvalidBytesRef` exactly when the ref is not live, otherwise the read side closes |
| `Bytes.TrySetMimeType` | src/databytes.rs:453-461 | `InvalidBytesRef` exactly when the ref is not live, otherwise `set_mime_type` |
| `Bytes.TryGetMimeType` | src/databytes.rs:463-470 | `InvalidBytesRef` exactly when the ref is not live, otherwise the MIME type |
| `Bytes.Gc` | src/databytes.rs:498-510 | empties the bytes queue; each still-live queued ref is decremented once per occurrence, and dead refs are skipped; the other queues and heaps are unchanged |
| `Bytes.WriteThenRead` | src/databytes.rs:164-202 | on a live open stream, a write followed by a full read returns the old data and the buffer |
| `Bytes.ReleaseFreesUnshared` | src/databytes.rs:498-516 | a bytes ref held once, dropped and collected, is freed |
| `Collect.DeleteObject` | src/dataobject.rs:383-422 | `None` for a dead index; above count 1 only a decrement; at count 1 the entry is freed and each Object and Array child is deleted in turn, so the total count falls by at least one more than the number of those children; the bytes queue is only extended |
| `Collect.DeleteArray` | src/dataarray.rs:479-508 | as for objects: at count 1 the entry is freed, every Bytes child is queued on the bytes queue, and each Object and Array child is deleted, so the total count falls by at least one more than the number of those children |
| `Collect.DeleteObjects` | src/dataobject.rs:412-414 | deleting each object in turn shrinks the state, consuming at least one unit of the total count per index |
| `Collect.DeleteArrays` | src/dataarray.rs:505-507 | deleting each array in turn shrinks the state, consuming at least one unit of the total count per index |
| `Collect.QueueBytes` | src/dataarray.rs:493-497 | the Bytes children of the freed array are appended, in order, to the bytes queue and nothing else changes |
| `Collect.ObjectGc` | src/dataobject.rs:438-447 | drains the object queue, deleting once per entry, and leaves it empty |
| `Collect.ArrayGc` | src/dataarray.rs:528-538 | drains the array queue front to back, deleting once per entry, and leaves it empty |
| `Collect.HeapPhases` | src/ndata.rs:84-85 | after the object and array phases both queues are empty, the bytes heap is untouched, the bytes queue has only grown at its end, no count has risen, surviving objects and arrays keep their payloads, and the total count has fallen by at least the number of queued entries |
| `Collect.Gc` | src/ndata.rs:83-87 | objects, then arrays, then bytes; every queue is empty afterwards; the total count falls by at least the number of queued objects and arrays; no count rises; every surviving entry keeps its payload; each bytes entry loses one reference per occurrence in the bytes queue as extended by the array phase |
| `Collect.ObjectThenChildInOneGc` | src/dataobject.rs:397-417 | an object queued at count 1 that holds the only reference to an array is freed together with it by one `gc` |
| `Collect.ArrayThenBytesInOneGc` | src/ndata.rs:83-87 | an array holding the only reference to a bytes value is freed together with it by one `gc` |
| `Collect.CycleSurvivesGc` | src/dataobject.rs:383-422 | two objects that refer to each other both survive `gc`, with count 1 and unchanged maps |
| `Collect.GcTwiceQueuedArray` | src/dataarray.rs:528-538 | an array queued twice and held twice is freed by one `gc` |
| `Collect.LeakExampleQueues` | src/dataobject.rs:358-379 | storing an array with `put_array` and overwriting the key queues the array once but raised its count once more |
| `Collect.PutArrayLeaks` | src/dataobject.rs:358-379 | as written, an array held once, stored with `put_array` and overwritten, survives `gc` unreferenced with count 1 and no queue entry |
| `Collect.PutArrayCorrected` | src/dataobject.rs:358-379 | with ownership passed on, the same sequence frees the array in the first `gc` |
| `Collect.OverwriteQueues` | src/dataobject.rs:289-344 | overwriting a key that holds an array with an integer queues the array |
| `JsonEscape.EscapeChar` | src/json_util.rs:178-198 | a character is escaped exactly when it is `"`, `\`, `/` or a control character; other characters are copied; no raw control character is written |
| `JsonEscape.ControlEscape` | src/json_util.rs:178-198 | other control characters become `\u` and four lower-case hex digits of their code |
| `JsonEscape.Escape` | src/json_util.rs:178-198 | the escape text of each character, in order, with no raw control character |
| `JsonEscape.ReadHex4` | src/json_util.rs:240-264 | four hex digits give their value and the rest of the input; anything else is `InvalidUnicodeEscape` |
| `JsonEscape.CombineSurrogates` | src/json_util.rs:290-337 | a high and a low surrogate combine to a scalar value of at least `0x10000` |
| `JsonEscape.Unescape` | src/json_util.rs:272-353 | the result is never longer than the input; errors are end of input, a raw control character, an unknown escape or a bad `\u` |
| `JsonEscape.UnescapeEscape` | src/json_util.rs:178-353 | `unescape` undoes `write_escaped_str` for every string |
| `JsonEscape.UnescapeAppend` | src/json_util.rs:272-353 | unescaping a concatenation is unescaping the two parts, when the first part is complete |
| `JsonEscape.UnknownEscape` | src/json_util.rs:340-347 | a backslash followed by an unknown letter is `InvalidEscapeSequence` |
| `JsonEscape.TrailingBackslash` | src/json_util.rs:340-347 | a lone trailing backslash is `UnexpectedEof` |
| `JsonEscape.RawControlRefused` | src/json_util.rs:272-353 | a raw control character is `UnexpectedCharacter` of that character |
| `JsonEscape.ShortUnicodeEscape` | src/json_util.rs:240-264 | `\u` with fewer than four characters left is `InvalidUnicodeEscape` |
| `JsonEscape.SurrogatePair` | src/json_util.rs:290-337 | a surrogate pair decodes to the one character it encodes |
| `JsonEscape.LoneHighSurrogate` | src/json_util.rs:290-337 | a high surrogate not followed by `\u` is `InvalidUnicodeEscape` |
| `JsonParse.SkipWs` | src/json_util.rs:359-361 | the rest of the input, starting at a non-space |
| `JsonParse.SkipWsDrops` | src/json_util.rs:359-361 | only white space is dropped |
| `JsonParse.TrimEnd` | src/json_util.rs:204-219 | a prefix without trailing white space, followed in the input only by white space |
| `JsonParse.ConsumeChar` | src/json_util.rs:364-377 | succeeds exactly when the input starts with the character; otherwise `UnexpectedEof` or `UnexpectedCharacter` of what is there |
| `JsonParse.ParseStringContent` | src/json_util.rs:382-496 | consumes at least the closing quote; errors are end of input and bad escapes |
| `JsonParse.StringRoundTrip` | src/json_util.rs:178-496 | the string parser reads back any escaped string followed by a quote |
| `JsonParse.RawControlInString` | src/json_util.rs:382-496 | the string parser, unlike `unescape`, accepts a raw control character |
| `JsonParse.PlusInUnicodeEscape` | src/json_util.rs:388-401 | the string parser's `from_str_radix` check accepts `\u+041`, which `unescape` refuses |
| `JsonParse.ScanNumber` | src/json_util.rs:500-552 | the scan stops within the input and, without a dot or exponent, covers only digits |
| `JsonParse.ParseNumber` | src/json_util.rs:500-552 | a number consumes input and is an int or a float |
| `JsonParse.IntegerParses` | src/json_util.rs:500-552 | a digit string that fits in `i64` is read as that integer |
| `JsonParse.LargeIntegerIsFloat` | src/json_util.rs:500-552 | a digit string too large for `i64` is read as a float |
| `JsonParse.NegativeRefused` | src/json_util.rs:557-633 | a value starting with `-` is `ExpectedValue` |
| `JsonParse.SignedExponentCut` | src/json_util.rs:500-552 | `1e+5` stops after the sign and is `InvalidNumber("1e+")` |
| `JsonParse.ParseValue` | src/json_util.rs:557-633 | a value consumes input and never fails with a separator error |
| `JsonParse.ParseObject` | src/json_util.rs:638-727 | an object consumes input and yields an object |
| `JsonParse.ParseArray` | src/json_util.rs:732-809 | an array consumes input and yields an array |
| `JsonParse.ObjectFromString` | src/json_util.rs:204-219 | yields an object; input that is empty once trimmed is `UnexpectedEof` |
| `JsonParse.ArrayFromString` | src/json_util.rs:222-235 | yields an array; input that is empty once trimmed is `UnexpectedEof` |
| `JsonParse.ArrayTrailingComma` | src/json_util.rs:732-809 | a comma before `]` is `ExpectedValue` |
| `JsonParse.ObjectTrailingComma` | src/json_util.rs:638-727 | a comma before `}` is `ExpectedCharacter('"')` |
| `JsonParse.UnexpectedAfterElement` | src/json_util.rs:732-809 | any other character after an element is `UnexpectedCharacter` of it |
| `JsonParse.MissingColon` | src/json_util.rs:638-727 | any other character after a key is `UnexpectedCharacter` of it |
| `JsonParse.TrailingAfterObject` | src/json_util.rs:204-219 | non-space text after an object is `TrailingCharacters` |
| `JsonParse.TrailingAfterArray` | src/json_util.rs:222-235 | non-space text after an array is `TrailingCharacters` |
| `JsonParse.EmptyArrayParses` | src/json_util.rs:732-809 | `[]` reads as the empty array |
| `JsonParse.EmptyObjectParses` | src/json_util.rs:638-727 | `{}` reads as the empty object |
| `JsonWrite.Quoted` | src/json_util.rs:132-175 | a string is written between quotes |
| `JsonWrite.RoundTrip` | src/json_util.rs:95-809 | the parser reads back the text of every tree without negative integers or floats, whatever follows it |
| `JsonWrite.RenderItemsAppend` | src/json_util.rs:116-129 | elements are joined with `,` and no space |
| `JsonWrite.RenderMembersAppend` | src/json_util.rs:95-113 | members are joined with `,` and no space |
| `JsonWrite.Snapshot` | src/json_util.rs:132-175 | the tree of a handle is an object or array only when its entry is live |
| `JsonWrite.SnapMembers` | src/json_util.rs:95-113 | the members keep their keys in order |
| `JsonWrite.WriteIsRender` | src/json_util.rs:95-175 | `write_data` on the store writes exactly the text of the tree the store holds |
| `JsonWrite.WrittenParses` | src/json_util.rs:95-809 | the parser reads back what `write_data` writes for a tree without negative integers or floats |
| `JsonWrite.WrittenNegativeRefused` | src/json_util.rs:132-175 | the parser refuses what `write_data` writes for a negative integer, with `ExpectedValue` |
| `JsonWrite.ObjectToString` | src/json_util.rs:76-83 | the text is present exactly when the object can be written, and is wrapped in braces |
| `JsonWrite.ArrayToString` | src/json_util.rs:86-92 | the text is present exactly when the array can be written, and is wrapped in brackets |
| `JsonWrite.ObjectReadsBack` | src/dataobject.rs:114-137 | `DataObject::from_string` reads back the tree that `to_string` writes |
| `JsonWrite.ArrayReadsBack` | src/dataarray.rs:101-114 | `DataArray::from_string` reads back the tree that `to_string` writes |
| `JsonWrite.AsStringIsWritten` | src/data.rs:166-201 | `string()` and `as_string` give a string's payload as it is, the hex text of bytes without quotes, and otherwise exactly what the JSON writer writes |
| `JsonWrite.HexStringPlain` | src/json_util.rs:132-175 | the hex text of bytes needs no escaping |
| `Numerals.HexFixedRoundTrip` | src/ndata.rs:46-64 | fixed-width hex digits read back as their value |
| `Numerals.FromStrRadix16` | src/ndata.rs:57 | a non-empty run of hex digits reads as its value, and any accepted unsigned text is such a run |
| `Numerals.HexString` | src/databytes.rs:301-311 | the hex text of `n` bytes has `3n - 1` characters, and none for no bytes |
| `Numerals.NatTextRoundTrip` | src/json_util.rs:132-175 | the decimal text of a natural reads back as it |
| `Numerals.HexStringPairs` | src/databytes.rs:301-311 | byte `j` is written as its two hex digits at position `3j` |
| `Numerals.HexStringSeparators` | src/databytes.rs:301-311 | the pairs are separated by single spaces |
| `Config.Fields` | src/ndata.rs:46-52 | a config has twelve words |
| `Config.ToString` | src/ndata.rs:46-52 | 192 characters: field `k` is the 16 upper-case hex digits of word `k` |
| `Config.Words` | src/ndata.rs:54-64 | a successful chunking consumes the text in 16-character chunks |
| `Config.FromString` | src/ndata.rs:54-64 | accepts only text of a multiple of 16 characters and at least 192 |
| `Config.WordRoundTrip` | src/ndata.rs:46-64 | a 16-digit chunk reads back as its word |
| `Config.RoundTrip` | src/ndata.rs:46-64 | `from_string(to_string(c)) == c` for every config |
| `Config.FromStringAccepts` | src/ndata.rs:54-64 | `from_string` succeeds exactly when there are at least twelve 16-character chunks and each reads as hex; the fields are the first twelve chunk values, in order |

## Left out

- `src/sharedmutex.rs` in full, and the `init`/`share`/`mirror` functions of every store and of `src/ndata.rs`: spin-lock atomics, raw addresses and static memory. Locking is treated as transparent access to the state record.
- Concurrency: every operation is one atomic step on the state.
- `f64` arithmetic, parsing and formatting. A float is its 64 bits, the writer takes the text of a float as a parameter, and the parser keeps the float lexeme as written.
- `deep_copy` of objects and arrays: unbounded recursion on cyclic graphs.
- Cycle collection: no `delete` frees a cycle, and `Collect.CycleSurvivesGc` states it.
- Collect.DeleteObject and Collect.DeleteArray: the recursion into children is stated through the total count (one unit per child delete), not as which children end up freed, because a child may be shared, repeated or reached again; `Collect.ObjectThenChildInOneGc` shows a child freed by the same `gc`.
- The reference-count updates the JSON parser performs while building containers: the parser yields an abstract tree, not heap entries.
- The count side effects of `get`/`clone` inside the writer and `as_string`: `JsonWrite` reads the state without changing it.
- `HashMap` iteration order: an association list fixes one admissible order.
- `escape_original`, `unescape_original` and `replace`: legacy helpers outside the core.
- The `serde_support` branches (`from_json`, `to_json`) and `print_heap`: a foreign library, and I/O.
- `UsizeMap::with_capacity`, `capacity`, `is_empty`, iterators and `Debug`: capacity is not observable in the model; iteration is `keys` plus `get`.
- Panic messages: a panic is a failed precondition or a `None` result.
- The typed getters and putters (`get_string`, `put_int`, `push_i64`, …): each is `get_property`, `set_property` or `push_property` with a fixed variant.
- `JsonWrite.Snapshot`, `JsonWrite.WriteData`: a fuel bound stops the recursion. The crate recurses without bound and overflows its stack on a cyclic graph, which the model reports as `None`.
- `JsonWrite.RoundTrip`, `JsonWrite.WrittenParses`: only for trees without negative integers or floats. The parser refuses a leading `-`, so a negative integer does not read back (`JsonWrite.WrittenNegativeRefused`), and float text is a parameter.
- `JsonParse.ParseStringContent`: works on characters, not on the byte offsets of the UTF-8 text.
- `Config.FromString`: a malformed text is `None` where the crate panics, and it works on characters where the crate slices bytes.

## Findings

| source | as written | input that shows it | evidently intended | confidence | as-written member | corrected member |
|---|---|---|---|---|---|---|
| src/dataobject.rs:358-379 | `put_object`/`put_array`/`put_bytes` call `set_property`, which increments the child, then `mem::forget` the argument, so the argument's own count is never given back | a new array (count 1) stored with `put_array("a", a)`, the key then overwritten by `put_int("a", 42)`, then `gc()`: the array stays live with count 1 and nothing refers to or queues it | pass ownership on as `DataArray::push_array` does: the argument's handle is dropped (queued), so one `gc` frees the array | not executed | `Collect.PutArrayLeaks` | `Collect.PutArrayCorrected` |
