/**
  `NDataConfig` of src/ndata.rs: the twelve `u64` words (the addresses of
  the three heaps and their drop queues) that `init` returns, written as
  text to hand to another process and read back there.
 */
module Config {
  import opened Outcomes
  import opened Numerals

  /** A shared mutex as `share` hands it out: two words. */
  datatype Shared = Shared(first: u64, second: u64)

  /** One store: its heap's mutex and its drop queue's mutex. */
  datatype Store = Store(heap: Shared, queue: Shared)

  /** What `init` returns: the object, array and bytes stores, in that order. */
  datatype NDataConfig = NDataConfig(objects: Store, arrays: Store, bytes: Store)

  function StoreFields(s: Store): (r: seq<u64>)
    ensures |r| == 4
  {
    [s.heap.first, s.heap.second, s.queue.first, s.queue.second]
  }

  /** The twelve words in the order `to_string` writes them. */
  function Fields(c: NDataConfig): (r: seq<u64>)
    ensures |r| == 12
  {
    StoreFields(c.objects) + StoreFields(c.arrays) + StoreFields(c.bytes)
  }

  /** The configuration built from the first twelve words read. */
  function FromFields(x: seq<u64>): (c: NDataConfig)
    requires |x| >= 12
    ensures Fields(c) == x[..12]
  {
    NDataConfig(
      Store(Shared(x[0], x[1]), Shared(x[2], x[3])),
      Store(Shared(x[4], x[5]), Shared(x[6], x[7])),
      Store(Shared(x[8], x[9]), Shared(x[10], x[11])))
  }

  /** `{:016X}` of one word. */
  function Hex16(x: u64): (s: string)
    ensures |s| == 16 && AllHex(s)
  {
    Pow16Word();
    HexFixed(x, 16)
  }

  /** The words' texts, one after another. */
  function HexWords(v: seq<u64>): (s: string)
    ensures |s| == 16 * |v|
  {
    if |v| == 0 then "" else Hex16(v[0]) + HexWords(v[1..])
  }

  /** The `k`-th sixteen-character chunk of a text. */
  function Chunk(s: string, k: nat): string
    requires 16 * k + 16 <= |s|
  {
    s[16 * k..16 * k + 16]
  }

  /** `to_string`: 192 characters, chunk `k` being the sixteen digits of field `k`. */
  function ToString(c: NDataConfig): (s: string)
    ensures |s| == 192
    ensures forall k :: 0 <= k < 12 ==> Chunk(s, k) == Hex16(Fields(c)[k])
  {
    HexWordsChunks(Fields(c));
    HexWords(Fields(c))
  }

  /** Sixteen characters read by `u64::from_str_radix(_, 16)`; they always fit. */
  function Word(chunk: string): (r: Option<u64>)
    requires |chunk| == 16
  {
    match FromStrRadix16(chunk)
    case None => None
    case Some(v) =>
      RadixBound(chunk);
      Some(v)
  }

  /**
    The loop of `from_string`: chunk after chunk while text is left. A last
    chunk shorter than sixteen characters, or one that is not a number,
    panics in the source and is `None` here.
   */
  function Words(s: string): (r: Option<seq<u64>>)
    ensures r.Some? ==> |s| == 16 * |r.value|
    decreases |s|
  {
    if |s| == 0 then Some([])
    else if |s| < 16 then None
    else
      match Word(s[..16])
      case None => None
      case Some(v) =>
        match Words(s[16..])
        case None => None
        case Some(rest) => Some([v] + rest)
  }

  /**
    `from_string`: the words in order, of which the first twelve are kept;
    fewer than twelve panics on the index in the source.
   */
  function FromString(s: string): (r: Option<NDataConfig>)
    ensures r.Some? ==> |s| % 16 == 0 && |s| >= 192
  {
    match Words(s)
    case None => None
    case Some(x) => if |x| < 12 then None else Some(FromFields(x))
  }

  // ----- Lemmas -----

  /** A number of at most sixteen digits is below 2^64. */
  lemma RadixBound(chunk: string)
    requires |chunk| <= 16
    ensures FromStrRadix16(chunk).Some? ==> FromStrRadix16(chunk).value < 0x1_0000_0000_0000_0000
  {
    Pow16Word();
    if |chunk| > 0 && chunk[0] == '+' && FromStrRadix16(chunk).Some? {
      Pow16Monotone(|chunk| - 1, 16);
    } else {
      Pow16Monotone(|chunk|, 16);
    }
  }

  lemma {:induction false} Pow16Monotone(a: nat, b: nat)
    requires a <= b
    ensures Pow16(a) <= Pow16(b)
    decreases b
  {
    if a < b {
      Pow16Monotone(a, b - 1);
    }
  }

  /** Chunk `k` of the words' texts is the text of word `k`. */
  lemma {:induction false} HexWordsChunks(v: seq<u64>)
    ensures forall k :: 0 <= k < |v| ==> Chunk(HexWords(v), k) == Hex16(v[k])
    decreases |v|
  {
    if |v| > 0 {
      var s := HexWords(v);
      var t := HexWords(v[1..]);
      HexWordsChunks(v[1..]);
      assert s == Hex16(v[0]) + t;
      forall k | 0 <= k < |v|
        ensures Chunk(s, k) == Hex16(v[k])
      {
        if k > 0 {
          assert Chunk(s, k) == Chunk(t, k - 1);
        }
      }
    }
  }

  /** A word's sixteen digits read back as the word. */
  lemma WordRoundTrip(x: u64)
    ensures Word(Hex16(x)) == Some(x)
  {
    Pow16Word();
    HexFixedRoundTrip(x, 16);
  }

  /** Reading the words' texts gives back the words. */
  lemma {:induction false} WordsRoundTrip(v: seq<u64>)
    ensures Words(HexWords(v)) == Some(v)
    decreases |v|
  {
    if |v| > 0 {
      var h := Hex16(v[0]);
      var t := HexWords(v[1..]);
      assert HexWords(v) == h + t;
      Split16(h, t);
      WordRoundTrip(v[0]);
      WordsRoundTrip(v[1..]);
      WordsStep(h + t, v[0], v[1..]);
      assert [v[0]] + v[1..] == v;
    }
  }

  /** The first sixteen characters and the rest. */
  lemma Split16(h: string, t: string)
    requires |h| == 16
    ensures (h + t)[..16] == h && (h + t)[16..] == t
  {
  }

  /** A first chunk and the rest that are read give all the words. */
  lemma WordsStep(s: string, x: u64, rest: seq<u64>)
    requires |s| >= 16 && Word(s[..16]) == Some(x) && Words(s[16..]) == Some(rest)
    ensures Words(s) == Some([x] + rest)
  {
  }

  /** One pass of the loop of `from_string`. */
  lemma WordsUnfold(s: string)
    requires |s| >= 16
    ensures Words(s).Some? <==> Word(s[..16]).Some? && Words(s[16..]).Some?
    ensures Words(s).Some? ==> Words(s).value == [Word(s[..16]).value] + Words(s[16..]).value
  {
  }

  /** `from_string(to_string(c)) == c`: a configuration survives the trip to another process. */
  lemma RoundTrip(c: NDataConfig)
    ensures FromString(ToString(c)) == Some(c)
  {
    WordsRoundTrip(Fields(c));
    assert Fields(c)[..12] == Fields(c);
  }

  /**
    `Words` accepts a text of `n` whole chunks exactly when each chunk is a
    number, and word `k` is the value of chunk `k`.
   */
  lemma {:induction false} WordsChunks(s: string, n: nat)
    requires |s| == 16 * n
    ensures Words(s).Some? <==> forall k :: 0 <= k < n ==> Word(Chunk(s, k)).Some?
    ensures Words(s).Some? ==> forall k :: 0 <= k < n ==> Words(s).value[k] == Word(Chunk(s, k)).value
    decreases n
  {
    if n > 0 {
      var t := s[16..];
      WordsChunks(t, n - 1);
      WordsUnfold(s);
      ChunksTail(s, n);
      if Words(s).Some? {
        ValuesTail(s, n, Words(s).value, Words(t).value);
      }
    }
  }

  /** Every chunk is a number exactly when the first one is and every chunk of the rest is. */
  lemma ChunksTail(s: string, n: nat)
    requires |s| == 16 * n && n > 0
    ensures (forall k :: 0 <= k < n ==> Word(Chunk(s, k)).Some?) <==>
      Word(s[..16]).Some? && forall k :: 0 <= k < n - 1 ==> Word(Chunk(s[16..], k)).Some?
  {
    ChunkShift(s, n);
    assert Chunk(s, 0) == s[..16];
    if Word(s[..16]).Some? && forall k :: 0 <= k < n - 1 ==> Word(Chunk(s[16..], k)).Some? {
      forall k | 0 < k < n
        ensures Word(Chunk(s, k)).Some?
      {
        assert Chunk(s, k) == Chunk(s[16..], k - 1);
      }
    }
    if forall k :: 0 <= k < n ==> Word(Chunk(s, k)).Some? {
      forall k | 0 <= k < n - 1
        ensures Word(Chunk(s[16..], k)).Some?
      {
        assert Chunk(s, k + 1) == Chunk(s[16..], k);
      }
    }
  }

  /** The values of the chunks are the first chunk's value followed by those of the rest. */
  lemma ValuesTail(s: string, n: nat, v: seq<u64>, w: seq<u64>)
    requires |s| == 16 * n && n > 0 && Word(s[..16]).Some? && v == [Word(s[..16]).value] + w
    requires |w| == n - 1
    requires forall k :: 0 <= k < n - 1 ==> Word(Chunk(s[16..], k)).Some? && w[k] == Word(Chunk(s[16..], k)).value
    ensures forall k :: 0 <= k < n ==> Word(Chunk(s, k)).Some? && v[k] == Word(Chunk(s, k)).value
  {
    ChunkShift(s, n);
    assert Chunk(s, 0) == s[..16];
    forall k | 0 < k < n
      ensures Word(Chunk(s, k)).Some? && v[k] == Word(Chunk(s, k)).value
    {
      assert Chunk(s, k) == Chunk(s[16..], k - 1);
      assert v[k] == w[k - 1];
    }
  }

  /** Past the first chunk, the chunks are those of the rest. */
  lemma ChunkShift(s: string, n: nat)
    requires |s| == 16 * n && n > 0
    ensures forall k :: 0 < k < n ==> Chunk(s, k) == Chunk(s[16..], k - 1)
  {
  }

  /**
    A text of `n` whole chunks gives a configuration exactly when there are
    at least twelve and each is a number; field `k` is the value of chunk
    `k`. A text of any other length gives none (the contract of `FromString`).
   */
  lemma FromStringAccepts(s: string, n: nat)
    requires |s| == 16 * n
    ensures FromString(s).Some? <==> n >= 12 && forall k :: 0 <= k < n ==> Word(Chunk(s, k)).Some?
    ensures FromString(s).Some? ==> forall k :: 0 <= k < 12 ==> Fields(FromString(s).value)[k] == Word(Chunk(s, k)).value
  {
    WordsChunks(s, n);
  }
}
