/**
  The `HashMap<String, V>` behind every object entry, as an association list
  with unique keys. The list order stands for one admissible iteration order
  of the hash map: a replaced key keeps its place and a new key goes last.
 */
module Assoc {
  import opened Outcomes

  type Entries<V> = seq<(string, V)>

  /** The keys, in iteration order. */
  function Keys<V>(m: Entries<V>): (r: seq<string>)
    ensures |r| == |m|
    ensures forall i :: 0 <= i < |m| ==> r[i] == m[i].0
  {
    if |m| == 0 then [] else [m[0].0] + Keys(m[1..])
  }

  /** The values, in iteration order (`HashMap::values`). */
  function Values<V>(m: Entries<V>): (r: seq<V>)
    ensures |r| == |m|
    ensures forall i :: 0 <= i < |m| ==> r[i] == m[i].1
  {
    if |m| == 0 then [] else [m[0].1] + Values(m[1..])
  }

  /** No key occurs twice. */
  predicate UniqueKeys<V>(m: Entries<V>)
  {
    |m| == 0 || (m[0].0 !in Keys(m[1..]) && UniqueKeys(m[1..]))
  }

  /** `HashMap::get`. */
  function Find<V>(m: Entries<V>, key: string): (r: Option<V>)
    ensures r.Some? <==> key in Keys(m)
    ensures r.Some? ==> (key, r.value) in m
  {
    if |m| == 0 then None
    else if m[0].0 == key then Some(m[0].1)
    else Find(m[1..], key)
  }

  predicate ContainsKey<V>(m: Entries<V>, key: string)
  {
    Find(m, key).Some?
  }

  /**
    `HashMap::insert`: stores `value` under `key` and returns the value it
    replaced, if any. A replaced key keeps its position; a new key is appended.
   */
  function Set<V>(m: Entries<V>, key: string, value: V): (r: (Entries<V>, Option<V>))
    ensures r.1 == Find(m, key)
    ensures Find(r.0, key) == Some(value)
    ensures forall k :: k != key ==> Find(r.0, k) == Find(m, k)
  {
    if |m| == 0 then ([(key, value)], None)
    else if m[0].0 == key then ([(key, value)] + m[1..], Some(m[0].1))
    else
      var (tail, prev) := Set(m[1..], key, value);
      var r0 := [m[0]] + tail;
      assert r0[1..] == tail;
      (r0, prev)
  }

  /**
    `HashMap::remove`: takes `key` out and returns its value; an absent key
    leaves the map as it was. The other entries keep their order.
   */
  function Remove<V>(m: Entries<V>, key: string): (r: (Entries<V>, Option<V>))
    ensures r.1 == Find(m, key)
    ensures r.1.None? ==> r.0 == m
    ensures forall k :: k != key ==> Find(r.0, k) == Find(m, k)
    ensures UniqueKeys(m) ==> UniqueKeys(r.0) && !ContainsKey(r.0, key)
    ensures UniqueKeys(m) && r.1.Some? ==> |r.0| + 1 == |m|
    ensures forall k :: k in Keys(r.0) ==> k in Keys(m)
  {
    if |m| == 0 then (m, None)
    else if m[0].0 == key then (m[1..], Some(m[0].1))
    else
      var (tail, prev) := Remove(m[1..], key);
      var r0 := [m[0]] + tail;
      assert r0[1..] == tail;
      assert Keys(r0) == [m[0].0] + Keys(tail);
      if prev.None? then (m, prev) else ([m[0]] + tail, prev)
  }

  // ----- Lemmas -----

  /** `insert` keeps the key order: a replaced key stays put, a new key goes last. */
  lemma {:induction false} SetKeys<V>(m: Entries<V>, key: string, value: V)
    ensures Keys(Set(m, key, value).0) == if key in Keys(m) then Keys(m) else Keys(m) + [key]
    decreases |m|
  {
    if |m| > 0 && m[0].0 != key {
      SetKeys(m[1..], key, value);
      var (tail, _) := Set(m[1..], key, value);
      var r0 := [m[0]] + tail;
      assert r0[1..] == tail;
      assert Keys(r0) == [m[0].0] + Keys(tail);
      assert Keys(m) == [m[0].0] + Keys(m[1..]);
    }
  }

  /** Setting then reading a key gives the value; setting the same value twice changes nothing more. */
  lemma {:induction false} SetIdempotent<V>(m: Entries<V>, key: string, value: V)
    ensures Set(Set(m, key, value).0, key, value).0 == Set(m, key, value).0
    decreases |m|
  {
    if |m| > 0 && m[0].0 != key {
      SetIdempotent(m[1..], key, value);
      var (tail, _) := Set(m[1..], key, value);
      assert ([m[0]] + tail)[1..] == tail;
    }
  }

  /** Removing a key that was just set restores a map that did not hold it. */
  lemma {:induction false} RemoveUndoesSet<V>(m: Entries<V>, key: string, value: V)
    requires !ContainsKey(m, key)
    ensures Remove(Set(m, key, value).0, key) == (m, Some(value))
    decreases |m|
  {
    if |m| > 0 {
      RemoveUndoesSet(m[1..], key, value);
      var (tail, _) := Set(m[1..], key, value);
      assert ([m[0]] + tail)[1..] == tail;
      assert [m[0]] + m[1..] == m;
    }
  }

  /** `insert` keeps the keys unique. */
  lemma {:induction false} SetUnique<V>(m: Entries<V>, key: string, value: V)
    requires UniqueKeys(m)
    ensures UniqueKeys(Set(m, key, value).0)
    decreases |m|
  {
    if |m| > 0 {
      var r0 := Set(m, key, value).0;
      if m[0].0 == key {
        assert r0[1..] == m[1..];
      } else {
        SetUnique(m[1..], key, value);
        var tail := Set(m[1..], key, value).0;
        assert r0[1..] == tail;
        assert Find(tail, m[0].0) == Find(m[1..], m[0].0);
      }
    }
  }

  /** With unique keys, every stored value can be found under its own key. */
  lemma {:induction false} ValueFound<V>(m: Entries<V>, v: V)
    requires UniqueKeys(m) && v in Values(m)
    ensures exists k :: Find(m, k) == Some(v)
    decreases |m|
  {
    if m[0].1 == v {
      assert Find(m, m[0].0) == Some(v);
    } else {
      assert Values(m) == [m[0].1] + Values(m[1..]);
      ValueFound(m[1..], v);
      var k :| Find(m[1..], k) == Some(v);
      assert k != m[0].0;
      assert Find(m, k) == Some(v);
    }
  }

  /** A key the map does not hold is appended by `insert`. */
  lemma {:induction false} SetAbsentAppends<V>(m: Entries<V>, key: string, value: V)
    requires key !in Keys(m)
    ensures Set(m, key, value).0 == m + [(key, value)]
    decreases |m|
  {
    if |m| > 0 {
      KeysHead(m);
      SetAbsentAppends(m[1..], key, value);
      SetPastHead(m, key, value);
      assert [m[0]] + (m[1..] + [(key, value)]) == m + [(key, value)];
    }
  }

  /** The keys of a non-empty map: the first key, then the keys of the rest. */
  lemma KeysHead<V>(m: Entries<V>)
    requires |m| > 0
    ensures Keys(m) == [m[0].0] + Keys(m[1..])
  {
  }

  /** `insert` of a key other than the first leaves the first entry in place. */
  lemma SetPastHead<V>(m: Entries<V>, key: string, value: V)
    requires |m| > 0 && m[0].0 != key
    ensures Set(m, key, value).0 == [m[0]] + Set(m[1..], key, value).0
  {
  }

  /** In a map with unique keys, the key of a later entry is not among the earlier ones. */
  lemma {:induction false} UniqueKeysSplit<V>(p: Entries<V>, s: Entries<V>)
    requires UniqueKeys(p + s) && |s| > 0
    ensures s[0].0 !in Keys(p)
    decreases |p|
  {
    if |p| > 0 {
      var ps := p + s;
      assert ps[1..] == p[1..] + s;
      UniqueKeysSplit(p[1..], s);
      assert ps[1..][|p| - 1] == s[0];
      assert Keys(ps[1..])[|p| - 1] == s[0].0;
      assert Keys(p) == [p[0].0] + Keys(p[1..]);
    }
  }
}
