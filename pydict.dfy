/**
 * Python's `dict` with string keys, which keeps its keys in insertion
 * order: a sequence of (key, value) pairs. The configuration tables read
 * it, `detect_multiple_words` and `PresetManager` update it.
 */
module PyDict {
  import opened Wrappers

  /** The keys, in insertion order (`list(d.keys())`). */
  function Keys<V>(d: seq<(string, V)>): (ks: seq<string>)
    ensures |ks| == |d|
    ensures forall i :: 0 <= i < |d| ==> ks[i] == d[i].0
  {
    if |d| == 0 then [] else [d[0].0] + Keys(d[1..])
  }

  /** `d.get(key)`: the first entry with that key. */
  function Lookup<V>(d: seq<(string, V)>, key: string): (r: Option<V>)
    ensures r.None? <==> key !in Keys(d)
    ensures r.Some? ==> exists i :: 0 <= i < |d| && d[i] == (key, r.value)
  {
    if |d| == 0 then None
    else if d[0].0 == key then Some(d[0].1)
    else
      var r := Lookup(d[1..], key);
      assert r.Some? ==> exists i :: 1 <= i < |d| && d[i] == (key, r.value) by {
        if r.Some? {
          var i :| 0 <= i < |d| - 1 && d[1..][i] == (key, r.value);
          assert d[i + 1] == (key, r.value);
        }
      }
      r
  }

  /** `Lookup` finds the first entry carrying the key. */
  lemma {:induction false} LookupAt<V>(d: seq<(string, V)>, i: nat, key: string)
    requires i < |d| && d[i].0 == key
    requires forall j :: 0 <= j < i ==> d[j].0 != key
    ensures Lookup(d, key) == Some(d[i].1)
  {
    if i > 0 {
      LookupAt(d[1..], i - 1, key);
    }
  }

  /** A well-formed dictionary: no key occurs twice. */
  predicate DistinctKeys<V>(d: seq<(string, V)>)
  {
    forall a, b :: 0 <= a < b < |d| ==> d[a].0 != d[b].0
  }

  /** `d[key] = value`: overwrite the entry of `key` in place, or append a new one. */
  function Put<V>(d: seq<(string, V)>, key: string, value: V): (r: seq<(string, V)>)
    requires DistinctKeys(d)
    decreases |d|
  {
    if |d| == 0 then [(key, value)]
    else if d[0].0 == key then [(key, value)] + d[1..]
    else [d[0]] + Put(d[1..], key, value)
  }

  /** After `d[key] = value` the key maps to the value, keys stay distinct, and every other entry is kept. */
  lemma {:induction false} PutSpec<V>(d: seq<(string, V)>, key: string, value: V)
    requires DistinctKeys(d)
    ensures DistinctKeys(Put(d, key, value))
    ensures (key, value) in Put(d, key, value)
    ensures forall p :: p in Put(d, key, value) ==> p == (key, value) || (p.0 != key && p in d)
    ensures forall p :: p in d && p.0 != key ==> p in Put(d, key, value)
    decreases |d|
  {
    if |d| > 0 {
      var t := d[1..];
      assert forall a :: 0 <= a < |t| ==> t[a] == d[a + 1];
      assert DistinctKeys(t);
      if d[0].0 == key {
        forall p | p in t
          ensures p.0 != key
        {
          var a :| 0 <= a < |t| && t[a] == p;
          assert d[a + 1] == p;
        }
      } else {
        PutSpec(t, key, value);
        var r := Put(t, key, value);
        forall p | p in r
          ensures p.0 != d[0].0
        {
          if p in t {
            var a :| 0 <= a < |t| && t[a] == p;
            assert d[a + 1] == p;
          }
        }
        forall p | p in d && p.0 != key
          ensures p in [d[0]] + r
        {
          if p != d[0] {
            var a :| 0 <= a < |d| && d[a] == p;
            assert t[a - 1] == p;
          }
        }
        assert Put(d, key, value) == [d[0]] + r;
        forall a, b | 0 <= a < b < |[d[0]] + r|
          ensures ([d[0]] + r)[a].0 != ([d[0]] + r)[b].0
        {
          if a == 0 {
            assert ([d[0]] + r)[b] == r[b - 1];
            assert r[b - 1] in r;
          } else {
            assert ([d[0]] + r)[a] == r[a - 1];
          }
        }
      }
    }
  }

  /** Reading back: `d[key] = value` then `d.get(key)` is `value`, and every other key reads as before. */
  lemma {:induction false} LookupPut<V>(d: seq<(string, V)>, key: string, value: V, other: string)
    requires DistinctKeys(d)
    ensures Lookup(Put(d, key, value), key) == Some(value)
    ensures other != key ==> Lookup(Put(d, key, value), other) == Lookup(d, other)
    decreases |d|
  {
    if |d| > 0 && d[0].0 != key {
      var t := d[1..];
      assert forall a :: 0 <= a < |t| ==> t[a] == d[a + 1];
      LookupPut(t, key, value, other);
    }
  }

  /** Overwriting keeps the key order; a new key goes last. */
  lemma {:induction false} KeysPut<V>(d: seq<(string, V)>, key: string, value: V)
    requires DistinctKeys(d)
    ensures key in Keys(d) ==> Keys(Put(d, key, value)) == Keys(d)
    ensures key !in Keys(d) ==> Keys(Put(d, key, value)) == Keys(d) + [key]
    decreases |d|
  {
    if |d| > 0 && d[0].0 != key {
      var t := d[1..];
      assert forall a :: 0 <= a < |t| ==> t[a] == d[a + 1];
      KeysPut(t, key, value);
      assert Keys(d) == [d[0].0] + Keys(t);
    }
  }

  /** `del d[key]`, for a key that is present: that entry goes, the others keep their order. */
  function Delete<V>(d: seq<(string, V)>, key: string): (r: seq<(string, V)>)
    ensures |r| <= |d|
    decreases |d|
  {
    if |d| == 0 then []
    else if d[0].0 == key then d[1..]
    else [d[0]] + Delete(d[1..], key)
  }

  /** A key carried by no entry is not among the keys. */
  lemma KeyAbsent<V>(d: seq<(string, V)>, key: string)
    requires forall i :: 0 <= i < |d| ==> d[i].0 != key
    ensures key !in Keys(d)
  {
  }

  /** Deleting adds no entry. */
  lemma {:induction false} DeletedWere<V>(d: seq<(string, V)>, key: string)
    ensures forall p :: p in Delete(d, key) ==> p in d
    decreases |d|
  {
    if |d| > 0 && d[0].0 != key {
      DeletedWere(d[1..], key);
    }
  }

  /** After `del d[key]` the key is gone, every other key reads as before, and the remaining keys keep their order. */
  lemma {:induction false} DeleteSpec<V>(d: seq<(string, V)>, key: string, other: string)
    requires DistinctKeys(d)
    ensures DistinctKeys(Delete(d, key))
    ensures Lookup(Delete(d, key), key) == None
    ensures other != key ==> Lookup(Delete(d, key), other) == Lookup(d, other)
    ensures key in Keys(d) ==> |Delete(d, key)| == |d| - 1
    decreases |d|
  {
    if |d| > 0 {
      var t := d[1..];
      assert forall a :: 0 <= a < |t| ==> t[a] == d[a + 1];
      assert DistinctKeys(t);
      if d[0].0 == key {
        assert forall a :: 0 <= a < |t| ==> t[a].0 != key;
        KeyAbsent(t, key);
      } else {
        DeleteSpec(t, key, other);
        var r := Delete(t, key);
        DeletedWere(t, key);
        forall a, b | 0 <= a < b < |[d[0]] + r|
          ensures ([d[0]] + r)[a].0 != ([d[0]] + r)[b].0
        {
          if a == 0 {
            assert ([d[0]] + r)[b] == r[b - 1];
            assert r[b - 1] in t;
            var c :| 0 <= c < |t| && t[c] == r[b - 1];
            assert d[c + 1] == r[b - 1];
          } else {
            assert ([d[0]] + r)[a] == r[a - 1];
          }
        }
      }
    }
  }
}
