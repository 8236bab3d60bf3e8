/**
 * DictionaryBehaviour<K, V>: a dictionary kept as two parallel lists, `keys`
 * and `values`, so that Unity can serialise it. Keys are found by their first
 * occurrence; nothing stops a key from being added twice. A `null` value is
 * written None.
 */
module ParallelDictionary {
  import opened Wrappers
  import opened IndexedRemoval

  /** The value stored with the first occurrence of k, None when k is absent. */
  function Lookup<K(==), V>(keys: seq<K>, values: seq<Option<V>>, k: K): (r: Option<V>)
    requires |keys| == |values|
    ensures k !in keys ==> r.None?
    ensures k in keys ==> r == values[IndexOf(keys, k)]
  {
    var p := IndexOf(keys, k);
    if p < 0 then None else values[p]
  }

  /**
   * The indexer setter on the two lists: for a present key, a null value
   * removes the first pair with that key and any other value replaces its
   * value; an absent key is appended with the value, null included.
   */
  function Assign<K(==), V>(keys: seq<K>, values: seq<Option<V>>, k: K, v: Option<V>): (r: (seq<K>, seq<Option<V>>))
    requires |keys| == |values|
    ensures |r.0| == |r.1|
  {
    var p := IndexOf(keys, k);
    if p >= 0 then
      if v.None? then (keys[..p] + keys[p + 1..], values[..p] + values[p + 1..])
      else (keys, values[p := v])
    else (keys + [k], values + [v])
  }

  /** After an assignment of a non-null value, the key reads back that value. */
  lemma AssignThenLookup<K, V>(keys: seq<K>, values: seq<Option<V>>, k: K, v: Option<V>)
    requires |keys| == |values| && v.Some?
    ensures var (ks, vs) := Assign(keys, values, k, v); Lookup(ks, vs, k) == v
  {
    var (ks, vs) := Assign(keys, values, k, v);
    if k !in keys {
      assert ks == keys + [k];
      assert ks[..|keys|] == keys;
      IndexOfUnique(ks, k, |keys|);
    }
  }

  /** An assignment to one key leaves the value read for every other key unchanged. */
  lemma AssignKeepsOthers<K, V>(keys: seq<K>, values: seq<Option<V>>, k: K, v: Option<V>, other: K)
    requires |keys| == |values| && other != k
    ensures var (ks, vs) := Assign(keys, values, k, v); Lookup(ks, vs, other) == Lookup(keys, values, other)
  {
    var p := IndexOf(keys, k);
    if p >= 0 && v.None? {
      DropKeepsOthers(keys, values, p, other);
    } else if p < 0 {
      AppendKeepsOthers(keys, values, k, v, other);
    }
  }

  /** Dropping the pair at slot p leaves what any other key reads unchanged. */
  lemma DropKeepsOthers<K, V>(keys: seq<K>, values: seq<Option<V>>, p: nat, other: K)
    requires |keys| == |values| && p < |keys| && keys[p] != other
    ensures Lookup(keys[..p] + keys[p + 1..], values[..p] + values[p + 1..], other) == Lookup(keys, values, other)
  {
    var ks := keys[..p] + keys[p + 1..];
    var vs := values[..p] + values[p + 1..];
    var q := IndexOf(keys, other);
    if q < 0 {
      assert keys == keys[..p] + [keys[p]] + keys[p + 1..];
      assert other !in ks;
    } else if q < p {
      assert ks[..q] == keys[..q];
      IndexOfUnique(ks, other, q);
    } else {
      assert ks[q - 1] == other;
      assert other !in ks[..q - 1] by {
        assert ks[..q - 1] == keys[..p] + keys[p + 1..q];
        assert keys[..q] == keys[..p] + [keys[p]] + keys[p + 1..q];
      }
      IndexOfUnique(ks, other, q - 1);
      assert vs[q - 1] == values[q];
    }
  }

  /** Appending a pair for another key leaves what any other key reads unchanged. */
  lemma AppendKeepsOthers<K, V>(keys: seq<K>, values: seq<Option<V>>, k: K, v: Option<V>, other: K)
    requires |keys| == |values| && other != k
    ensures Lookup(keys + [k], values + [v], other) == Lookup(keys, values, other)
  {
    var ks := keys + [k];
    var q := IndexOf(keys, other);
    if q >= 0 {
      assert ks[..q] == keys[..q];
      IndexOfUnique(ks, other, q);
    } else {
      assert other !in ks;
    }
  }

  /**
   * When no key repeats, a null assignment to a present key removes it and
   * to an absent key appends a null pair; either way the key then reads null.
   */
  lemma AssignNullRemoves<K, V>(keys: seq<K>, values: seq<Option<V>>, k: K)
    requires |keys| == |values| && Distinct(keys)
    ensures var (ks, vs) := Assign(keys, values, k, None);
            (k in keys ==> k !in ks && |ks| == |keys| - 1) && (k !in keys ==> ks == keys + [k]) && Lookup(ks, vs, k).None?
  {
    var (ks, vs) := Assign(keys, values, k, None);
    var p := IndexOf(keys, k);
    if p >= 0 {
      NotLater(keys, p);
      assert k !in keys[..p];
      assert k !in ks;
    } else {
      assert ks[..|keys|] == keys;
      IndexOfUnique(ks, k, |keys|);
    }
  }

  /** With a duplicated key the null assignment removes only the first pair, and the second value shows through. */
  lemma AssignNullExposesDuplicate<K, V>(k: K, a: V, b: V)
    ensures var (ks, vs) := Assign([k, k], [Some(a), Some(b)], k, None);
            ks == [k] && Lookup(ks, vs, k) == Some(b)
  {
    var (ks, vs) := Assign([k, k], [Some(a), Some(b)], k, None);
    assert IndexOf([k, k], k) == 0;
    assert ks == [k] && vs == [Some(b)];
  }

  /** The `instance` getter's dictionary: every pair written in index order, so a later duplicate overrides. */
  function ToMap<K(==), V>(keys: seq<K>, values: seq<Option<V>>): (m: map<K, Option<V>>)
    requires |keys| == |values|
    ensures m.Keys == set k | k in keys
  {
    if keys == [] then map[]
    else ToMap(keys[..|keys| - 1], values[..|values| - 1])[keys[|keys| - 1] := values[|values| - 1]]
  }

  /** When no key repeats, the `instance` dictionary agrees with the indexer on every key. */
  lemma {:induction false} ToMapAgreesWithLookup<K, V>(keys: seq<K>, values: seq<Option<V>>, k: K)
    requires |keys| == |values| && Distinct(keys) && k in keys
    ensures ToMap(keys, values)[k] == Lookup(keys, values, k)
  {
    var n := |keys| - 1;
    var ks := keys[..n];
    var vs := values[..n];
    assert ToMap(keys, values) == ToMap(ks, vs)[keys[n] := values[n]];
    if k == keys[n] {
      assert k !in ks by {
        forall a | 0 <= a < n
          ensures ks[a] != k
        {
          assert ks[a] == keys[a];
        }
      }
      IndexOfUnique(keys, k, n);
    } else {
      assert k in ks by {
        assert keys == ks + [keys[n]];
      }
      DistinctPrefix(keys, n);
      ToMapAgreesWithLookup(ks, vs, k);
      var p := IndexOf(ks, k);
      assert keys[..p] == ks[..p];
      IndexOfUnique(keys, k, p);
    }
  }

  /** A prefix of a list without repeats has no repeats. */
  lemma DistinctPrefix<T>(s: seq<T>, n: nat)
    requires Distinct(s) && n <= |s|
    ensures Distinct(s[..n])
  {
    forall a, b | 0 <= a < b < n
      ensures s[..n][a] != s[..n][b]
    {
      assert s[..n][a] == s[a] && s[..n][b] == s[b];
    }
  }

  /** With a duplicated key the `instance` dictionary keeps the last value while the indexer reads the first. */
  lemma ToMapKeepsLastDuplicate<K, V>(k: K, a: V, b: V)
    ensures ToMap([k, k], [Some(a), Some(b)])[k] == Some(b)
    ensures Lookup([k, k], [Some(a), Some(b)], k) == Some(a)
  {
    assert [k, k][..1] == [k];
    assert [Some(a), Some(b)][..1] == [Some(a)];
    assert IndexOf([k, k], k) == 0;
  }

  /** The keys of a list of pairs, in order. */
  function KeysOf<K, V>(ps: seq<(K, Option<V>)>): (ks: seq<K>)
    ensures |ks| == |ps|
    ensures forall i :: 0 <= i < |ps| ==> ks[i] == ps[i].0
  {
    if ps == [] then [] else KeysOf(ps[..|ps| - 1]) + [ps[|ps| - 1].0]
  }

  /** The values of a list of pairs, in order. */
  function ValuesOf<K, V>(ps: seq<(K, Option<V>)>): (vs: seq<Option<V>>)
    ensures |vs| == |ps|
    ensures forall i :: 0 <= i < |ps| ==> vs[i] == ps[i].1
  {
    if ps == [] then [] else ValuesOf(ps[..|ps| - 1]) + [ps[|ps| - 1].1]
  }

  /** DictionaryBehaviour<K, V>, after Awake (so neither list is null). */
  class DictionaryBehaviour<K(==), V> {
    var keys: seq<K>
    var values: seq<Option<V>>
    /** default(K), which the parameterless Add uses. */
    const defaultKey: K
    /** default(V), which the parameterless Add stores: null (None) for a reference type, the zero value for a value type. */
    const defaultValue: Option<V>

    ghost predicate Valid()
      reads this
    {
      |keys| == |values|
    }

    /** A component after Awake: both lists empty. */
    constructor (defaultKey: K, defaultValue: Option<V>)
      ensures Valid() && keys == [] && values == []
      ensures this.defaultKey == defaultKey && this.defaultValue == defaultValue
    {
      keys := [];
      values := [];
      this.defaultKey := defaultKey;
      this.defaultValue := defaultValue;
    }

    /** Count: the number of pairs. */
    function Count(): (n: nat)
      reads this
      ensures n == |keys|
    {
      |keys|
    }

    /** ContainsKey: the key occurs in the key list. */
    function ContainsKey(k: K): (b: bool)
      reads this
      ensures b <==> k in keys
    {
      IndexOf(keys, k) >= 0
    }

    /** The indexer getter. */
    function Get(k: K): (r: Option<V>)
      requires Valid()
      reads this
      ensures r.Some? ==> ContainsKey(k)
    {
      Lookup(keys, values, k)
    }

    /** The indexer setter. */
    method Set(k: K, v: Option<V>)
      requires Valid()
      modifies this
      ensures Valid()
      ensures (keys, values) == Assign(old(keys), old(values), k, v)
      ensures v.Some? ==> Get(k) == v
      ensures forall o :: o != k ==> Lookup(keys, values, o) == Lookup(old(keys), old(values), o)
    {
      ghost var keys0, values0 := keys, values;
      var p := IndexOf(keys, k);
      if p >= 0 {
        if v.None? {
          RemoveAt(p);
        } else {
          values := values[p := v];
        }
      } else {
        Add(k, v);
      }
      assert (keys, values) == Assign(keys0, values0, k, v);
      if v.Some? {
        AssignThenLookup(keys0, values0, k, v);
      }
      forall o | o != k
        ensures Lookup(keys, values, o) == Lookup(keys0, values0, o)
      {
        AssignKeepsOthers(keys0, values0, k, v, o);
      }
    }

    /** Add(key, value): appends the pair, whether or not the key is present. */
    method Add(k: K, v: Option<V>)
      requires Valid()
      modifies this
      ensures Valid()
      ensures keys == old(keys) + [k] && values == old(values) + [v]
    {
      keys := keys + [k];
      values := values + [v];
    }

    /** Add(): appends default(K) with default(V). */
    method AddDefault()
      requires Valid()
      modifies this
      ensures Valid()
      ensures keys == old(keys) + [defaultKey] && values == old(values) + [defaultValue]
    {
      Add(defaultKey, defaultValue);
    }

    /** RemoveAt(i): drops position i from both lists; nothing for a negative or too large index. */
    method RemoveAt(i: int)
      requires Valid()
      modifies this
      ensures Valid()
      ensures 0 <= i < |old(keys)| ==> keys == old(keys)[..i] + old(keys)[i + 1..] && values == old(values)[..i] + old(values)[i + 1..]
      ensures !(0 <= i < |old(keys)|) ==> keys == old(keys) && values == old(values)
    {
      if i < 0 {
        return;
      }
      if i < |keys| {
        keys := keys[..i] + keys[i + 1..];
      }
      if i < |values| {
        values := values[..i] + values[i + 1..];
      }
    }

    /** Clear: both lists empty. */
    method Clear()
      modifies this
      ensures Valid() && keys == [] && values == []
    {
      keys := [];
      values := [];
    }

    /** The `pairs` getter: the pairs in index order. */
    method Pairs() returns (ps: seq<(K, Option<V>)>)
      requires Valid()
      ensures |ps| == Count()
      ensures KeysOf(ps) == keys && ValuesOf(ps) == values
      ensures forall i :: 0 <= i < |ps| ==> ps[i] == (keys[i], values[i])
    {
      ps := [];
      var i := 0;
      while i < Count()
        invariant 0 <= i <= |keys|
        invariant |ps| == i
        invariant forall j :: 0 <= j < i ==> ps[j] == (keys[j], values[j])
      {
        ps := ps + [(keys[i], values[i])];
        i := i + 1;
      }
    }

    /**
     * The `pairs` setter: null clears. Otherwise the loop runs while
     * i < values.Count, and every Add grows `values`: on an empty dictionary
     * nothing is added; on a non-empty one every pair is appended and the
     * loop then reads past the end of the argument (the result reports that
     * exception).
     */
    method SetPairs(ps: Option<seq<(K, Option<V>)>>) returns (outOfRange: bool)
      requires Valid()
      modifies this
      ensures Valid()
      ensures ps.None? ==> keys == [] && values == [] && !outOfRange
      ensures ps.Some? && old(|values|) == 0 ==> keys == old(keys) && values == old(values) && !outOfRange
      ensures ps.Some? && old(|values|) > 0 ==>
        outOfRange && keys == old(keys) + KeysOf(ps.value) && values == old(values) + ValuesOf(ps.value)
    {
      if ps.None? {
        Clear();
        return false;
      }
      var list := ps.value;
      var i := 0;
      while i < |values|
        invariant Valid()
        invariant 0 <= i <= |list|
        invariant keys == old(keys) + KeysOf(list[..i]) && values == old(values) + ValuesOf(list[..i])
        invariant |old(values)| == 0 ==> i == 0
        decreases |list| - i
      {
        if i >= |list| {
          assert list[..i] == list;
          return true;
        }
        assert list[..i + 1][..i] == list[..i];
        Add(list[i].0, list[i].1);
        i := i + 1;
      }
      assert i == 0;
      return false;
    }

    /** The `instance` getter: a dictionary with every pair, written in index order. */
    method Instance() returns (m: map<K, Option<V>>)
      requires Valid()
      ensures m == ToMap(keys, values)
      ensures forall k :: k in m <==> ContainsKey(k)
    {
      m := map[];
      var i := 0;
      while i < Count()
        invariant 0 <= i <= |keys|
        invariant m == ToMap(keys[..i], values[..i])
      {
        assert keys[..i + 1][..i] == keys[..i];
        assert values[..i + 1][..i] == values[..i];
        m := m[keys[i] := values[i]];
        i := i + 1;
      }
      assert keys[..i] == keys && values[..i] == values;
    }

    /**
     * The `instance` setter: null does nothing; otherwise Clear, then the
     * `pairs` setter, which on the now empty lists adds nothing. The
     * dictionary's entries arrive as a list of pairs.
     */
    method SetInstance(d: Option<seq<(K, Option<V>)>>)
      requires Valid()
      modifies this
      ensures Valid()
      ensures d.None? ==> keys == old(keys) && values == old(values)
      ensures d.Some? ==> keys == [] && values == []
    {
      if d.None? {
        return;
      }
      Clear();
      var _ := SetPairs(d);
    }

    /** The `pairs` setter with the loop bounded by the argument's count: null clears, otherwise every pair is appended in order. */
    method AppendPairs(ps: Option<seq<(K, Option<V>)>>)
      requires Valid()
      modifies this
      ensures Valid()
      ensures ps.None? ==> keys == [] && values == []
      ensures ps.Some? ==> keys == old(keys) + KeysOf(ps.value) && values == old(values) + ValuesOf(ps.value)
    {
      if ps.None? {
        Clear();
        return;
      }
      var list := ps.value;
      for i := 0 to |list|
        invariant Valid()
        invariant keys == old(keys) + KeysOf(list[..i]) && values == old(values) + ValuesOf(list[..i])
      {
        assert list[..i + 1][..i] == list[..i];
        Add(list[i].0, list[i].1);
      }
      assert list[..|list|] == list;
    }

    /**
     * The `instance` setter with the corrected `pairs` setter: null does
     * nothing; otherwise the lists become exactly the given pairs, so the
     * `instance` getter afterwards returns the dictionary that was set.
     */
    method LoadInstance(d: Option<seq<(K, Option<V>)>>)
      requires Valid()
      modifies this
      ensures Valid()
      ensures d.None? ==> keys == old(keys) && values == old(values)
      ensures d.Some? ==> keys == KeysOf(d.value) && values == ValuesOf(d.value)
    {
      if d.None? {
        return;
      }
      Clear();
      AppendPairs(d);
    }
  }

  /**
   * Loading a dictionary's pairs and reading `instance` back gives every
   * loaded key with its value (the last one for a repeated key).
   */
  lemma {:induction false} InstanceRoundTrip<K, V>(ps: seq<(K, Option<V>)>, i: nat)
    requires i < |ps| && forall j :: i < j < |ps| ==> ps[j].0 != ps[i].0
    ensures ps[i].0 in ToMap(KeysOf(ps), ValuesOf(ps))
    ensures ToMap(KeysOf(ps), ValuesOf(ps))[ps[i].0] == ps[i].1
    decreases |ps|
  {
    var n := |ps| - 1;
    var init := ps[..n];
    assert KeysOf(ps)[..n] == KeysOf(init);
    assert ValuesOf(ps)[..n] == ValuesOf(init);
    if i < n {
      InstanceRoundTrip(init, i);
    }
  }
}
