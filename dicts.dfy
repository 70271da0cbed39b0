/**
 * Python's `dict` with string keys: a finite map together with the order in
 * which its keys were first inserted, which is the order iteration follows.
 */
module Dicts {

  datatype Dict<V> = Dict(keys: seq<string>, items: map<string, V>)

  /** No key occurs twice: each one is absent from the keys before it. */
  ghost predicate Distinct(s: seq<string>)
    decreases |s|
  {
    |s| == 0 || (s[|s| - 1] !in s[..|s| - 1] && Distinct(s[..|s| - 1]))
  }

  lemma DistinctAppend(s: seq<string>, k: string)
    ensures Distinct(s) && k !in s ==> Distinct(s + [k])
  {
    assert (s + [k])[..|s|] == s;
  }

  /** Every prefix of a distinct sequence is distinct, and the key after it is not in it. */
  lemma {:induction false} DistinctPrefix(s: seq<string>, n: nat)
    requires Distinct(s) && n <= |s|
    ensures Distinct(s[..n])
    ensures n < |s| ==> s[n] !in s[..n]
    decreases |s|
  {
    if n < |s| {
      var t := s[..|s| - 1];
      if n < |t| {
        DistinctPrefix(t, n);
        assert t[..n] == s[..n] && t[n] == s[n];
      } else {
        assert t == s[..n];
      }
    } else {
      assert s[..n] == s;
    }
  }

  /** The usual pairwise formulation. */
  lemma DistinctIndices(s: seq<string>, i: nat, j: nat)
    requires Distinct(s) && i < j < |s|
    ensures s[i] != s[j]
  {
    DistinctPrefix(s, j);
    assert s[i] in s[..j];
  }

  /** The key order lists every key of the map exactly once. */
  ghost predicate Valid<V>(d: Dict<V>)
  {
    Distinct(d.keys) && forall k :: k in d.items <==> k in d.keys
  }

  function Empty<V>(): (d: Dict<V>)
    ensures Valid(d) && d.keys == [] && d.items == map[]
  {
    Dict([], map[])
  }

  /** `d[k] = v`: a new key goes to the end of the order, an existing key keeps its place. */
  function Insert<V>(d: Dict<V>, k: string, v: V): (r: Dict<V>)
    ensures Valid(d) ==> Valid(r)
    ensures r.items == d.items[k := v]
    ensures k in d.items ==> r.keys == d.keys
    ensures k !in d.items ==> r.keys == d.keys + [k]
  {
    if k in d.items then Dict(d.keys, d.items[k := v])
    else
      DistinctAppend(d.keys, k);
      Dict(d.keys + [k], d.items[k := v])
  }

  /** `d[k] = v` adds `k` to the keys and leaves every other key's value alone. */
  lemma InsertPlacement<V>(d: Dict<V>, k: string, v: V)
    ensures Insert(d, k, v).items.Keys == d.items.Keys + {k}
    ensures forall x :: x in d.items && x != k ==> Insert(d, k, v).items[x] == d.items[x]
  {
    assert Insert(d, k, v).items == d.items[k := v];
  }

  /** Assigning a key twice keeps only the second value, at the place the first assignment gave the key. */
  lemma InsertOverwrite<V>(d: Dict<V>, k: string, a: V, b: V)
    ensures Insert(Insert(d, k, a), k, b) == Insert(d, k, b)
  {
    assert d.items[k := a][k := b] == d.items[k := b];
  }

  /** Assigning a key the value it already holds changes nothing. */
  lemma InsertPresent<V>(d: Dict<V>, k: string)
    requires k in d.items
    ensures Insert(d, k, d.items[k]) == d
  {
    assert d.items[k := d.items[k]] == d.items;
  }

  /** The entries of the first `n` keys, in order: what a loop over `d` has seen after `n` steps. */
  function Prefix<V>(d: Dict<V>, n: nat): (r: Dict<V>)
    requires Valid(d) && n <= |d.keys|
    ensures Valid(r) && r.keys == d.keys[..n]
  {
    DistinctPrefix(d.keys, n);
    Dict(d.keys[..n], map k | k in d.keys[..n] :: d.items[k])
  }

  lemma PrefixFull<V>(d: Dict<V>)
    requires Valid(d)
    ensures Prefix(d, |d.keys|) == d
  {
    assert d.keys[..|d.keys|] == d.keys;
  }

  lemma PrefixStep<V>(d: Dict<V>, n: nat)
    requires Valid(d) && n < |d.keys|
    ensures Insert(Prefix(d, n), d.keys[n], d.items[d.keys[n]]) == Prefix(d, n + 1)
  {
    assert d.keys[..n + 1] == d.keys[..n] + [d.keys[n]];
    DistinctPrefix(d.keys, n);
  }
}
