/**
 * A string-keyed record as JavaScript objects are used by the store: own keys keep
 * their insertion order (`Object.keys`, `Object.values`, `Object.entries`), a spread
 * with a new key appends it, a spread with an existing key replaces the value in place,
 * and `delete` drops the key.
 */
module Dicts {
  import opened Optional

  ghost predicate Distinct(s: seq<string>) {
    forall i, j :: 0 <= i < j < |s| ==> s[i] != s[j]
  }

  /** `s` with every occurrence of `k` dropped, order kept. */
  function Without(s: seq<string>, k: string): (r: seq<string>)
    ensures forall x :: x in r <==> x in s && x != k
    ensures Distinct(s) ==> Distinct(r)
    ensures k !in s ==> r == s
  {
    if s == [] then []
    else if s[0] == k then Without(s[1..], k)
    else
      var r := Without(s[1..], k);
      assert Distinct(s) ==> Distinct(s[1..]) && s[0] !in s[1..] by {
        forall i | 0 <= i < |s[1..]| ensures Distinct(s) ==> s[1..][i] != s[0] {
          assert s[1..][i] == s[i + 1];
        }
      }
      [s[0]] + r
  }

  datatype Dict<V> = Dict(keys: seq<string>, items: map<string, V>) {

    /** The key order lists every key exactly once. */
    ghost predicate Valid() {
      Distinct(keys) && forall k :: k in items <==> k in keys
    }

    /** `obj[k]`, undefined when absent. */
    function Get(k: string): Option<V> {
      if k in items then Some(items[k]) else None
    }

    /** `{ ...obj, [k]: v }`. */
    function Put(k: string, v: V): (d: Dict<V>)
      ensures Valid() ==> d.Valid()
      ensures d.items == items[k := v]
      ensures k in items ==> d.keys == keys
      ensures k !in items ==> d.keys == keys + [k]
    {
      if k in items then Dict(keys, items[k := v]) else Dict(keys + [k], items[k := v])
    }

    /** `const c = { ...obj }; delete c[k]`. */
    function Remove(k: string): (d: Dict<V>)
      ensures Valid() ==> d.Valid()
      ensures d.items == items - {k}
      ensures d.keys == Without(keys, k)
    {
      Dict(Without(keys, k), items - {k})
    }

    /** `Object.keys(obj)[0] || ""`. */
    function FirstKey(): string {
      if |keys| > 0 then keys[0] else ""
    }

    /** `Object.entries(obj)`. */
    function Entries(): seq<(string, V)> {
      EntriesOf(keys)
    }

    function EntriesOf(ks: seq<string>): (r: seq<(string, V)>)
      ensures forall e :: e in r ==> e.0 in items && items[e.0] == e.1
    {
      if ks == [] then []
      else (if ks[0] in items then [(ks[0], items[ks[0]])] else []) + EntriesOf(ks[1..])
    }

    /** `Object.values(obj)`. */
    function Values(): seq<V> {
      ValuesOf(Entries())
    }
  }

  function ValuesOf<V>(es: seq<(string, V)>): (r: seq<V>)
    ensures |r| == |es| && forall i :: 0 <= i < |es| ==> r[i] == es[i].1
  {
    if es == [] then [] else [es[0].1] + ValuesOf(es[1..])
  }

  /** Under `Valid`, `Object.entries` lists every key in order, each with its value. */
  lemma {:induction false} EntriesOfValid<V>(d: Dict<V>, ks: seq<string>)
    requires forall k :: k in ks ==> k in d.items
    ensures |d.EntriesOf(ks)| == |ks|
    ensures forall i :: 0 <= i < |ks| ==> d.EntriesOf(ks)[i] == (ks[i], d.items[ks[i]])
  {
    if ks != [] {
      EntriesOfValid(d, ks[1..]);
    }
  }

  lemma EntriesValid<V>(d: Dict<V>)
    requires d.Valid()
    ensures |d.Entries()| == |d.keys| == |d.Values()|
    ensures forall i :: 0 <= i < |d.keys| ==> d.Entries()[i] == (d.keys[i], d.items[d.keys[i]])
  {
    EntriesOfValid(d, d.keys);
  }

  /** Under `Valid`, `Object.values` lists the value of every key, in key order. */
  lemma ValuesValid<V>(d: Dict<V>)
    requires d.Valid()
    ensures |d.Values()| == |d.keys|
    ensures forall i :: 0 <= i < |d.keys| ==> d.Values()[i] == d.items[d.keys[i]]
  {
    EntriesValid(d);
  }

  /** Two dictionaries with the same keys that differ at most under the key at position `i`
      list the same values, except at position `i`. */
  lemma ValuesReplaced<V>(d: Dict<V>, d': Dict<V>, i: nat)
    requires d.Valid() && d'.Valid() && d'.keys == d.keys && i < |d.keys|
    requires forall k :: k != d.keys[i] ==> d'.Get(k) == d.Get(k)
    ensures |d'.Values()| == |d.Values()| == |d.keys|
    ensures d'.Values() == d.Values()[i := d'.items[d.keys[i]]]
  {
    ValuesValid(d);
    ValuesValid(d');
    var x := d'.items[d.keys[i]];
    var vs, vs' := d.Values(), d'.Values();
    forall j | 0 <= j < |vs|
      ensures vs'[j] == vs[i := x][j]
    {
      ValueKept(d, d', i, j);
    }
  }

  lemma ValueKept<V>(d: Dict<V>, d': Dict<V>, i: nat, j: nat)
    requires d.Valid() && d'.Valid() && d'.keys == d.keys && i < |d.keys| && j < |d.keys|
    requires forall k :: k != d.keys[i] ==> d'.Get(k) == d.Get(k)
    ensures |d'.Values()| == |d.Values()| == |d.keys|
    ensures d'.Values()[j] == d.Values()[i := d'.items[d.keys[i]]][j]
  {
    ValuesValid(d);
    ValuesValid(d');
    if j != i {
      assert d.keys[j] != d.keys[i];
      assert d'.Get(d.keys[j]) == d.Get(d.keys[j]);
    }
  }
}
