/**
 * Python's dynamically typed values as they appear in request bodies and patches, Python's `==`
 * between them, and Python dictionaries as insertion-ordered association lists.
 */
module Values {
  import opened Wrappers
  import Strings

  /** The JSON-like values a patch can carry. */
  datatype Value = Null | Bool(b: bool) | Int(i: int) | Str(s: string)

  /** `bool` is a subclass of `int` in Python: `True == 1` and `False == 0`. */
  predicate IsNumber(v: Value) {
    v.Bool? || v.Int?
  }

  function NumberOf(v: Value): int
    requires IsNumber(v)
  {
    match v
    case Bool(b) => if b then 1 else 0
    case Int(i) => i
  }

  /** Python's `a == b` on these values. */
  predicate PyEq(a: Value, b: Value) {
    if IsNumber(a) && IsNumber(b) then NumberOf(a) == NumberOf(b)
    else a == b
  }

  lemma PyEqIsEquivalence(a: Value, b: Value, c: Value)
    ensures PyEq(a, a)
    ensures PyEq(a, b) == PyEq(b, a)
    ensures PyEq(a, b) && PyEq(b, c) ==> PyEq(a, c)
  {
  }

  /** Two strings are Python-equal exactly when they are the same string. */
  lemma PyEqStr(s: string, v: Value)
    ensures PyEq(Str(s), v) <==> v == Str(s)
  {
  }

  // ---------------------------------------------------------------------------------------------
  // Dictionaries

  predicate DistinctKeys<V>(d: seq<(string, V)>) {
    forall i, j :: 0 <= i < j < |d| ==> d[i].0 != d[j].0
  }

  /** A Python `dict[str, V]`: its items in insertion order, each key once. */
  type Dict<V> = d: seq<(string, V)> | DistinctKeys(d) witness []

  function Keys<V>(d: seq<(string, V)>): (ks: set<string>)
    ensures forall i :: 0 <= i < |d| ==> d[i].0 in ks
    ensures forall k :: k in ks ==> exists i :: 0 <= i < |d| && d[i].0 == k
  {
    set i | 0 <= i < |d| :: d[i].0
  }

  /** `d.get(k)`: the value stored under `k`, if any. */
  function Lookup<V>(d: Dict<V>, k: string): (r: Option<V>)
    ensures r.None? <==> k !in Keys(d)
    ensures forall i :: 0 <= i < |d| && d[i].0 == k ==> r == Some(d[i].1)
  {
    if d == [] then None
    else if d[0].0 == k then Some(d[0].1)
    else
      assert DistinctKeys(d[1..]);
      Lookup(d[1..], k)
  }

  /** The keys of an item prepended to a sequence of items. */
  lemma KeysCons<V>(x: (string, V), rest: seq<(string, V)>)
    ensures Keys([x] + rest) == {x.0} + Keys(rest)
  {
    var d := [x] + rest;
    assert d[0].0 == x.0;
    forall k | k in Keys(d) ensures k in {x.0} + Keys(rest) {
      var i :| 0 <= i < |d| && d[i].0 == k;
      if i > 0 {
        assert rest[i - 1].0 == k;
      }
    }
    forall k | k in Keys(rest) ensures k in Keys(d) {
      var i :| 0 <= i < |rest| && rest[i].0 == k;
      assert d[i + 1].0 == k;
    }
  }

  /** The first key of a dictionary occurs nowhere after it, and the rest is a dictionary. */
  lemma HeadKeyFresh<V>(d: Dict<V>)
    requires d != []
    ensures DistinctKeys(d[1..])
    ensures d[0].0 !in Keys(d[1..])
    ensures Keys(d) == {d[0].0} + Keys(d[1..])
  {
    assert d == [d[0]] + d[1..];
    KeysCons(d[0], d[1..]);
    forall i | 0 <= i < |d[1..]| ensures d[1..][i].0 != d[0].0 {
      assert d[1..][i] == d[i + 1];
    }
  }

  /** A dictionary has as many keys as items. */
  lemma {:induction false} KeysCount<V>(d: Dict<V>)
    ensures |Keys(d)| == |d|
    decreases |d|
  {
    if d != [] {
      HeadKeyFresh(d);
      KeysCount(d[1..]);
    }
  }

  /** Prepending an item whose key is new keeps the keys distinct. */
  lemma ConsDistinct<V>(x: (string, V), rest: Dict<V>)
    requires x.0 !in Keys(rest)
    ensures DistinctKeys([x] + rest)
  {
    var d := [x] + rest;
    forall i, j | 0 <= i < j < |d| ensures d[i].0 != d[j].0 {
      assert d[j] == rest[j - 1];
      if i > 0 {
        assert d[i] == rest[i - 1];
      }
    }
  }

  /** `{k: v for k, v in d.items() if keep(k, v)}`: the items that pass, in their order. */
  function Where<V(!new)>(d: Dict<V>, keep: (string, V) -> bool): (r: Dict<V>)
    ensures forall x :: x in r <==> x in d && keep(x.0, x.1)
    ensures Keys(r) <= Keys(d)
    decreases |d|
  {
    if d == [] then []
    else
      HeadKeyFresh(d);
      var rest := Where(d[1..], keep);
      assert d == [d[0]] + d[1..];
      if keep(d[0].0, d[0].1) then
        ConsDistinct(d[0], rest);
        KeysCons(d[0], rest);
        [d[0]] + rest
      else rest
  }

  /** The keys of `d` outside `allowed` (`set(d) - allowed`), each once, in insertion order. */
  function ExtraKeys<V>(d: Dict<V>, allowed: set<string>): (r: seq<string>)
    ensures forall k :: k in r <==> k in Keys(d) && k !in allowed
    ensures forall i, j :: 0 <= i < j < |r| ==> r[i] != r[j]
    decreases |d|
  {
    if d == [] then []
    else
      HeadKeyFresh(d);
      var rest := ExtraKeys(d[1..], allowed);
      if d[0].0 in allowed then rest else [d[0].0] + rest
  }

  /** `sorted(set(d) - allowed)`. */
  function SortedExtraKeys<V>(d: Dict<V>, allowed: set<string>): (r: seq<string>)
    ensures Strings.Sorted(r)
    ensures multiset(r) == multiset(ExtraKeys(d, allowed))
    ensures forall k :: k in r <==> k in Keys(d) && k !in allowed
    ensures r == [] <==> Keys(d) <= allowed
  {
    var r := Strings.SortStrings(ExtraKeys(d, allowed));
    assert forall k :: k in r <==> k in multiset(r);
    assert forall k :: k in ExtraKeys(d, allowed) <==> k in multiset(ExtraKeys(d, allowed));
    r
  }

  /** Any sorted listing of the extra keys, each once, is the one `SortedExtraKeys` gives. */
  lemma SortedExtraKeysCanonical<V>(d: Dict<V>, allowed: set<string>, ks: seq<string>)
    requires Strings.Sorted(ks) && multiset(ks) == multiset(ExtraKeys(d, allowed))
    ensures ks == SortedExtraKeys(d, allowed)
  {
    Strings.SortedUnique(ks, SortedExtraKeys(d, allowed));
  }

  /** A dictionary whose values are all strings, with the strings unwrapped. */
  function AsText(d: Dict<Value>): (r: Dict<string>)
    requires forall x :: x in d ==> x.1.Str?
    ensures |r| == |d|
    ensures forall i :: 0 <= i < |d| ==> r[i] == (d[i].0, d[i].1.s)
  {
    seq(|d|, i requires 0 <= i < |d| => assert d[i] in d; (d[i].0, d[i].1.s))
  }

  /** `m.get(k)` on a mapping of values: `None` when the key is absent. */
  function Get(m: map<string, Value>, k: string): Value {
    if k in m then m[k] else Null
  }
}
