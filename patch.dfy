/**
 * backend/app/utils/patch.py: extracting the provided, allowed fields of a request body, and
 * applying a patch to a mutable mapping in place, reporting the keys whose value changed.
 *
 * A pydantic body is represented by the dictionary `model_dump(exclude_unset=True)` returns,
 * that is, the fields the client provided, in order.
 */
module Patch {
  import opened Wrappers
  import opened Values
  import Strings

  /** The `ValueError` message naming the forbidden fields. */
  function ForbiddenMessage(keys: seq<string>): string {
    "Forbidden fields: " + Strings.Join(keys, ", ")
  }

  /**
   * `extract_patch`: the provided fields pass unchanged when every one of them is allowed; any
   * other provided field makes it fail, naming all such fields.
   */
  function ExtractPatch(raw: Dict<Value>, allowed: set<string>): (r: Result<Dict<Value>, string>)
    ensures r.Success? <==> forall i :: 0 <= i < |raw| ==> raw[i].0 in allowed
    ensures r.Success? ==> r.value == raw
    ensures r.Failure? ==> r.error == ForbiddenMessage(SortedExtraKeys(raw, allowed))
  {
    if Keys(raw) <= allowed then Success(raw)
    else Failure(ForbiddenMessage(SortedExtraKeys(raw, allowed)))
  }

  /** The names in the message are the forbidden fields, each once, in sorted order. */
  lemma ExtractPatchNamesForbidden(raw: Dict<Value>, allowed: set<string>)
    requires ExtractPatch(raw, allowed).Failure?
    ensures exists ks ::
      && ExtractPatch(raw, allowed).error == ForbiddenMessage(ks)
      && ks != []
      && Strings.Sorted(ks)
      && multiset(ks) == multiset(ExtraKeys(raw, allowed))
      && (forall k :: k in ks <==> k in Keys(raw) && k !in allowed)
  {
    var ks := SortedExtraKeys(raw, allowed);
    assert ExtractPatch(raw, allowed).error == ForbiddenMessage(ks);
  }

  /** A `MutableMapping[str, Any]` updated in place. */
  class MutableMapping {
    var items: map<string, Value>

    constructor (init: map<string, Value>)
      ensures items == init
    {
      items := init;
    }

    /** `current.get(k)`. */
    function Get(k: string): (v: Value)
      reads this
      ensures k !in items ==> v == Null
      ensures k in items ==> v == items[k]
    {
      Values.Get(items, k)
    }

    /** `current[k] = v`. */
    method Set(k: string, v: Value)
      modifies this
      ensures items == old(items)[k := v]
    {
      items := items[k := v];
    }
  }

  /** One iteration of `apply_patch`: write `v` under `k` unless `current.get(k) == v` already. */
  function Step(m: map<string, Value>, k: string, v: Value): map<string, Value> {
    if !PyEq(Get(m, k), v) then m[k := v] else m
  }

  /** The mapping after the loop of `apply_patch` over the entries `p`. */
  function Patched(m: map<string, Value>, p: seq<(string, Value)>): map<string, Value>
    decreases |p|
  {
    if p == [] then m else Patched(Step(m, p[0].0, p[0].1), p[1..])
  }

  /** The keys the loop of `apply_patch` over `p` adds to `changed`. */
  function ChangedKeys(m: map<string, Value>, p: seq<(string, Value)>): set<string>
    decreases |p|
  {
    if p == [] then {}
    else (if !PyEq(Get(m, p[0].0), p[0].1) then {p[0].0} else {}) + ChangedKeys(Step(m, p[0].0, p[0].1), p[1..])
  }

  /** The patch keys whose value in `m` is not Python-equal to the patch value. */
  function Differing(m: map<string, Value>, p: seq<(string, Value)>): set<string> {
    set i | 0 <= i < |p| && !PyEq(Get(m, p[i].0), p[i].1) :: p[i].0
  }

  /** `apply_patch(current, patch)`: writes each entry that differs and returns their keys. */
  method ApplyPatch(current: MutableMapping, patch: Dict<Value>) returns (changed: set<string>)
    modifies current
    ensures current.items == Patched(old(current.items), patch)
    ensures changed == ChangedKeys(old(current.items), patch)
  {
    changed := {};
    var i := 0;
    while i < |patch|
      invariant 0 <= i <= |patch|
      invariant Patched(current.items, patch[i..]) == Patched(old(current.items), patch)
      invariant changed + ChangedKeys(current.items, patch[i..]) == ChangedKeys(old(current.items), patch)
    {
      var (k, v) := patch[i];
      assert patch[i..][1..] == patch[i + 1..];
      if !PyEq(current.Get(k), v) {
        current.Set(k, v);
        changed := changed + {k};
      }
      i := i + 1;
    }
  }

  /** Keys the patch does not name are left exactly as they were. */
  lemma {:induction false} PatchedUntouched(m: map<string, Value>, p: seq<(string, Value)>, k: string)
    requires k !in Keys(p)
    ensures k in Patched(m, p) <==> k in m
    ensures k in m ==> Patched(m, p)[k] == m[k]
    decreases |p|
  {
    if p != [] {
      assert p[0].0 != k;
      assert p == [p[0]] + p[1..];
      KeysCons(p[0], p[1..]);
      PatchedUntouched(Step(m, p[0].0, p[0].1), p[1..], k);
    }
  }

  /** After the patch, `current.get(k) == patch[k]` for every patched key. */
  lemma {:induction false} PatchedSetsValues(m: map<string, Value>, p: Dict<Value>)
    ensures forall i :: 0 <= i < |p| ==> PyEq(Get(Patched(m, p), p[i].0), p[i].1)
    decreases |p|
  {
    if p != [] {
      HeadKeyFresh(p);
      var m1 := Step(m, p[0].0, p[0].1);
      assert PyEq(Get(m1, p[0].0), p[0].1) by {
        Values.PyEqIsEquivalence(p[0].1, p[0].1, p[0].1);
      }
      PatchedUntouched(m1, p[1..], p[0].0);
      PatchedSetsValues(m1, p[1..]);
      forall i | 0 < i < |p| ensures PyEq(Get(Patched(m, p), p[i].0), p[i].1) {
        assert p[1..][i - 1] == p[i];
      }
    }
  }

  /** `Differing` splits off the first entry of any list of entries. */
  lemma DifferingCons(m: map<string, Value>, p: seq<(string, Value)>)
    requires p != []
    ensures Differing(m, p) == (if !PyEq(Get(m, p[0].0), p[0].1) then {p[0].0} else {}) + Differing(m, p[1..])
  {
    var head := if !PyEq(Get(m, p[0].0), p[0].1) then {p[0].0} else {};
    forall k | k in Differing(m, p) ensures k in head + Differing(m, p[1..]) {
      var i :| 0 <= i < |p| && !PyEq(Get(m, p[i].0), p[i].1) && p[i].0 == k;
      if i > 0 {
        assert p[1..][i - 1] == p[i];
      }
    }
    forall k | k in Differing(m, p[1..]) ensures k in Differing(m, p) {
      var i :| 0 <= i < |p[1..]| && !PyEq(Get(m, p[1..][i].0), p[1..][i].1) && p[1..][i].0 == k;
      assert p[i + 1] == p[1..][i];
    }
  }

  /** Writing under a key no later entry names leaves what those entries differ from unchanged. */
  lemma DifferingAfterStep(m: map<string, Value>, p: Dict<Value>)
    requires p != []
    ensures Differing(Step(m, p[0].0, p[0].1), p[1..]) == Differing(m, p[1..])
  {
    HeadKeyFresh(p);
    var m1 := Step(m, p[0].0, p[0].1);
    forall i | 0 <= i < |p[1..]| ensures Get(m1, p[1..][i].0) == Get(m, p[1..][i].0) {
      assert p[1..][i] == p[i + 1];
    }
  }

  /** The loop reports exactly the patch keys whose old value differed from the patch value. */
  lemma {:induction false} ChangedKeysDiffering(m: map<string, Value>, p: Dict<Value>)
    ensures ChangedKeys(m, p) == Differing(m, p)
    decreases |p|
  {
    if p != [] {
      HeadKeyFresh(p);
      ChangedKeysDiffering(Step(m, p[0].0, p[0].1), p[1..]);
      DifferingAfterStep(m, p);
      DifferingCons(m, p);
    }
  }

  /** The keys of the patched mapping: the old keys and the changed ones. */
  lemma {:induction false} PatchedKeys(m: map<string, Value>, p: seq<(string, Value)>)
    ensures Patched(m, p).Keys == m.Keys + ChangedKeys(m, p)
    decreases |p|
  {
    if p != [] {
      PatchedKeys(Step(m, p[0].0, p[0].1), p[1..]);
    }
  }

  /** `get` is used for the comparison, so a `None` value for an absent key is not inserted. */
  lemma NullNotInserted(m: map<string, Value>, p: Dict<Value>, k: string)
    requires k !in m && Lookup(p, k) == Some(Null)
    ensures k !in Patched(m, p)
    ensures k !in ChangedKeys(m, p)
  {
    PatchedKeys(m, p);
    ChangedKeysDiffering(m, p);
  }

  /** A patch every entry of which already holds changes nothing and reports nothing. */
  lemma {:induction false} PatchAlreadyHolds(m: map<string, Value>, p: seq<(string, Value)>)
    requires forall i :: 0 <= i < |p| ==> PyEq(Get(m, p[i].0), p[i].1)
    ensures Patched(m, p) == m
    ensures ChangedKeys(m, p) == {}
    decreases |p|
  {
    if p != [] {
      assert Step(m, p[0].0, p[0].1) == m;
      forall i | 0 <= i < |p[1..]| ensures PyEq(Get(m, p[1..][i].0), p[1..][i].1) {
        assert p[1..][i] == p[i + 1];
      }
      PatchAlreadyHolds(m, p[1..]);
    }
  }

  /** Applying the same patch a second time returns the empty set and changes nothing. */
  lemma ApplyPatchIdempotent(m: map<string, Value>, p: Dict<Value>)
    ensures Patched(Patched(m, p), p) == Patched(m, p)
    ensures ChangedKeys(Patched(m, p), p) == {}
  {
    PatchedSetsValues(m, p);
    PatchAlreadyHolds(Patched(m, p), p);
  }
}
