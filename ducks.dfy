/**
 * backend/app/services/ducks.py: the strict validator for duck patches and the all-or-nothing,
 * diff-then-write update of a user's duck.
 *
 * `Validate` is `_aggregate_validate` as a function of the patch and `AggregateValidate` its loop;
 * `PatchDuck` is `apply_duck_patch` as a function of the users table and `ApplyDuckPatch` the
 * method over `UserStore`. The update event is returned as an `Emission`.
 */
module Ducks {
  import opened Wrappers
  import opened Values
  import opened Http
  import opened Events
  import opened UserRepository
  import Palette
  import Overlay
  import Strings
  import Patch

  /** `EDITABLE_FIELDS`: what a client may change on its duck. */
  const EditableFields: set<string> := {"duck_color"}

  /** `ALLOWED_KEYS`: the keys that have a validator. */
  const AllowedKeys: set<string> := {"duck_color"}

  /** Every palette colour, public or locked. */
  function KnownHexes(): set<string> {
    Palette.PublicHexes() + Palette.LockedHexes()
  }

  /** `_validate_color`: any public or locked palette colour passes unchanged; anything else,
      including a value that is not a string, is a 400 `Unknown color`. */
  function ValidateColor(v: Value): (r: Result<Value, HttpError>)
    ensures r.Success? <==> v.Str? && v.s in KnownHexes()
    ensures r.Success? <==> v in {Str("#8A2BE2"), Str("#3B82F6"), Str("#FFC93A"), Str("#EF4444")}
    ensures r.Success? ==> r.value == v
    ensures r.Failure? ==> r.error == HttpError(BadRequest, Message("Unknown color"))
  {
    Palette.PaletteContents();
    if v.Str? && v.s in KnownHexes() then Success(v)
    else Failure(HttpError(BadRequest, Message("Unknown color")))
  }

  /** `VALIDATORS.get(k)` run on `v`, a key without a validator passing its value through. */
  function Checked(k: string, v: Value): Result<Value, HttpError> {
    if k == "duck_color" then ValidateColor(v) else Success(v)
  }

  /** The `msg` of an aggregated error: the detail text, or `invalid value` for any other detail. */
  function DetailMessage(e: HttpError): string {
    if e.detail.Message? then e.detail.text else "invalid value"
  }

  /** The error item of one entry when its validator rejects it. */
  function ItemFor(k: string, v: Value): seq<ErrorItem> {
    match Checked(k, v)
    case Success(_) => []
    case Failure(e) => [ErrorItem(["body", k], DetailMessage(e), "value_error")]
  }

  /** The error items of the entries, in their order. */
  function FieldErrors(d: seq<(string, Value)>): (r: seq<ErrorItem>)
    ensures forall it :: it in r <==> exists i :: 0 <= i < |d| && it in ItemFor(d[i].0, d[i].1)
  {
    if d == [] then []
    else
      var n := |d| - 1;
      var r := FieldErrors(d[..n]) + ItemFor(d[n].0, d[n].1);
      assert forall i :: 0 <= i < n ==> d[..n][i] == d[i];
      r
  }

  /** The entries whose validator accepts them, with the validated value. */
  function Passed(d: seq<(string, Value)>): seq<(string, Value)> {
    if d == [] then []
    else
      var n := |d| - 1;
      Passed(d[..n]) + (match Checked(d[n].0, d[n].1) case Success(v) => [(d[n].0, v)] case Failure(_) => [])
  }

  /** With no error item every entry passes, with the value it came with. */
  lemma {:induction false} AllPassed(d: seq<(string, Value)>)
    requires FieldErrors(d) == []
    ensures Passed(d) == d
  {
    if d != [] {
      var n := |d| - 1;
      assert FieldErrors(d[..n]) == [];
      AllPassed(d[..n]);
      assert d == d[..n] + [d[n]];
    }
  }

  /** The 422 items for keys outside `AllowedKeys`, one per key in sorted order. */
  function ExtraItems(patch: Dict<Value>): seq<ErrorItem> {
    var ks := SortedExtraKeys(patch, AllowedKeys);
    seq(|ks|, i requires 0 <= i < |ks| => ErrorItem(["body", ks[i]], "unexpected field", "value_error.extra"))
  }

  /** `_aggregate_validate` as a function of the patch. */
  function Validate(patch: Dict<Value>): Result<Dict<Value>, HttpError> {
    if !(Keys(patch) <= AllowedKeys) then Failure(HttpError(UnprocessableEntity, Items(ExtraItems(patch))))
    else if FieldErrors(patch) != [] then Failure(HttpError(UnprocessableEntity, Items(FieldErrors(patch))))
    else Success(patch)
  }

  /**
   * `_aggregate_validate`: refuses unexpected keys first, then runs every validator, collecting
   * one error item per rejected field, and answers the validated values when there is none.
   */
  method AggregateValidate(patch: Dict<Value>) returns (r: Result<Dict<Value>, HttpError>)
    ensures r == Validate(patch)
  {
    if !(Keys(patch) <= AllowedKeys) {
      return Failure(HttpError(UnprocessableEntity, Items(ExtraItems(patch))));
    }
    var errors: seq<ErrorItem> := [];
    var validated: seq<(string, Value)> := [];
    var i := 0;
    while i < |patch|
      invariant 0 <= i <= |patch|
      invariant errors == FieldErrors(patch[..i])
      invariant validated == Passed(patch[..i])
    {
      var (k, v) := patch[i];
      assert patch[..i + 1][..i] == patch[..i];
      var checked := Checked(k, v);
      if checked.Success? {
        validated := validated + [(k, checked.value)];
      } else {
        errors := errors + [ErrorItem(["body", k], DetailMessage(checked.error), "value_error")];
      }
      i := i + 1;
    }
    assert patch[..i] == patch;
    if errors != [] {
      return Failure(HttpError(UnprocessableEntity, Items(errors)));
    }
    AllPassed(patch);
    r := Success(validated);
  }

  /**
   * A body that `extract_patch` lets through with `EDITABLE_FIELDS` names only keys that have a
   * validator, so validating it never reports an unexpected field: it passes or fails on its
   * values alone.
   */
  lemma EditableFieldsHaveValidators(raw: Dict<Value>)
    requires Patch.ExtractPatch(raw, EditableFields).Success?
    ensures Keys(Patch.ExtractPatch(raw, EditableFields).value) <= AllowedKeys
    ensures Validate(Patch.ExtractPatch(raw, EditableFields).value).Failure? <==> FieldErrors(raw) != []
  {
    assert Keys(raw) <= EditableFields;
  }

  /**
   * A key outside `{"duck_color"}` fails the whole patch with 422, listing one `unexpected field`
   * item per extra key, the keys in sorted order.
   */
  lemma ValidateRejectsExtras(patch: Dict<Value>)
    requires !(Keys(patch) <= AllowedKeys)
    ensures var ks := SortedExtraKeys(patch, AllowedKeys);
      && Validate(patch) == Failure(HttpError(UnprocessableEntity, Items(ExtraItems(patch))))
      && Strings.Sorted(ks)
      && (forall k :: k in ks <==> k in Keys(patch) && k != "duck_color")
      && multiset(ks) == multiset(ExtraKeys(patch, AllowedKeys))
      && |ExtraItems(patch)| == |ks|
      && (forall i :: 0 <= i < |ks| ==> ExtraItems(patch)[i] == ErrorItem(["body", ks[i]], "unexpected field", "value_error.extra"))
  {
  }

  /**
   * With only allowed keys every validator runs: the patch passes exactly when every value is a
   * palette colour, and otherwise the 422 lists an `Unknown color` item for each rejected field
   * and for nothing else.
   */
  lemma ValidateAggregates(patch: Dict<Value>)
    requires Keys(patch) <= AllowedKeys
    ensures Validate(patch).Success? <==> forall i :: 0 <= i < |patch| ==> ValidateColor(patch[i].1).Success?
    ensures Validate(patch).Failure? ==>
      && Validate(patch).error.status == UnprocessableEntity
      && Validate(patch).error.detail.Items?
      && forall it :: it in Validate(patch).error.detail.items <==>
           exists i :: 0 <= i < |patch| && ValidateColor(patch[i].1).Failure?
                       && it == ErrorItem(["body", patch[i].0], "Unknown color", "value_error")
  {
    forall i | 0 <= i < |patch| ensures patch[i].0 == "duck_color" {
      assert patch[i].0 in Keys(patch);
    }
    assert FieldErrors(patch) == [] <==> forall i :: 0 <= i < |patch| ==> ValidateColor(patch[i].1).Success? by {
      if FieldErrors(patch) != [] {
        var it := FieldErrors(patch)[0];
        assert it in FieldErrors(patch);
      }
    }
  }

  /** What passes validation is the patch itself, each value a palette colour string under
      the key `duck_color`. */
  lemma ValidatedPatch(patch: Dict<Value>)
    requires Validate(patch).Success?
    ensures Validate(patch).value == patch
    ensures forall x :: x in patch ==> x.0 == "duck_color" && x.1.Str? && x.1.s in KnownHexes()
    ensures |patch| <= 1
  {
    ValidateAggregates(patch);
    forall x | x in patch ensures x.0 == "duck_color" && x.1.Str? && x.1.s in KnownHexes() {
      var i :| 0 <= i < |patch| && patch[i] == x;
      assert patch[i].0 in Keys(patch);
    }
    KeysCount(patch);
    assert Keys(patch) == {} || Keys(patch) == {"duck_color"};
  }

  // ---------------------------------------------------------------------------------------------
  // apply_duck_patch

  /** `DuckOut(...).model_dump()` together with the changed fields. */
  datatype DuckPatchResult = DuckPatchResult(duckColor: string, changed: Dict<Value>)

  datatype DuckOutcome = DuckOutcome(after: map<string, User>, result: Result<DuckPatchResult, HttpError>, emitted: Option<Emission>)

  /**
   * `getattr(user, k)` for the record's fields. For any other name `getattr` raises
   * `AttributeError`; the `Null` here stands for that case, which cannot arise, because a
   * validated patch only ever names `duck_color`.
   */
  function Attr(u: User, k: string): Value {
    if k == "duck_color" then Str(u.duckColor)
    else if k == "display" then Str(u.display)
    else if k == "id" then Str(u.id)
    else Null
  }

  /** `{k: v for k, v in clean.items() if getattr(user, k) != v}`. */
  function ChangedEntries(u: User, clean: Dict<Value>): (r: Dict<Value>)
    ensures forall x :: x in r <==> x in clean && !PyEq(Attr(u, x.0), x.1)
    ensures Keys(r) <= Keys(clean)
  {
    Where(clean, (k, v) => !PyEq(Attr(u, k), v))
  }

  /** `apply_duck_patch` as a function of the users table. */
  function PatchDuck(users: map<string, User>, uid: string, patch: Dict<Value>, channel: string): DuckOutcome {
    if uid !in users then DuckOutcome(users, Failure(HttpError(NotFound, Message("User not found"))), None)
    else
      var user := users[uid];
      if patch == [] then DuckOutcome(users, Success(DuckPatchResult(user.duckColor, [])), None)
      else match Validate(patch)
        case Failure(e) => DuckOutcome(users, Failure(e), None)
        case Success(clean) =>
          ValidatedPatch(patch);
          var changed := ChangedEntries(user, clean);
          if changed == [] then DuckOutcome(users, Success(DuckPatchResult(user.duckColor, [])), None)
          else
            var text := AsText(changed);
            var patched := ApplyChanges(user, text);
            var event :=
              if "duck_color" in Keys(text)
              then Some(Emission(channel, Overlay.MakeDuckUpdateEvent(uid, Lookup(text, "duck_color").value)))
              else None;
            DuckOutcome(users[uid := patched], Success(DuckPatchResult(patched.duckColor, changed)), event)
  }

  /**
   * `apply_duck_patch`: 404 for an unknown user; an empty patch answers the stored colour; then
   * the whole patch is validated before anything is written, only the entries that differ from
   * the stored record are written, and a duck update goes out when the colour is among them.
   */
  method ApplyDuckPatch(users: UserStore, uid: string, patch: Dict<Value>, channel: string := "default")
    returns (r: Result<DuckPatchResult, HttpError>, emitted: Option<Emission>)
    requires users.Valid()
    modifies users
    ensures users.Valid()
    ensures DuckOutcome(users.users, r, emitted) == PatchDuck(old(users.users), uid, patch, channel)
  {
    var user := users.GetUser(uid);
    if user.None? {
      return Failure(HttpError(NotFound, Message("User not found"))), None;
    }
    var u := user.value;
    if patch == [] {
      return Success(DuckPatchResult(u.duckColor, [])), None;
    }
    var clean := AggregateValidate(patch);
    if clean.Failure? {
      return Failure(clean.error), None;
    }
    ValidatedPatch(patch);
    var changed := ChangedEntries(u, clean.value);
    emitted := None;
    if changed != [] {
      var text := AsText(changed);
      var patched := users.PatchUser(uid, text);
      u := patched.value;
      if "duck_color" in Keys(text) {
        emitted := Some(Emission(channel, Overlay.MakeDuckUpdateEvent(uid, Lookup(text, "duck_color").value)));
      }
    }
    r := Success(DuckPatchResult(u.duckColor, changed));
  }

  /** An unknown user gets a 404 and nothing is written or emitted. */
  lemma PatchDuckUnknownUser(users: map<string, User>, uid: string, patch: Dict<Value>, channel: string)
    requires uid !in users
    ensures PatchDuck(users, uid, patch, channel)
         == DuckOutcome(users, Failure(HttpError(NotFound, Message("User not found"))), None)
  {
  }

  /** An empty patch answers the stored colour and an empty change set, and writes nothing. */
  lemma PatchDuckEmpty(users: map<string, User>, uid: string, channel: string)
    requires uid in users
    ensures PatchDuck(users, uid, [], channel)
         == DuckOutcome(users, Success(DuckPatchResult(users[uid].duckColor, [])), None)
  {
  }

  /** All or nothing: a patch that fails validation writes nothing and emits nothing. */
  lemma PatchDuckAllOrNothing(users: map<string, User>, uid: string, patch: Dict<Value>, channel: string)
    requires uid in users && patch != [] && Validate(patch).Failure?
    ensures PatchDuck(users, uid, patch, channel) == DuckOutcome(users, Failure(Validate(patch).error), None)
  {
  }

  /**
   * A valid patch writes only what differs: the changed set is exactly the patch entries whose
   * value differs from the stored colour, only the caller's colour can change, the answered colour
   * is the patch's colour when it names one and the stored one otherwise, and an update event for
   * the new colour goes to the channel exactly when the colour changed.
   */
  lemma PatchDuckWritesOnlyChanges(users: map<string, User>, uid: string, patch: Dict<Value>, channel: string)
    requires uid in users && Validate(patch).Success?
    ensures var o := PatchDuck(users, uid, patch, channel);
      var user := users[uid];
      && o.result.Success?
      && (forall x :: x in o.result.value.changed <==> x in patch && x.1 != Str(user.duckColor))
      && (forall c :: ("duck_color", Str(c)) in patch ==> o.result.value.duckColor == c)
      && ("duck_color" !in Keys(patch) ==> o.result.value.duckColor == user.duckColor)
      && o.after == users[uid := user.(duckColor := o.result.value.duckColor)]
      && (o.result.value.changed == [] <==> o.after == users)
      && (o.emitted.Some? <==> o.result.value.duckColor != user.duckColor)
      && (o.emitted.Some? ==> o.emitted == Some(Emission(channel, DuckUpdateEvent(uid, Duck(o.result.value.duckColor)))))
  {
    var user := users[uid];
    var o := PatchDuck(users, uid, patch, channel);
    ValidatedPatch(patch);
    if patch == [] {
      assert users[uid := user] == users;
    } else {
      var x := patch[0];
      assert x in patch;
      assert patch == [x];
      var c := x.1.s;
      PyEqStr(user.duckColor, x.1);
      var changed := ChangedEntries(user, patch);
      if c == user.duckColor {
        assert changed == [];
        assert users[uid := user] == users;
      } else {
        assert x in changed;
        assert changed == [x];
        var text := AsText(changed);
        assert text == [("duck_color", c)];
        assert Lookup(text, "display") == None;
        assert text[0].0 in Keys(text);
        assert users[uid := user.(duckColor := c)] != users by {
          assert users[uid := user.(duckColor := c)][uid].duckColor != users[uid].duckColor;
        }
      }
    }
  }

  /** Applying the same valid patch twice: the second run changes nothing and emits nothing. */
  lemma PatchDuckTwice(users: map<string, User>, uid: string, patch: Dict<Value>, channel: string)
    requires uid in users && Validate(patch).Success?
    ensures var first := PatchDuck(users, uid, patch, channel);
      var second := PatchDuck(first.after, uid, patch, channel);
      && second.after == first.after
      && second.result == Success(DuckPatchResult(first.result.value.duckColor, []))
      && second.emitted == None
  {
    var first := PatchDuck(users, uid, patch, channel);
    PatchDuckWritesOnlyChanges(users, uid, patch, channel);
    PatchDuckWritesOnlyChanges(first.after, uid, patch, channel);
    var second := PatchDuck(first.after, uid, patch, channel);
    ValidatedPatch(patch);
    if patch != [] {
      assert patch[0] in patch;
      assert patch[0].1 == Str(first.result.value.duckColor);
    }
  }
}
