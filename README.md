# QuackChat backend core in Dafny

QuackChat lets stream viewers own a coloured duck that appears on a streamer's overlay. This project models, in Dafny, the backend logic behind it:

- **The overlay room registry** (`Overlay`). It maps each channel to its WebSocket connections. A broadcast sends one serialised payload to a snapshot of the channel and drops every connection whose send fails. The module also builds the two overlay events.
- **The pairing-code protocol** (`PairingRepository`, `PairingService`):
  - a guest picks a public colour and receives a six-digit upper-case hexadecimal code that lives 300 seconds;
  - a caller names a user id and claims the code on a channel;
  - the claim deletes the code, sets the user's duck colour and sends a duck update to the overlay.
- **The duck customisation pipeline** (`Ducks`, `Patch`, `UserRepository`):
  - strict validation of a patch, which rejects unknown fields (422) and unknown colours;
  - an all-or-nothing, write-only-what-changed update of the user record;
  - the generic patch helpers;
  - the whitelisted user repository.
- **The settings** (`Settings`): read from an environment map, including the comma-separated list parser.

Support modules give Python's semantics where the code depends on them:
- `Strings`: `str.strip`, `split`/`join`, ASCII `lower`, `int()`, code-point ordering and `sorted`.
- `Values`: dynamically typed values, Python `==` (where `True == 1`), and insertion-ordered dictionaries with distinct keys.
- Datatypes for the palette (`Palette`), events (`Events`) and HTTP errors (`Http`).

What a store holds:
- The pairing-code table is a class `CodeTable` over a map from code to row.
- The users table is a class `UserStore` over a map from id to record.
- The room registry is a class `Rooms` over a map from channel to a set of connections.
- The mapping that `apply_patch` updates is a class `MutableMapping`.

How operations are modelled:
- Each service operation that reads and writes a store is a method. `claim_pairing_code` and `apply_duck_patch` are each proved equal to a function of the tables (`Claim` and `PatchDuck`), and their properties are lemmas about that function. `create_pairing_code` draws a random code, so its contract relates the old and new tables instead.
- The WebSocket connection type is a type parameter. Whether a send succeeds is a parameter `sendOk: Conn -> bool`, and `json.dumps` is a parameter `dumps`.
- The clock is an integer count of UTC seconds passed in as `now`. `create_pairing_code` reads the clock a second time for its response (`responseNow`).
- The random source of `generate_code` is a nondeterministic choice of three bytes.
- Events that a service sends are returned as an `Emission` (channel, event). `Overlay.SendEvent` models their delivery through `Rooms.Broadcast`.

Where the model deviates from the code as written:
- **Missing `UsersRepository`.** backend/app/repository/pairing.py imports `UsersRepository` from backend/app/repository/user.py, which defines no such class.
  - The pairing service calls `uow.users.get`, `create` and `patch`. These are modelled by `UserStore.GetUser`, `UserStore.Create` and `UserStore.PatchUser`.
  - backend/app/db/uow.py gives `UnitOfWork` no `pairing` attribute. The model passes the code table directly.
- **`DuckOut` field name.** backend/app/schemas/duck.py declares the field as `color`, but the services build `DuckOut(duck_color=...)`.
  - The model carries one colour string per duck and per event and does not model pydantic's validation of that keyword.

## Model

| member | source | states |
|---|---|---|
| Palette.PaletteContents | backend/app/core/state.py:7-16 | the public hexes are exactly #8A2BE2 and #3B82F6, the locked ones exactly #FFC93A and #EF4444; the two sets are disjoint, and the default colour is public |
| Overlay.Rooms.Add | backend/app/services/overlay.py:20-29 | the channel's set gains `ws` (adding twice changes nothing), `ws` is a member afterwards, and every other channel keeps its set |
| Overlay.Rooms.Remove | backend/app/services/overlay.py:31-39 | `ws` is not a member afterwards; the set is unchanged when `ws` was absent; other channels keep their sets |
| Overlay.Snapshot | backend/app/services/overlay.py:50 | `list(set)` lists every element of the set exactly once |
| Overlay.Rooms.Broadcast | backend/app/services/overlay.py:41-54 | the same serialised text is attempted exactly once on each connection present at the start and on no other. Afterwards a connection is a member iff it was at the start and its send succeeded. An empty channel sends nothing. Other channels keep their sets. Broadcast never fails |
| Overlay.SendEvent | backend/app/services/overlay.py:68-76 | sending an event is a broadcast of that event's payload on the channel: each member at the start is sent the text exactly once and no other connection is, the failed ones are dropped, and other channels are untouched |
| Overlay.PrunedNeverRetried | backend/app/services/overlay.py:20-54 | a connection dropped by one broadcast is a member at no later point of any run of `add`, `remove` and `broadcast` calls that does not add it again, so no later broadcast attempts it |
| Overlay.SurvivorsIdempotent | backend/app/services/overlay.py:50-54 | with the same send outcomes, a second broadcast drops nobody |
| Overlay.MakeChatEvent | backend/app/services/overlay.py:78-100 | a `chat` event carrying the given user, display, message and colour, at schema version 1 |
| Overlay.ChatEventDefaultColor | backend/app/services/overlay.py:81 | without a colour the chat event's duck is #8A2BE2 |
| Overlay.MakeDuckUpdateEvent | backend/app/services/overlay.py:102-117 | a `duck_update` event carrying the given user and colour, at schema version 1 |
| PairingRepository.UpperHex | backend/app/repository/pairing.py:27 | two upper-case hexadecimal digits per byte |
| PairingRepository.DecodeUpperHex | backend/app/repository/pairing.py:27 | decoding the upper-case hex of some bytes gives those bytes back |
| PairingRepository.UpperHexOfDecode | backend/app/repository/pairing.py:27 | encoding decoded upper-case hex text gives the text back |
| PairingRepository.GenerateCode | backend/app/repository/pairing.py:20-27 | the code has 6 characters, all in 0-9A-F |
| PairingRepository.EveryCodeCanBeDrawn | backend/app/repository/pairing.py:27 | every 6-character upper-case hex string is the upper-case hex of some 3 bytes, so any such code can be drawn |
| PairingRepository.CodeTable.Create | backend/app/repository/pairing.py:39-58 | stores `(code, colour, channel, now, now + ttl, no claimant)` under a fresh code of the code format, with the TTL defaulting to 300 s; a drawn code already in the table violates the primary key and nothing is stored |
| PairingRepository.CodeTable.Get | backend/app/repository/pairing.py:60-71 | the row whose code is `code`, or none when there is no such row |
| PairingRepository.CodeTable.Delete | backend/app/repository/pairing.py:73-80 | removes that row only; deleting an absent code changes nothing |
| UserRepository.ApplyChanges | backend/app/repository/user.py:47-49 | each of `display` and `duck_color` takes the value the changes give it, otherwise keeps its own; the id never changes |
| UserRepository.ApplyChangesIgnoresOthers | backend/app/repository/user.py:7 | keys outside the whitelist `{display, duck_color}` leave the record as it was |
| UserRepository.UserStore.GetUser | backend/app/repository/user.py:9-14 | the record with that id, or none |
| UserRepository.UserStore.EnsureUserForLogin | backend/app/repository/user.py:16-32 | a known id keeps its colour and gets the new display name; an unknown id is created with the display name and #8A2BE2; no other record changes |
| UserRepository.UserStore.Create | backend/app/services/pairing.py:79 | inserts the record `(id, display, colour)` for an id not yet in the table |
| UserRepository.UserStore.PatchUser | backend/app/repository/user.py:42-51 | an unknown id fails with `User not found` and changes nothing; otherwise only that record changes, to `ApplyChanges` of it, and the updated record is returned |
| PairingService.ValidatePublicColor | backend/app/services/pairing.py:10-27 | accepts exactly the two public hexes and returns them unchanged; everything else, locked colours included, is a 400 `Guests: public colors only` |
| PairingService.ExpiresIn | backend/app/services/pairing.py:47 | `max(0, remaining seconds)`: never negative, and equal to the remaining seconds whenever they are positive |
| PairingService.ExpiresInAtMostTtl | backend/app/services/pairing.py:47 | when the response clock is at or after creation, the countdown is at most the TTL |
| PairingService.CreatePairingCode | backend/app/services/pairing.py:29-48 | a non-public colour fails with 400 before any row is stored. A public colour always gets a code unless the drawn code is already in the table (a genuine primary-key conflict, which stores nothing). On success, one row with a fresh code expiring 300 s after `now` is added, and the response carries that code and `ExpiresIn` at the response clock (at most 300) |
| PairingService.ClaimPairingCode | backend/app/services/pairing.py:50-85 | the new tables, the response and the emitted event are exactly those of `Claim`, the claim as a function of both tables and the clock |
| PairingService.ResponseBody | backend/app/services/pairing.py:67-85 | a refusal returns exactly `{"error": text}` with that refusal's text; a success returns `ok: True` and the colour, and has no `error` key |
| PairingService.ResponseBodyInjective | backend/app/services/pairing.py:67-85 | different responses return different dictionaries: the three error texts are distinct |
| PairingService.ClaimUnknownCode | backend/app/services/pairing.py:67-69 | an absent code gives `Invalid code` and changes neither table |
| PairingService.ClaimOnWrongChannel | backend/app/services/pairing.py:70-71 | another channel gives `Wrong channel` and changes nothing, even when the row has expired |
| PairingService.ClaimAfterExpiry | backend/app/services/pairing.py:72-75 | once `expires_at <= now` (the boundary counts as expired), the row is deleted, `Expired` is answered, no user changes, and the next claim of the code is `Invalid code` |
| PairingService.ClaimSucceeds | backend/app/services/pairing.py:77-85 | a live code on its channel answers its colour. The claimant takes that colour: if the claimant was unknown it is created with its id as display name, otherwise only its colour changes. No other user changes, the row is deleted, and one duck update for (claimant, colour) goes to the channel |
| PairingService.ClaimFrame | backend/app/services/pairing.py:64-85 | a claim removes at most the presented code; an event is emitted exactly on success; a refused claim changes no user |
| PairingService.AbsentCodeStaysInvalid | backend/app/services/pairing.py:67-69 | once a code is absent, every later claim of it, in any run of claims, is `Invalid code` |
| PairingService.ClaimedAtMostOnce | backend/app/services/pairing.py:82 | in any run of claims, after one successful claim of a code every later claim of it is `Invalid code` |
| PairingService.CreateThenClaim | backend/app/services/pairing.py:41-85 | a created code claimed on its channel before expiry gives the claimant the colour and emits one update; claiming it again is `Invalid code` |
| Ducks.ValidateColor | backend/app/services/ducks.py:16-20 | accepts exactly the four public and locked palette hexes (a non-string value never passes) and returns the value unchanged; anything else is a 400 `Unknown color` |
| Ducks.FieldErrors | backend/app/services/ducks.py:45-54 | an error item is listed iff some entry's validator rejects its value |
| Ducks.AllPassed | backend/app/services/ducks.py:45-51 | with no error, every entry is kept with the value it came with |
| Ducks.AggregateValidate | backend/app/services/ducks.py:28-59 | the loop's result is `Validate` of the patch |
| Ducks.EditableFieldsHaveValidators | backend/app/services/ducks.py:12-36 | a body that passes `extract_patch` with `EDITABLE_FIELDS` has only validated keys, so its validation fails exactly when a value is rejected |
| Ducks.ValidateRejectsExtras | backend/app/services/ducks.py:36-40 | any key other than `duck_color` gives a 422 that lists one `unexpected field` / `value_error.extra` item per extra key, in sorted order |
| Ducks.ValidateAggregates | backend/app/services/ducks.py:43-57 | with allowed keys only, every validator runs. The patch passes iff every value is a palette colour; otherwise the 422 lists an `Unknown color` / `value_error` item for each rejected field and for nothing else |
| Ducks.ValidatedPatch | backend/app/services/ducks.py:59 | what passes is the patch itself, with exactly its keys and values, each value a palette colour string under `duck_color` |
| Ducks.ChangedEntries | backend/app/services/ducks.py:83 | an entry is kept iff it is in the validated patch and differs from the record's attribute |
| Ducks.ApplyDuckPatch | backend/app/services/ducks.py:61-89 | the new users table, the result and the emitted event are exactly those of `PatchDuck`, the function over the users table |
| Ducks.PatchDuckUnknownUser | backend/app/services/ducks.py:72-74 | an unknown user gives 404 `User not found`; nothing is written or emitted |
| Ducks.PatchDuckEmpty | backend/app/services/ducks.py:76-77 | an empty patch answers the stored colour and no changes, and writes nothing |
| Ducks.PatchDuckAllOrNothing | backend/app/services/ducks.py:79-80 | a patch that fails validation returns that error and writes and emits nothing |
| Ducks.PatchDuckWritesOnlyChanges | backend/app/services/ducks.py:82-89 | the changed set is exactly the patch entries that differ from the stored colour, and only the caller's colour can change. The answered colour is the patch's colour when it names one, else the stored one. One update for the new colour is emitted iff the colour changed |
| Ducks.PatchDuckTwice | backend/app/services/ducks.py:82-87 | applying the same valid patch again changes nothing and emits nothing |
| Patch.ExtractPatch | backend/app/utils/patch.py:19-24 | the provided fields are returned unchanged iff all are allowed; otherwise it fails with `Forbidden fields: ` followed by the sorted extras joined with `, ` |
| Patch.ExtractPatchNamesForbidden | backend/app/utils/patch.py:21-23 | the names in the failure message are the forbidden fields, each once, sorted |
| Values.SortedExtraKeys | backend/app/utils/patch.py:21-23 | `sorted(set(d) - allowed)`: sorted, holding exactly the keys outside `allowed`, each once, and empty iff there are none |
| Values.SortedExtraKeysCanonical | backend/app/services/ducks.py:36-39 | any sorted listing of the extra keys, each once, is that one |
| Patch.MutableMapping.Get | backend/app/utils/patch.py:40 | `current.get(k)`: the stored value, or `None` for an absent key |
| Patch.MutableMapping.Set | backend/app/utils/patch.py:41 | `current[k] = v` |
| Patch.ApplyPatch | backend/app/utils/patch.py:26-43 | the mapping after the loop and the returned keys are `Patched` and `ChangedKeys` of the old mapping |
| Patch.PatchedSetsValues | backend/app/utils/patch.py:39-42 | afterwards `current.get(k) == patch[k]` (Python equality) for every patched key |
| Patch.ChangedKeysDiffering | backend/app/utils/patch.py:38-43 | the returned set is exactly the patch keys whose old `current.get(k) != patch[k]` |
| Patch.PatchedUntouched | backend/app/utils/patch.py:39-42 | a key the patch does not name keeps its presence and its value |
| Patch.PatchedKeys | backend/app/utils/patch.py:39-42 | the keys afterwards are the old keys and the changed ones |
| Patch.NullNotInserted | backend/app/utils/patch.py:40 | a `None` value for an absent key is neither inserted nor reported |
| Patch.PatchAlreadyHolds | backend/app/utils/patch.py:40 | a patch that already holds under Python equality changes nothing and reports nothing |
| Patch.ApplyPatchIdempotent | backend/app/utils/patch.py:39-43 | applying the same patch a second time returns the empty set and leaves the mapping unchanged |
| Values.PyEqIsEquivalence | backend/app/utils/patch.py:40 | Python `==` on the modelled values is reflexive, symmetric and transitive |
| Values.Lookup | backend/app/services/ducks.py:86-87 | `d.get(k)` is none iff `k` is not a key, and otherwise the value stored under `k` |
| Values.Where | backend/app/services/ducks.py:83 | a dict comprehension with a filter keeps exactly the items that pass, and no new key |
| Strings.Strip | backend/app/core/settings.py:14 | `strip()` returns a slice of its input whose cut-off ends are all whitespace and which starts and ends with no whitespace |
| Strings.StripStripped | backend/app/core/settings.py:14 | a stripped string is its own `strip()` |
| Strings.StripKeeps | backend/app/core/settings.py:14 | `strip()` adds no character |
| Strings.Split | backend/app/core/settings.py:14 | `split(",")` gives one field more than there are commas, none holding a comma |
| Strings.JoinSplit | backend/app/core/settings.py:14 | joining the fields of a split with the separator gives the text back |
| Strings.SplitJoin | backend/app/core/settings.py:14 | splitting separator-free fields joined with the separator gives the fields back |
| Strings.Lower | backend/app/core/settings.py:27 | `lower()` keeps the length, turns each upper-case ASCII letter into its lower-case counterpart (code point + 32), leaves no upper-case ASCII letter, and keeps every other character |
| Strings.LowerIdempotent | backend/app/core/settings.py:27 | lower-casing twice is lower-casing once |
| Strings.LessTransitive | backend/app/services/ducks.py:39 | Python string `<` is transitive |
| Strings.LessTotal | backend/app/services/ducks.py:39 | of two different strings one is `<` the other |
| Strings.SortStrings | backend/app/services/ducks.py:39 | `sorted` returns a sorted permutation of its input |
| Strings.SortedUnique | backend/app/utils/patch.py:23 | two sorted permutations of the same strings are equal |
| Strings.ParseIntOfString | backend/app/core/settings.py:30 | `int(str(n)) == n` |
| Settings.ParseCsv | backend/app/core/settings.py:4-14 | `[]` for a missing or empty value; otherwise one entry per comma-separated field (commas + 1), each stripped and comma-free |
| Settings.ParseCsvFields | backend/app/core/settings.py:14 | each entry is the stripped text of the matching comma-separated field |
| Settings.ParseCsvJoin | backend/app/core/settings.py:14 | stripped, comma-free fields joined with commas parse back to themselves |
| Settings.ParseCsvKeepsEmptyFields | backend/app/core/settings.py:14 | `"a,,b"` gives `["a", "", "b"]` |
| Settings.ParseCsvBlank | backend/app/core/settings.py:14 | `" "` gives `[""]`: a blank value is truthy, so it does not give the empty list |
| Settings.LoadSettings | backend/app/core/settings.py:26-30 | the settings exist iff the expiry text is an integer, and otherwise the error names it. `CORS_ORIGINS` is never empty, and `ENV` keeps its length under lower-casing |
| Settings.DefaultSettings | backend/app/core/settings.py:27-30 | with no variable set: `dev`, `["http://localhost:5173"]`, `sqlite+aiosqlite:///./var/dev.db` and 300 |
| Settings.DefaultExpiryParses | backend/app/core/settings.py:30 | `int("300") == 300` |
| Settings.SettingsFollowEnvironment | backend/app/core/settings.py:27-30 | whenever `int()` accepts the expiry text (the variable, or `"300"` when unset), loading succeeds with that integer. `ENV` is the lower-cased variable (default `dev`). `CORS_ORIGINS` is the parsed list, or the local origin when parsing gives none. `DATABASE_URL` is used as given |
| Settings.UnsetExpiryIsDefault | backend/app/core/settings.py:30 | with the expiry variable unset, loading succeeds with 300 seconds whatever else is set |
| Settings.PrintedExpiryReadBack | backend/app/core/settings.py:30 | an expiry variable holding `str(n)` loads as `n` |

## Left out

- `ws.accept()` in `Rooms.add`, the socket I/O of `send_text`, and the exception raised by a failed send. A send's outcome is the oracle `sendOk`.
- `json.dumps` and `_as_payload`'s dispatch on the Python type of an event. The payload is serialised by an opaque function.
- Concurrency: every operation is atomic and sequential. The get-then-delete race of two concurrent claims of one code is not modelled.
- `uow.commit()` and the database sessions: every store update takes effect at once.
- Datetime arithmetic, time zones and `total_seconds()` truncation: the clock is in whole seconds.
- The HTTP and WebSocket routes (backend/app/api/routes/*.py), authentication and JWTs, the Redis broker, and application start-up.
- pydantic model validation: request bodies are the dictionaries of provided fields.
- The `created_at`/`updated_at` timestamps of user records.
- PairingRepository.CodeTable.Create: `createdAt` is the `now` reading of the create call. In the source, `created_at` is the column default `utcnow`, evaluated when the row is inserted at commit, not the `_now()` that sets `expires_at`.
- `claimed_by` of a pairing row: it is never set by the code, since a claim deletes the row.
- Strings.Lower: lower-cases ASCII letters only, not the rest of Unicode.
- Strings.ParseInt: reads ASCII digits only; Python's `int()` also accepts other Unicode decimal digits. It also reads any number of digits: the 4300-digit limit on integer string conversion of recent CPython versions (where `int(s)` and `str(n)` raise `ValueError`) is not modelled, so `Settings.LoadSettings` succeeds on a longer expiry text where the source raises.
- Values.Value: covers `None`, booleans, integers and strings; lists, dicts and floats in a request body are not modelled.
- Overlay.MakeChatEvent: takes the user id as a string; the `int` accepted by the signature is not modelled.
- PairingService.CreatePairingCode: the TTL is a whole number of seconds, and the random draw is a nondeterministic choice; neither the distribution nor the collision probability is modelled.
