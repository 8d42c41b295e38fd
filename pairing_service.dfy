/**
 * backend/app/services/pairing.py: creating a one-time pairing code for a public colour, and
 * claiming it. A claim is delete-on-claim: a claimed code and a code that never existed are the
 * same state, so a code can be claimed successfully at most once.
 *
 * The two stores are the classes of PairingRepository and UserRepository; `Claim` is the claim
 * as a function of both tables, and `ClaimPairingCode` the step-by-step method proved equal to it.
 * The duck-update event of a successful claim is returned as an `Emission`.
 */
module PairingService {
  import opened Wrappers
  import opened Events
  import opened Http
  import Palette
  import Overlay
  import opened PairingRepository
  import opened UserRepository
  import opened Values

  // ---------------------------------------------------------------------------------------------
  // Creating a code

  /** `validate_public_color`: guests may choose a public colour only, never a locked one. */
  function ValidatePublicColor(hex: string): (r: Result<string, HttpError>)
    ensures r.Success? <==> hex in {"#8A2BE2", "#3B82F6"}
    ensures r.Success? ==> r.value == hex
    ensures r.Failure? ==> r.error == HttpError(BadRequest, Message("Guests: public colors only"))
    ensures hex in Palette.LockedHexes() ==> r.Failure?
  {
    Palette.PaletteContents();
    if hex !in Palette.PublicHexes() then Failure(HttpError(BadRequest, Message("Guests: public colors only")))
    else Success(hex)
  }

  /** `max(0, remaining seconds)`. */
  function ExpiresIn(expiresAt: int, now: int): (r: nat)
    ensures r >= expiresAt - now
    ensures r == 0 || r == expiresAt - now
  {
    if expiresAt - now > 0 then expiresAt - now else 0
  }

  /** Started no earlier than the row was created, the countdown never exceeds the TTL. */
  lemma ExpiresInAtMostTtl(createdAt: int, ttl: nat, now: int)
    requires createdAt <= now
    ensures ExpiresIn(createdAt + ttl, now) <= ttl
  {
  }

  datatype CreateResponse = CreateResponse(code: string, expiresIn: nat)

  datatype CreateError = Rejected(http: HttpError) | Conflict(store: StoreError)

  /**
   * `create_pairing_code`: rejects a non-public colour before touching the table; otherwise stores
   * a row expiring `DefaultTtlSeconds` after `now` and answers its code with the seconds left as
   * read at `responseNow`, the clock reading taken when the response is built.
   */
  method CreatePairingCode(codes: CodeTable, duckColor: string, now: int, responseNow: int, channel: string := "default")
    returns (r: Result<CreateResponse, CreateError>)
    requires codes.Valid()
    modifies codes
    ensures codes.Valid()
    ensures duckColor !in Palette.PublicHexes() ==>
      r == Failure(Rejected(HttpError(BadRequest, Message("Guests: public colors only")))) && codes.rows == old(codes.rows)
    ensures r.Failure? ==> codes.rows == old(codes.rows)
    ensures duckColor in Palette.PublicHexes() ==>
      r.Success? || (r.error.Conflict? && r.error.store.code in old(codes.rows) && IsCode(r.error.store.code))
    ensures r.Success? ==>
      && duckColor in Palette.PublicHexes()
      && IsCode(r.value.code)
      && r.value.code !in old(codes.rows)
      && codes.rows == old(codes.rows)[r.value.code := PairingRow(r.value.code, duckColor, channel, now, now + DefaultTtlSeconds, None)]
      && r.value.expiresIn == ExpiresIn(now + DefaultTtlSeconds, responseNow)
    ensures r.Success? && now <= responseNow ==> r.value.expiresIn <= DefaultTtlSeconds
  {
    Palette.PaletteContents();
    var valid := ValidatePublicColor(duckColor);
    if valid.Failure? {
      return Failure(Rejected(valid.error));
    }
    var rec := codes.Create(duckColor, channel, now);
    if rec.Failure? {
      return Failure(Conflict(rec.error));
    }
    r := Success(CreateResponse(rec.value.code, ExpiresIn(rec.value.expiresAt, responseNow)));
  }

  // ---------------------------------------------------------------------------------------------
  // Claiming a code

  datatype ClaimFailure = InvalidCode | WrongChannel | Expired

  /** The `error` text of each refusal. */
  function ErrorText(f: ClaimFailure): string {
    match f
    case InvalidCode => "Invalid code"
    case WrongChannel => "Wrong channel"
    case Expired => "Expired"
  }

  /** `{"ok": True, "duck_color": ...}` or `{"error": ...}`. */
  datatype ClaimResponse = Claimed(duckColor: string) | Refused(reason: ClaimFailure)

  /**
   * The dictionary `claim_pairing_code` returns: a refusal has the single key `error` holding its
   * text, a success has `ok` set to `True` and `duck_color`, and no `error` key.
   */
  function ResponseBody(r: ClaimResponse): (d: Dict<Value>)
    ensures "error" in Keys(d) <==> r.Refused?
    ensures r.Refused? ==> |d| == 1 && Lookup(d, "error") == Some(Str(ErrorText(r.reason)))
    ensures r.Claimed? ==> Lookup(d, "ok") == Some(Bool(true)) && Lookup(d, "duck_color") == Some(Str(r.duckColor))
  {
    match r
    case Claimed(c) =>
      var last := [("duck_color", Str(c))];
      KeysCons(("duck_color", Str(c)), []);
      KeysCons(("ok", Bool(true)), last);
      assert "ok"[0] != "error"[0] && "duck_color"[0] != "error"[0];
      [("ok", Bool(true))] + last
    case Refused(f) =>
      KeysCons(("error", Str(ErrorText(f))), []);
      [("error", Str(ErrorText(f)))]
  }

  /** The three refusal texts are distinct, so the returned dictionary tells every response apart. */
  lemma ResponseBodyInjective(a: ClaimResponse, b: ClaimResponse)
    requires ResponseBody(a) == ResponseBody(b)
    ensures a == b
  {
    if a.Refused? && b.Refused? {
      assert ResponseBody(a)[0].1 == ResponseBody(b)[0].1;
      assert ErrorText(a.reason) == ErrorText(b.reason);
    } else if a.Claimed? && b.Claimed? {
      assert ResponseBody(a)[1] == ResponseBody(b)[1];
    }
  }

  /** Both tables a claim reads and writes. */
  datatype Stores = Stores(codes: map<string, PairingRow>, users: map<string, User>)

  datatype ClaimOutcome = ClaimOutcome(after: Stores, response: ClaimResponse, emitted: Option<Emission>)

  /** The colour of the claim applied to the claimant: patched when known, created otherwise
      with the claimant id as display name. */
  function ApplyColor(users: map<string, User>, userId: string, color: string): map<string, User> {
    if userId in users then users[userId := ApplyChanges(users[userId], [("duck_color", color)])]
    else users[userId := User(userId, userId, color)]
  }

  /** `claim_pairing_code` as a function of the two tables and the clock. */
  function Claim(s: Stores, code: string, userId: string, channel: string, now: int): ClaimOutcome {
    if code !in s.codes then ClaimOutcome(s, Refused(InvalidCode), None)
    else
      var row := s.codes[code];
      if row.channel != channel then ClaimOutcome(s, Refused(WrongChannel), None)
      else if row.expiresAt <= now then ClaimOutcome(s.(codes := s.codes - {code}), Refused(Expired), None)
      else ClaimOutcome(
        Stores(s.codes - {code}, ApplyColor(s.users, userId, row.duckColor)),
        Claimed(row.duckColor),
        Some(Emission(channel, Overlay.MakeDuckUpdateEvent(userId, row.duckColor))))
  }

  /**
   * `claim_pairing_code`: look the code up, check the channel, then the expiry (deleting an
   * expired row), then set the claimant's colour, delete the row and emit the update.
   */
  method ClaimPairingCode(codes: CodeTable, users: UserStore, code: string, userId: string, channel: string, now: int)
    returns (response: ClaimResponse, emitted: Option<Emission>)
    requires codes.Valid() && users.Valid()
    modifies codes, users
    ensures codes.Valid() && users.Valid()
    ensures ClaimOutcome(Stores(codes.rows, users.users), response, emitted)
         == Claim(Stores(old(codes.rows), old(users.users)), code, userId, channel, now)
  {
    var rec := codes.Get(code);
    if rec.None? {
      return Refused(InvalidCode), None;
    }
    var row := rec.value;
    if row.channel != channel {
      return Refused(WrongChannel), None;
    }
    if row.expiresAt <= now {
      codes.Delete(code);
      return Refused(Expired), None;
    }
    var user := users.GetUser(userId);
    if user.None? {
      var _ := users.Create(userId, userId, row.duckColor);
    } else {
      var _ := users.PatchUser(userId, [("duck_color", row.duckColor)]);
    }
    codes.Delete(code);
    response := Claimed(row.duckColor);
    emitted := Some(Emission(channel, Overlay.MakeDuckUpdateEvent(userId, row.duckColor)));
  }

  /** An unknown (or already claimed) code is refused and nothing changes. */
  lemma ClaimUnknownCode(s: Stores, code: string, userId: string, channel: string, now: int)
    requires code !in s.codes
    ensures Claim(s, code, userId, channel, now) == ClaimOutcome(s, Refused(InvalidCode), None)
  {
  }

  /** A code presented on another channel is refused and nothing changes: the channel is checked
      before the expiry, so even an expired row survives. */
  lemma ClaimOnWrongChannel(s: Stores, code: string, userId: string, channel: string, now: int)
    requires code in s.codes && s.codes[code].channel != channel
    ensures Claim(s, code, userId, channel, now) == ClaimOutcome(s, Refused(WrongChannel), None)
  {
  }

  /** At or after its expiry a code is refused and deleted, so the next claim finds no code. */
  lemma ClaimAfterExpiry(s: Stores, code: string, userId: string, channel: string, now: int,
                         nextUser: string, nextChannel: string, nextNow: int)
    requires code in s.codes && s.codes[code].channel == channel && s.codes[code].expiresAt <= now
    ensures Claim(s, code, userId, channel, now)
         == ClaimOutcome(Stores(s.codes - {code}, s.users), Refused(Expired), None)
    ensures Claim(Claim(s, code, userId, channel, now).after, code, nextUser, nextChannel, nextNow).response
         == Refused(InvalidCode)
  {
  }

  /**
   * A live code on its own channel succeeds: the claimant ends up with the code's colour (created
   * with its id as display name when unknown, otherwise only the colour changes), no other user
   * changes, the row is gone and one duck update for (claimant, colour) goes to the channel.
   */
  lemma ClaimSucceeds(s: Stores, code: string, userId: string, channel: string, now: int)
    requires code in s.codes && s.codes[code].channel == channel && now < s.codes[code].expiresAt
    ensures var o := Claim(s, code, userId, channel, now);
      var color := s.codes[code].duckColor;
      && o.response == Claimed(color)
      && o.after.codes == s.codes - {code}
      && userId in o.after.users
      && (userId !in s.users ==> o.after.users[userId] == User(userId, userId, color))
      && (userId in s.users ==> o.after.users[userId] == s.users[userId].(duckColor := color))
      && o.after.users.Keys == s.users.Keys + {userId}
      && (forall other :: other in s.users && other != userId ==> o.after.users[other] == s.users[other])
      && o.emitted == Some(Emission(channel, DuckUpdateEvent(userId, Duck(color))))
  {
    var color := s.codes[code].duckColor;
    if userId in s.users {
      var patched := ApplyChanges(s.users[userId], [("duck_color", color)]);
      assert Values.Lookup([("duck_color", color)], "display") == None;
      assert patched == s.users[userId].(duckColor := color);
    }
  }

  /** Whatever the outcome, a claim only ever removes the presented code, an event goes out
      exactly on success, and a refused claim leaves every user as it was. */
  lemma ClaimFrame(s: Stores, code: string, userId: string, channel: string, now: int)
    ensures var o := Claim(s, code, userId, channel, now);
      && (o.after.codes == s.codes || o.after.codes == s.codes - {code})
      && (o.emitted.Some? <==> o.response.Claimed?)
      && (o.response.Refused? ==> o.after.users == s.users)
      && (o.response.Claimed? ==> code !in o.after.codes)
  {
  }

  // ---------------------------------------------------------------------------------------------
  // Claimed at most once

  datatype ClaimCall = ClaimCall(code: string, userId: string, channel: string, now: int)

  /** A run of claims, one after the other, with their responses. */
  function ClaimRun(s: Stores, calls: seq<ClaimCall>): (r: (Stores, seq<ClaimResponse>))
    ensures |r.1| == |calls|
    decreases |calls|
  {
    if calls == [] then (s, [])
    else
      var c := calls[0];
      var o := Claim(s, c.code, c.userId, c.channel, c.now);
      var rest := ClaimRun(o.after, calls[1..]);
      (rest.0, [o.response] + rest.1)
  }

  /** Once a code is absent, no run of claims brings it back, and each claim of it is refused. */
  lemma {:induction false} AbsentCodeStaysInvalid(s: Stores, code: string, calls: seq<ClaimCall>)
    requires code !in s.codes
    ensures code !in ClaimRun(s, calls).0.codes
    ensures forall i :: 0 <= i < |calls| && calls[i].code == code ==> ClaimRun(s, calls).1[i] == Refused(InvalidCode)
    decreases |calls|
  {
    if calls != [] {
      var c := calls[0];
      var o := Claim(s, c.code, c.userId, c.channel, c.now);
      AbsentCodeStaysInvalid(o.after, code, calls[1..]);
      forall i | 0 < i < |calls| && calls[i].code == code
        ensures ClaimRun(s, calls).1[i] == Refused(InvalidCode)
      {
        assert calls[1..][i - 1] == calls[i];
      }
    }
  }

  /** Among any run of claims, a code is claimed successfully at most once: after its success
      every later claim of it is refused as an invalid code. */
  lemma {:induction false} ClaimedAtMostOnce(s: Stores, calls: seq<ClaimCall>, i: nat, j: nat)
    requires i < j < |calls| && calls[i].code == calls[j].code
    requires ClaimRun(s, calls).1[i].Claimed?
    ensures ClaimRun(s, calls).1[j] == Refused(InvalidCode)
    decreases |calls|
  {
    var c := calls[0];
    var o := Claim(s, c.code, c.userId, c.channel, c.now);
    if i == 0 {
      AbsentCodeStaysInvalid(o.after, c.code, calls[1..]);
      assert calls[1..][j - 1] == calls[j];
    } else {
      assert calls[1..][i - 1] == calls[i] && calls[1..][j - 1] == calls[j];
      ClaimedAtMostOnce(o.after, calls[1..], i - 1, j - 1);
    }
  }

  /**
   * Creating a code and claiming it on its channel before it expires succeeds: the claimant gets
   * the colour, exactly one duck update for (claimant, colour) is emitted on that channel, and a
   * second claim of the code is refused as invalid.
   */
  lemma CreateThenClaim(s: Stores, row: PairingRow, userId: string, t: int, again: ClaimCall)
    requires row.code !in s.codes
    requires row.expiresAt == row.createdAt + DefaultTtlSeconds && row.createdAt <= t < row.expiresAt
    requires again.code == row.code
    ensures var o := Claim(Stores(s.codes[row.code := row], s.users), row.code, userId, row.channel, t);
      && o.response == Claimed(row.duckColor)
      && o.after.users[userId].duckColor == row.duckColor
      && o.emitted == Some(Emission(row.channel, DuckUpdateEvent(userId, Duck(row.duckColor))))
      && Claim(o.after, again.code, again.userId, again.channel, again.now).response == Refused(InvalidCode)
  {
    ClaimSucceeds(Stores(s.codes[row.code := row], s.users), row.code, userId, row.channel, t);
  }
}
