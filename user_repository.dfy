/**
 * backend/app/repository/user.py: the users table, modelled as a map from user id to record.
 * Database sessions and `commit()` are not modelled; every operation is atomic.
 */
module UserRepository {
  import opened Wrappers
  import opened Values
  import Palette

  /** A row of the users table (timestamps left out). */
  datatype User = User(id: string, display: string, duckColor: string)

  /** The only fields `patch_user` writes. */
  const AllowedPatch: set<string> := {"display", "duck_color"}

  /** `setattr(user, k, v)` for a whitelisted key; any other key is ignored. */
  function SetField(u: User, k: string, v: string): User {
    if k == "display" then u.(display := v)
    else if k == "duck_color" then u.(duckColor := v)
    else u
  }

  /**
   * The `setattr` loop of `patch_user`: each whitelisted field takes the value the changes give
   * it, every other field (the id included) keeps its value.
   */
  function ApplyChanges(u: User, changes: Dict<string>): (r: User)
    ensures r.id == u.id
    ensures r.display == Lookup(changes, "display").GetOr(u.display)
    ensures r.duckColor == Lookup(changes, "duck_color").GetOr(u.duckColor)
    decreases |changes|
  {
    if changes == [] then u
    else
      assert DistinctKeys(changes[1..]);
      ApplyChanges(SetField(u, changes[0].0, changes[0].1), changes[1..])
  }

  /** Keys outside the whitelist make no difference to a patch. */
  lemma {:induction false} ApplyChangesIgnoresOthers(u: User, changes: Dict<string>)
    requires forall i :: 0 <= i < |changes| ==> changes[i].0 !in AllowedPatch
    ensures ApplyChanges(u, changes) == u
    decreases |changes|
  {
    if changes != [] {
      assert DistinctKeys(changes[1..]);
      ApplyChangesIgnoresOthers(u, changes[1..]);
    }
  }

  class UserStore {
    var users: map<string, User>

    /** `id` is the primary key: each record sits under its own id. */
    ghost predicate Valid()
      reads this
    {
      forall id :: id in users ==> users[id].id == id
    }

    constructor ()
      ensures Valid() && users == map[]
    {
      users := map[];
    }

    /** `get_user`: the record with that id, or `None`. */
    function GetUser(id: string): (r: Option<User>)
      reads this
      requires Valid()
      ensures r.Some? <==> id in users
      ensures r.Some? ==> r.value == users[id] && r.value.id == id
    {
      if id in users then Some(users[id]) else None
    }

    /**
     * `ensure_user_for_login`: a known id gets the new display name and keeps its colour; an
     * unknown id gets a fresh record with `defaultColor`. Nothing else changes.
     */
    method EnsureUserForLogin(userId: string, display: string, defaultColor: string := Palette.DefaultColor)
      returns (u: User)
      requires Valid()
      modifies this
      ensures Valid()
      ensures userId in old(users) ==> u == old(users)[userId].(display := display)
      ensures userId !in old(users) ==> u == User(userId, display, defaultColor)
      ensures users == old(users)[userId := u]
    {
      var existing := GetUser(userId);
      if existing.Some? {
        u := existing.value;
        if u.display != display {
          u := u.(display := display);
          users := users[userId := u];
        }
        return;
      }
      u := User(userId, display, defaultColor);
      users := users[userId := u];
    }

    /**
     * Inserts a new record (`session.add(User(...))`); the users repository's `create`, which the
     * pairing service calls, is taken to be this insert. An id already present would violate the
     * primary key, so callers insert only unknown ids.
     */
    method Create(userId: string, display: string, duckColor: string) returns (u: User)
      requires Valid()
      requires userId !in users
      modifies this
      ensures Valid()
      ensures u == User(userId, display, duckColor)
      ensures users == old(users)[userId := u]
    {
      u := User(userId, display, duckColor);
      users := users[userId := u];
    }

    /**
     * `patch_user`: an unknown id raises `ValueError("User not found")` and changes nothing;
     * otherwise the whitelisted fields of that one record are updated and the record returned.
     */
    method PatchUser(userId: string, changes: Dict<string>) returns (r: Result<User, string>)
      requires Valid()
      modifies this
      ensures Valid()
      ensures userId !in old(users) ==> r == Failure("User not found") && users == old(users)
      ensures userId in old(users) ==>
        && r == Success(ApplyChanges(old(users)[userId], changes))
        && users == old(users)[userId := r.value]
    {
      var user := GetUser(userId);
      if user.None? {
        return Failure("User not found");
      }
      var u := user.value;
      var i := 0;
      while i < |changes|
        invariant 0 <= i <= |changes|
        invariant ApplyChanges(u, changes[i..]) == ApplyChanges(user.value, changes)
        invariant u.id == userId
      {
        var (k, v) := changes[i];
        assert changes[i..][1..] == changes[i + 1..];
        if k in AllowedPatch {
          u := SetField(u, k, v);
        }
        i := i + 1;
      }
      users := users[userId := u];
      r := Success(u);
    }
  }
}
