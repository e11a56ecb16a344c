/**
 * The passport callbacks of src/config/passport.ts: the SAML strategy's
 * verify callback, which records every user object it sees once in the
 * module-level `savedUsers` array, and the identity `serializeUser` and
 * `deserializeUser` callbacks.
 */
module Passport {
  import opened Wrappers
  import opened JsString

  /** The user object passport-saml passes to the verify callback; `nameID` is the asserted subject. */
  class Profile {
    const nameID: Text

    constructor (nameID: Text)
      ensures this.nameID == nameID
    {
      this.nameID := nameID;
    }
  }

  /** The arguments of a `done(err, user)` call; `err == None` stands for `null`. */
  datatype Done = Done(err: Option<Text>, user: Profile)

  /** No object occurs twice (compared by identity, as `Array.prototype.includes` compares objects). */
  predicate Distinct(users: seq<Profile>) {
    forall i, j | 0 <= i < j < |users| :: users[i] != users[j]
  }

  /** The list after one verify callback: the user is pushed unless it is already included. */
  function AppendIfAbsent(users: seq<Profile>, u: Profile): seq<Profile> {
    if u in users then users else users + [u]
  }

  /** The list after the verify callback ran for each of `logins` in turn. */
  function AfterLogins(users: seq<Profile>, logins: seq<Profile>): seq<Profile>
    decreases |logins|
  {
    if logins == [] then users else AfterLogins(AppendIfAbsent(users, logins[0]), logins[1..])
  }

  /** One callback keeps the list free of duplicates and adds nothing when the user is already there. */
  lemma AppendIfAbsentKeepsDistinct(users: seq<Profile>, u: Profile)
    requires Distinct(users)
    ensures Distinct(AppendIfAbsent(users, u))
    ensures u in AppendIfAbsent(users, u)
    ensures AppendIfAbsent(AppendIfAbsent(users, u), u) == AppendIfAbsent(users, u)
  {
  }

  /**
   * Any run of callbacks keeps the list free of duplicates, never moves or
   * drops an entry, and ends with exactly the users seen so far.
   */
  lemma {:induction false} AfterLoginsSpec(users: seq<Profile>, logins: seq<Profile>)
    requires Distinct(users)
    ensures Distinct(AfterLogins(users, logins))
    ensures |users| <= |AfterLogins(users, logins)| && AfterLogins(users, logins)[..|users|] == users
    ensures forall u :: u in AfterLogins(users, logins) <==> u in users || u in logins
    decreases |logins|
  {
    if logins != [] {
      var next := AppendIfAbsent(users, logins[0]);
      AppendIfAbsentKeepsDistinct(users, logins[0]);
      AfterLoginsSpec(next, logins[1..]);
      assert next[..|users|] == users;
      assert AfterLogins(users, logins)[..|users|] == AfterLogins(next, logins[1..])[..|next|][..|users|];
      assert forall u :: u in logins <==> u == logins[0] || u in logins[1..];
    }
  }

  /** The module-level `savedUsers` array together with the verify callback that appends to it. */
  class UserRegistry {
    var savedUsers: seq<Profile>

    ghost predicate Valid()
      reads this
    {
      Distinct(savedUsers)
    }

    constructor ()
      ensures Valid() && savedUsers == []
    {
      savedUsers := [];
    }

    /** The verify callback: push the user unless it is already included, then `done(null, user)`. */
    method Verify(expressUser: Profile) returns (d: Done)
      requires Valid()
      modifies this
      ensures Valid()
      ensures savedUsers == AppendIfAbsent(old(savedUsers), expressUser)
      ensures expressUser in savedUsers
      ensures expressUser in old(savedUsers) ==> savedUsers == old(savedUsers)
      ensures expressUser !in old(savedUsers) ==>
        |savedUsers| == |old(savedUsers)| + 1 && savedUsers[..|old(savedUsers)|] == old(savedUsers) &&
        savedUsers[|old(savedUsers)|] == expressUser
      ensures d == Done(None, expressUser)
    {
      if expressUser !in savedUsers {
        savedUsers := savedUsers + [expressUser];
      }
      d := Done(None, expressUser);
    }
  }

  /** `serializeUser`: the session stores the user object as it is. */
  function SerializeUser(expressUser: Profile): Done {
    Done(None, expressUser)
  }

  /** `deserializeUser`: the stored object is handed back as it is. */
  function DeserializeUser(expressUser: Profile): Done {
    Done(None, expressUser)
  }

  /** Deserializing what was serialized yields the same object, without error. */
  lemma SessionRoundTrip(u: Profile)
    ensures SerializeUser(u).err == None
    ensures DeserializeUser(SerializeUser(u).user) == Done(None, u)
  {
  }
}
