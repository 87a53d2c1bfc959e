/** The app-wide authentication store: who is signed in, and a flag saying
    whether anyone is. Both fields are always written together. */
module AuthStore {
  import opened Wrappers

  /** The signed-in user as the store keeps it. A missing and a null name (or
      picture) are both `None`. */
  datatype AuthUser = AuthUser(email: string, name: Option<string>, picture: Option<string>)

  class Store {
    var user: Option<AuthUser>
    var isLoggedIn: bool

    /** The flag says whether there is a user. */
    predicate Valid()
      reads this
    {
      isLoggedIn <==> user.Some?
    }

    /** The initial state: nobody signed in. */
    constructor ()
      ensures Valid() && user == None && !isLoggedIn
    {
      user := None;
      isLoggedIn := false;
    }

    /** `setUser`: replaces whatever user was there, whatever the state was. */
    method SetUser(u: AuthUser)
      modifies this
      ensures Valid() && user == Some(u) && isLoggedIn
    {
      user, isLoggedIn := Some(u), true;
    }

    /** `clearUser`: signs out; on a signed-out store it changes nothing. */
    method ClearUser()
      modifies this
      ensures Valid() && user == None && !isLoggedIn
      ensures old(Valid()) && old(user).None? ==> unchanged(this)
    {
      user, isLoggedIn := None, false;
    }
  }
}
