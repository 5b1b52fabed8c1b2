/**
 * The client-side auth store (web/src/lib/stores/auth-store.ts): the signed-in user, the identity
 * provider's user, and three flags derived or set by four actions.
 */
module AuthStore {
  import opened Wrappers
  import opened Users

  /** The identity provider's user as the store keeps it. */
  datatype FirebaseUser = FirebaseUser(uid: string, email: Option<string>)

  /** A value the expression `user?.displayName` can take: `undefined`, `null` or a string. */
  datatype JsValue = Undefined | Null | Str(s: string)

  /** `user?.displayName`: `undefined` when there is no user, otherwise the field (null or text). */
  function DisplayNameOf(user: Option<User>): (v: JsValue)
    ensures user.None? <==> v == Undefined
    ensures user.Some? && user.value.displayName.None? ==> v == Null
    ensures user.Some? && user.value.displayName.Some? ==> v == Str(user.value.displayName.value)
  {
    match user
    case None => Undefined
    case Some(u) => if u.displayName.Some? then Str(u.displayName.value) else Null
  }

  /**
   * `user?.displayName !== null && user?.displayName !== ''`. For a signed-in user it says that the display
   * name is set and not empty; without a user the optional chain yields `undefined`, which passes both
   * tests, so the flag is true.
   */
  function HasDisplayNameFlag(user: Option<User>): (b: bool)
    ensures user.Some? ==> (b <==> user.value.displayName.Some? && user.value.displayName.value != "")
    ensures user.None? ==> b
  {
    var v := DisplayNameOf(user);
    v != Null && v != Str("")
  }

  class AuthState {
    var user: Option<User>
    var firebaseUser: Option<FirebaseUser>
    var isLoading: bool
    var isAuthenticated: bool
    var hasDisplayName: bool

    /** The flags agree with `user` as `setUser` sets them. */
    ghost predicate Derived()
      reads this
    {
      isAuthenticated == user.Some? && hasDisplayName == HasDisplayNameFlag(user)
    }

    /** The initial state: no users, loading, not authenticated, no display name. */
    constructor ()
      ensures user == None && firebaseUser == None
      ensures isLoading && !isAuthenticated && !hasDisplayName
    {
      user := None;
      firebaseUser := None;
      isLoading := true;
      isAuthenticated := false;
      hasDisplayName := false;
    }

    /** `setUser`: stores the user and derives both flags from it; `firebaseUser` and `isLoading` stay. */
    method SetUser(u: Option<User>)
      modifies this
      ensures user == u && firebaseUser == old(firebaseUser) && isLoading == old(isLoading)
      ensures isAuthenticated <==> u.Some?
      ensures hasDisplayName == HasDisplayNameFlag(u)
      ensures Derived()
    {
      user := u;
      isAuthenticated := u.Some?;
      hasDisplayName := HasDisplayNameFlag(u);
    }

    /** `setFirebaseUser`: changes `firebaseUser` only. */
    method SetFirebaseUser(fu: Option<FirebaseUser>)
      modifies this
      ensures firebaseUser == fu
      ensures user == old(user) && isLoading == old(isLoading)
      ensures isAuthenticated == old(isAuthenticated) && hasDisplayName == old(hasDisplayName)
    {
      firebaseUser := fu;
    }

    /** `setLoading`: changes `isLoading` only. */
    method SetLoading(loading: bool)
      modifies this
      ensures isLoading == loading
      ensures user == old(user) && firebaseUser == old(firebaseUser)
      ensures isAuthenticated == old(isAuthenticated) && hasDisplayName == old(hasDisplayName)
    {
      isLoading := loading;
    }

    /** `reset`: clears both users and sets all three flags false. */
    method Reset()
      modifies this
      ensures user == None && firebaseUser == None
      ensures !isLoading && !isAuthenticated && !hasDisplayName
    {
      user := None;
      firebaseUser := None;
      isLoading := false;
      isAuthenticated := false;
      hasDisplayName := false;
    }
  }

  /**
   * Signing out through `setUser(null)` and through `reset` end in different flags: the first leaves
   * `hasDisplayName` true, the second false, so after `reset` the flag no longer equals what `setUser`
   * would derive for the same (absent) user.
   */
  method SignOutPaths() returns (viaSetUser: bool, viaReset: bool, resetDerived: bool)
    ensures viaSetUser && !viaReset && !resetDerived
  {
    var a := new AuthState();
    a.SetUser(None);
    viaSetUser := a.hasDisplayName;
    var b := new AuthState();
    b.Reset();
    viaReset := b.hasDisplayName;
    resetDerived := b.hasDisplayName == HasDisplayNameFlag(b.user);
  }
}
