/**
 * User documents: the conversion between a stored document and the app's user (web/src/lib/types/user.ts)
 * and the users table with its lookup, creation, partial update and get-or-create
 * (web/src/lib/firebase/firestore.ts). Instants are integer milliseconds; a server timestamp is the
 * `now` the caller passes in.
 */
module Users {
  import opened Wrappers

  /** A stored user document; `None` is the stored `null`. */
  datatype UserDoc = UserDoc(
    displayName: Option<string>, groupId: Option<string>, fcmToken: Option<string>, createdAt: int, updatedAt: int)

  /** The app's user: the document with its id attached. */
  datatype User = User(
    id: string, displayName: Option<string>, groupId: Option<string>, fcmToken: Option<string>,
    createdAt: int, updatedAt: int)

  /** A property of a partial object: `Absent` is `undefined`, `Present(v)` holds a value (which may be null). */
  datatype Field<T> = Absent | Present(value: T)

  /** `Partial<User>`. */
  datatype PartialUser = PartialUser(
    id: Field<string>, displayName: Field<Option<string>>, groupId: Field<Option<string>>,
    fcmToken: Field<Option<string>>, createdAt: Field<int>, updatedAt: Field<int>)

  /** `Partial<UserFirestore>`. */
  datatype PartialUserDoc = PartialUserDoc(
    displayName: Field<Option<string>>, groupId: Field<Option<string>>, fcmToken: Field<Option<string>>,
    createdAt: Field<int>, updatedAt: Field<int>)

  const NoUserFields: PartialUserDoc := PartialUserDoc(Absent, Absent, Absent, Absent, Absent)

  /** `userFromFirestore`: the document's fields with the id attached. */
  function UserFromFirestore(id: string, d: UserDoc): (u: User)
    ensures u.id == id && u.displayName == d.displayName && u.groupId == d.groupId && u.fcmToken == d.fcmToken
    ensures u.createdAt == d.createdAt && u.updatedAt == d.updatedAt
  {
    User(id, d.displayName, d.groupId, d.fcmToken, d.createdAt, d.updatedAt)
  }

  /** A whole user seen as a partial one, every property present. */
  function AsPartial(u: User): (p: PartialUser)
    ensures p.id == Present(u.id) && p.displayName == Present(u.displayName)
    ensures p.groupId == Present(u.groupId) && p.fcmToken == Present(u.fcmToken)
  {
    PartialUser(Present(u.id), Present(u.displayName), Present(u.groupId), Present(u.fcmToken),
                Present(u.createdAt), Present(u.updatedAt))
  }

  /**
   * `userToFirestore`: starting from an empty object, each of `displayName`, `groupId` and `fcmToken` is
   * copied when it is not `undefined` (an explicit null is copied too); nothing else is ever copied.
   */
  method UserToFirestore(user: PartialUser) returns (data: PartialUserDoc)
    ensures data.displayName == user.displayName && data.groupId == user.groupId && data.fcmToken == user.fcmToken
    ensures data.createdAt == Absent && data.updatedAt == Absent
  {
    data := NoUserFields;
    if user.displayName != Absent {
      data := data.(displayName := user.displayName);
    }
    if user.groupId != Absent {
      data := data.(groupId := user.groupId);
    }
    if user.fcmToken != Absent {
      data := data.(fcmToken := user.fcmToken);
    }
  }

  /** A stored document with the present properties of `data` written over it. */
  function Merge(d: UserDoc, data: PartialUserDoc): (e: UserDoc)
    ensures e.displayName == (if data.displayName.Present? then data.displayName.value else d.displayName)
    ensures e.groupId == (if data.groupId.Present? then data.groupId.value else d.groupId)
    ensures e.fcmToken == (if data.fcmToken.Present? then data.fcmToken.value else d.fcmToken)
    ensures e.createdAt == (if data.createdAt.Present? then data.createdAt.value else d.createdAt)
    ensures e.updatedAt == (if data.updatedAt.Present? then data.updatedAt.value else d.updatedAt)
  {
    UserDoc(
      if data.displayName.Present? then data.displayName.value else d.displayName,
      if data.groupId.Present? then data.groupId.value else d.groupId,
      if data.fcmToken.Present? then data.fcmToken.value else d.fcmToken,
      if data.createdAt.Present? then data.createdAt.value else d.createdAt,
      if data.updatedAt.Present? then data.updatedAt.value else d.updatedAt)
  }

  /** Converting a stored document to a user and back reproduces its three editable fields and nothing else. */
  method ConversionRoundTrip(id: string, d: UserDoc) returns (data: PartialUserDoc)
    ensures data == PartialUserDoc(Present(d.displayName), Present(d.groupId), Present(d.fcmToken), Absent, Absent)
    ensures Merge(d, data) == d
  {
    data := UserToFirestore(AsPartial(UserFromFirestore(id, d)));
  }

  datatype UserError = UserNotFound

  class UserStore {
    var users: map<string, UserDoc>

    constructor (us: map<string, UserDoc>)
      ensures users == us
    {
      users := us;
    }

    /** `getUser`: null when there is no document, otherwise the document as a user. */
    method GetUser(userId: string) returns (r: Option<User>)
      ensures r.None? <==> userId !in users
      ensures r.Some? ==> r.value == UserFromFirestore(userId, users[userId])
    {
      if userId !in users {
        return None;
      }
      r := Some(UserFromFirestore(userId, users[userId]));
    }

    /** `createUser`: writes a fresh document (over any old one) with every field null and both instants `now`. */
    method CreateUser(userId: string, now: int) returns (u: User)
      modifies this
      ensures users == old(users)[userId := UserDoc(None, None, None, now, now)]
      ensures u == User(userId, None, None, None, now, now)
    {
      var d := UserDoc(None, None, None, now, now);
      users := users[userId := d];
      u := UserFromFirestore(userId, d);
    }

    /**
     * `updateUser`: writes the fields `userToFirestore` keeps plus `updatedAt`; `createdAt` stays. Updating a
     * user without a document fails and writes nothing.
     */
    method UpdateUser(userId: string, data: PartialUser, now: int) returns (r: Result<(), UserError>)
      modifies this
      ensures r.Err? <==> userId !in old(users)
      ensures r.Err? ==> users == old(users)
      ensures r.Ok? ==> users == old(users)[userId := old(users)[userId].(
                displayName := if data.displayName.Present? then data.displayName.value else old(users)[userId].displayName,
                groupId := if data.groupId.Present? then data.groupId.value else old(users)[userId].groupId,
                fcmToken := if data.fcmToken.Present? then data.fcmToken.value else old(users)[userId].fcmToken,
                updatedAt := now)]
      ensures r.Ok? ==> users[userId].createdAt == old(users)[userId].createdAt
    {
      if userId !in users {
        return Err(UserNotFound);
      }
      var kept := UserToFirestore(data);
      var update := kept.(updatedAt := Present(now));
      users := users[userId := Merge(users[userId], update)];
      r := Ok(());
    }

    /**
     * `getOrCreateUser`: an existing user comes back unchanged with the table untouched; otherwise the user is
     * created. Either way the user exists afterwards, so a second call creates nothing.
     */
    method GetOrCreateUser(userId: string, now: int) returns (u: User)
      modifies this
      ensures userId in users && u == UserFromFirestore(userId, users[userId])
      ensures userId in old(users) ==> users == old(users)
      ensures userId !in old(users) ==> users == old(users)[userId := UserDoc(None, None, None, now, now)]
    {
      var existing := GetUser(userId);
      if existing.Some? {
        return existing.value;
      }
      u := CreateUser(userId, now);
    }
  }

  /** Two get-or-create calls for one user: the second returns what the first did and writes nothing. */
  method GetOrCreateTwice(us: map<string, UserDoc>, userId: string, first: int, second: int)
    returns (a: User, b: User, created: nat)
    ensures a == b
    ensures created == (if userId in us then 0 else 1)
  {
    var store := new UserStore(us);
    a := store.GetOrCreateUser(userId, first);
    b := store.GetOrCreateUser(userId, second);
    if userId !in us {
      assert store.users.Keys == us.Keys + {userId};
    } else {
      assert store.users.Keys == us.Keys;
    }
    created := |store.users.Keys| - |us.Keys|;
  }
}
