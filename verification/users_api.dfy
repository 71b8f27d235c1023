/** The user-administration endpoint `/api/auth/users`: list, create,
    change password and delete. Each handler is one atomic step on the
    store, reached with `locals.user` as the gate resolved it. */
module UsersApi {
  import opened Wrappers
  import opened AuthStore
  import opened Http

  /** The JSON body of POST. */
  datatype NewUser = NewUser(username: Option<string>, password: Option<string>)

  /** The JSON body of PUT. */
  datatype PasswordChange = PasswordChange(userId: Option<int>, newPassword: Option<string>)

  /** `!userId` in JavaScript for a number: absent (or NaN) or zero. */
  predicate BlankId(userId: Option<int>)
  {
    userId.None? || userId.value == 0
  }

  // ---------------------------------------------------------------------
  // GET: the listing

  function Info(id: int, row: UserRow): UserInfo
  {
    UserInfo(id, row.username, row.createdAt)
  }

  /** ORDER BY created_at ASC */
  predicate SortedByCreation(list: seq<UserInfo>)
  {
    forall i, j :: 0 <= i < j < |list| ==> list[i].createdAt <= list[j].createdAt
  }

  /** `list` holds one entry per user, each the id, name and creation time of
      that user, in creation order. */
  ghost predicate IsListing(list: seq<UserInfo>, users: map<int, UserRow>)
  {
    && SortedByCreation(list)
    && |list| == |users|
    && (forall x :: x in list ==> x.id in users && x == Info(x.id, users[x.id]))
    && (forall id :: id in users ==> Info(id, users[id]) in list)
  }

  predicate CreatedNoEarlierThan(list: seq<UserInfo>, bound: int)
  {
    forall i :: 0 <= i < |list| ==> bound <= list[i].createdAt
  }

  /** Places `x` after every entry created no later than it. */
  function InsertByCreation(list: seq<UserInfo>, x: UserInfo): (r: seq<UserInfo>)
    ensures |r| == |list| + 1
    ensures forall y :: y in r <==> y in list || y == x
    ensures multiset(r) == multiset(list) + multiset{x}
  {
    if list == [] || x.createdAt < list[0].createdAt then
      [x] + list
    else
      assert list == [list[0]] + list[1..];
      [list[0]] + InsertByCreation(list[1..], x)
  }

  lemma {:induction false} InsertKeepsBound(list: seq<UserInfo>, x: UserInfo, bound: int)
    requires CreatedNoEarlierThan(list, bound) && bound <= x.createdAt
    ensures CreatedNoEarlierThan(InsertByCreation(list, x), bound)
  {
    if list != [] && x.createdAt >= list[0].createdAt {
      InsertKeepsBound(list[1..], x, bound);
    }
  }

  /** Insertion keeps the listing in creation order. */
  lemma {:induction false} InsertKeepsSorted(list: seq<UserInfo>, x: UserInfo)
    requires SortedByCreation(list)
    ensures SortedByCreation(InsertByCreation(list, x))
  {
    if list != [] && x.createdAt >= list[0].createdAt {
      var rest := InsertByCreation(list[1..], x);
      InsertKeepsSorted(list[1..], x);
      InsertKeepsBound(list[1..], x, list[0].createdAt);
      var r := [list[0]] + rest;
      assert r == InsertByCreation(list, x);
      forall i, j | 0 <= i < j < |r| ensures r[i].createdAt <= r[j].createdAt {
        if i > 0 {
          assert r[i] == rest[i - 1] && r[j] == rest[j - 1];
        } else {
          assert r[j] == rest[j - 1];
        }
      }
    } else if list != [] {
      var r := [x] + list;
      forall i, j | 0 <= i < j < |r| ensures r[i].createdAt <= r[j].createdAt {
        if i > 0 {
          assert r[i] == list[i - 1] && r[j] == list[j - 1];
        } else {
          assert r[j] == list[j - 1];
        }
      }
    }
  }

  /** `SELECT id, username, created_at FROM users ORDER BY created_at ASC` */
  method ListUsers(db: Db) returns (list: seq<UserInfo>)
    ensures IsListing(list, db.users)
  {
    var users := db.users;
    var remaining := users.Keys;
    ghost var seen: set<int> := {};
    list := [];
    while remaining != {}
      invariant remaining + seen == users.Keys && remaining !! seen
      invariant |list| == |seen|
      invariant SortedByCreation(list)
      invariant forall x :: x in list ==> x.id in seen && x == Info(x.id, users[x.id])
      invariant forall id :: id in seen ==> Info(id, users[id]) in list
      decreases remaining
    {
      ghost var w := ElementOf(remaining);
      var id :| id in remaining;
      InsertKeepsSorted(list, Info(id, users[id]));
      list := InsertByCreation(list, Info(id, users[id]));
      remaining, seen := remaining - {id}, seen + {id};
    }
    assert seen == users.Keys;
    assert |users| == |users.Keys|;
  }

  /** GET: 401 without a signed-in caller; otherwise the listing. */
  method Get(db: Db, caller: Option<Identity>) returns (reply: Reply)
    ensures caller.None? ==> reply == Unauthorized
    ensures caller.Some? ==> reply.status == 200 && reply.payload.UserList?
    ensures caller.Some? ==> IsListing(reply.payload.users, db.users)
  {
    if caller.None? {
      return Unauthorized;
    }
    var list := ListUsers(db);
    reply := Reply(200, UserList(list));
  }

  // ---------------------------------------------------------------------
  // POST: create a user

  /** POST, checks in this order: a signed-in caller (401), a readable body
      (500), both fields present (400), username of at least 3 characters
      (400), password of at least 4 (400), a free username (409). Then one
      new row: the next id, the name, the password hashed under a fresh
      salt. */
  method Post(db: Db, caller: Option<Identity>, body: Option<NewUser>, random: Entropy16, now: int)
    returns (reply: Reply)
    requires db.Valid()
    modifies db
    ensures db.Valid()
    ensures db.sessions == old(db.sessions)
    ensures caller.None? ==> reply == Unauthorized && unchanged(db)
    ensures caller.Some? && body.None? ==> reply == InternalError && unchanged(db)
    ensures caller.Some? && body.Some? && (Blank(body.value.username) || Blank(body.value.password)) ==>
              reply == Failure(400, "Username and password are required") && unchanged(db)
    ensures caller.Some? && body.Some? && !Blank(body.value.username) && !Blank(body.value.password) ==>
              var name, password := body.value.username.value, body.value.password.value;
              && (|name| < 3 ==> reply == Failure(400, "Username must be at least 3 characters") && unchanged(db))
              && (|name| >= 3 && |password| < 4 ==>
                    reply == Failure(400, "Password must be at least 4 characters") && unchanged(db))
              && (|name| >= 3 && |password| >= 4 && UserNamed(old(db.users), name).Some? ==>
                    reply == Failure(409, "Username already exists") && unchanged(db))
              && (|name| >= 3 && |password| >= 4 && UserNamed(old(db.users), name).None? ==>
                    && reply == Ok
                    && db.nextId == old(db.nextId) + 1
                    && db.users == old(db.users)[old(db.nextId) :=
                         UserRow(name, HashPassword(db.kdf, password, GenerateSalt(random)), GenerateSalt(random), now)]
                    && UserNamed(db.users, name) == Some(old(db.nextId))
                    && VerifyPassword(db.kdf, password, db.users[old(db.nextId)].passwordHash, db.users[old(db.nextId)].salt))
  {
    if caller.None? {
      return Unauthorized;
    }
    if body.None? {
      return InternalError;
    }
    var request := body.value;
    if Blank(request.username) || Blank(request.password) {
      return Failure(400, "Username and password are required");
    }
    var name, password := request.username.value, request.password.value;
    if |name| < 3 {
      return Failure(400, "Username must be at least 3 characters");
    }
    if |password| < 4 {
      return Failure(400, "Password must be at least 4 characters");
    }
    var existing := db.FindByUsername(name);
    if existing.Some? {
      return Failure(409, "Username already exists");
    }
    var salt := GenerateSalt(random);
    var hash := HashPassword(db.kdf, password, salt);
    var id := db.nextId;
    db.users := db.users[id := UserRow(name, hash, salt, now)];
    db.nextId := id + 1;
    UserNamedIsUnique(db.users, name, id);
    reply := Ok;
  }

  // ---------------------------------------------------------------------
  // PUT: change a password

  /** PUT, checks in this order: a signed-in caller (401), a readable body
      (500), both fields present (400), new password of at least 4
      characters (400), an existing user (404). Then that user's hash and
      salt are replaced, under a fresh salt, and every session of that user
      is deleted, the caller's own included. */
  method Put(db: Db, caller: Option<Identity>, body: Option<PasswordChange>, random: Entropy16)
    returns (reply: Reply)
    requires db.Valid()
    modifies db
    ensures db.Valid()
    ensures db.nextId == old(db.nextId) && db.users.Keys == old(db.users).Keys
    ensures old(SessionsOwned(db.users, db.sessions)) ==> SessionsOwned(db.users, db.sessions)
    ensures caller.None? ==> reply == Unauthorized && unchanged(db)
    ensures caller.Some? && body.None? ==> reply == InternalError && unchanged(db)
    ensures caller.Some? && body.Some? && (BlankId(body.value.userId) || Blank(body.value.newPassword)) ==>
              reply == Failure(400, "User ID and new password are required") && unchanged(db)
    ensures caller.Some? && body.Some? && !BlankId(body.value.userId) && !Blank(body.value.newPassword) ==>
              var id, password := body.value.userId.value, body.value.newPassword.value;
              && (|password| < 4 ==> reply == Failure(400, "Password must be at least 4 characters") && unchanged(db))
              && (|password| >= 4 && id !in old(db.users) ==> reply == Failure(404, "User not found") && unchanged(db))
              && (|password| >= 4 && id in old(db.users) ==>
                    && reply == Ok
                    && db.users == old(db.users)[id := old(db.users)[id].(
                         passwordHash := HashPassword(db.kdf, password, GenerateSalt(random)),
                         salt := GenerateSalt(random))]
                    && db.sessions == WithoutUserSessions(old(db.sessions), id)
                    && VerifyPassword(db.kdf, password, db.users[id].passwordHash, db.users[id].salt)
                    && (forall t, at :: t in old(db.sessions) && old(db.sessions)[t].userId == id ==>
                          ValidateSession(db.users, db.sessions, Some(t), at) == None))
  {
    if caller.None? {
      return Unauthorized;
    }
    if body.None? {
      return InternalError;
    }
    var request := body.value;
    if BlankId(request.userId) || Blank(request.newPassword) {
      return Failure(400, "User ID and new password are required");
    }
    var id, password := request.userId.value, request.newPassword.value;
    if |password| < 4 {
      return Failure(400, "Password must be at least 4 characters");
    }
    if id !in db.users {
      return Failure(404, "User not found");
    }
    var salt := GenerateSalt(random);
    var hash := HashPassword(db.kdf, password, salt);
    db.users := db.users[id := db.users[id].(passwordHash := hash, salt := salt)];
    db.DeleteUserSessions(id);
    forall t, at | t in old(db.sessions) && old(db.sessions)[t].userId == id
      ensures ValidateSession(db.users, db.sessions, Some(t), at) == None
    {
      RevokedUserSessionsInvalid(db.users, old(db.sessions), id, Some(t), at);
    }
    reply := Ok;
  }

  // ---------------------------------------------------------------------
  // DELETE: remove a user

  /** DELETE, checks in this order: a signed-in caller (401), a non-zero
      numeric `userId` query parameter (400), more than one user (400, before
      any existence check), an existing user (404). Then that user's sessions
      are deleted, then the user row: the user count drops by exactly one and
      never reaches zero. */
  method Delete(db: Db, caller: Option<Identity>, userId: Option<int>) returns (reply: Reply)
    requires db.Valid()
    modifies db
    ensures db.Valid()
    ensures db.nextId == old(db.nextId)
    ensures old(SessionsOwned(db.users, db.sessions)) ==> SessionsOwned(db.users, db.sessions)
    ensures caller.None? ==> reply == Unauthorized && unchanged(db)
    ensures caller.Some? && BlankId(userId) ==> reply == Failure(400, "User ID is required") && unchanged(db)
    ensures caller.Some? && !BlankId(userId) && |old(db.users)| <= 1 ==>
              reply == Failure(400, "Cannot delete the last user") && unchanged(db)
    ensures caller.Some? && !BlankId(userId) && |old(db.users)| > 1 ==>
              var id := userId.value;
              && (id !in old(db.users) ==> reply == Failure(404, "User not found") && unchanged(db))
              && (id in old(db.users) ==>
                    && reply == Ok
                    && db.users == old(db.users) - {id}
                    && |db.users| == |old(db.users)| - 1
                    && db.sessions == WithoutUserSessions(old(db.sessions), id))
  {
    if caller.None? {
      return Unauthorized;
    }
    if BlankId(userId) {
      return Failure(400, "User ID is required");
    }
    if |db.users| <= 1 {
      return Failure(400, "Cannot delete the last user");
    }
    var id := userId.value;
    if id !in db.users {
      return Failure(404, "User not found");
    }
    db.DeleteUserSessions(id);
    assert (db.users - {id}).Keys == db.users.Keys - {id};
    db.users := db.users - {id};
    reply := Ok;
  }
}
