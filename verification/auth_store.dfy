/** The server's credential and session store: the `users` and `sessions`
    tables of the SQLite file, the password hashing, the random salts and
    session tokens, and the session queries that every request goes through.
    Tables are maps keyed by user id and by token; the clock is the `now`
    parameter, in milliseconds. */
module AuthStore {
  import opened Wrappers
  import opened Hex

  /** The key-derivation function (PBKDF2 with HMAC-SHA-512, 10 000
      iterations, a 64-byte key, hex-encoded; section 5.2 of RFC 8018),
      applied to (password, salt). It is deterministic and otherwise left
      uninterpreted. */
  type Kdf = (string, string) -> string

  /** The output of `crypto.randomBytes(16)` and `crypto.randomBytes(32)`. */
  type Entropy16 = b: seq<byte> | |b| == 16 witness seq(16, _ => 0)
  type Entropy32 = b: seq<byte> | |b| == 32 witness seq(32, _ => 0)

  /** Seven days, in milliseconds. */
  const SessionLifetimeMs: int := 7 * 24 * 60 * 60 * 1000

  const DefaultUsername: string := "admin"
  const DefaultPassword: string := "admin"

  /** A row of `users`, keyed by its AUTOINCREMENT id. */
  datatype UserRow = UserRow(username: string, passwordHash: string, salt: string, createdAt: int)

  /** A row of `sessions`, keyed by its token. */
  datatype SessionRow = SessionRow(userId: int, expiresAt: int)

  /** What a valid session resolves to (`locals.user`). */
  datatype Identity = Identity(id: int, username: string)

  /** One entry of the user listing: never the hash or the salt. */
  datatype UserInfo = UserInfo(id: int, username: string, createdAt: int)

  // ---------------------------------------------------------------------
  // Hashing and random values

  function HashPassword(kdf: Kdf, password: string, salt: string): string
  {
    kdf(password, salt)
  }

  /** Recomputes the hash under the stored salt and compares it with `===`. */
  function VerifyPassword(kdf: Kdf, password: string, storedHash: string, salt: string): bool
  {
    HashPassword(kdf, password, salt) == storedHash
  }

  /** A hash stored with salt `s` verifies again with the same password, and
      another password verifies against it only on a key-derivation collision. */
  lemma StoredHashVerifies(kdf: Kdf, password: string, attempt: string, salt: string)
    ensures VerifyPassword(kdf, password, HashPassword(kdf, password, salt), salt)
    ensures VerifyPassword(kdf, attempt, HashPassword(kdf, password, salt), salt)
            <==> kdf(attempt, salt) == kdf(password, salt)
  {
  }

  /** 16 random bytes as hex: 32 lower-case hex digits. */
  function GenerateSalt(random: Entropy16): (salt: string)
    ensures |salt| == 32 && IsHexText(salt)
    ensures FromHex(salt) == random
  {
    FromHexToHex(random);
    ToHex(random)
  }

  /** 32 random bytes as hex: 64 lower-case hex digits, so never empty. */
  function GenerateSessionId(random: Entropy32): (token: string)
    ensures |token| == 64 && IsHexText(token)
    ensures FromHex(token) == random
  {
    FromHexToHex(random);
    ToHex(random)
  }

  // ---------------------------------------------------------------------
  // Table invariants

  predicate UniqueUsernames(users: map<int, UserRow>)
  {
    forall a, b :: a in users && b in users && a != b ==> users[a].username != users[b].username
  }

  /** Every id the AUTOINCREMENT counter has handed out lies below it. */
  predicate IdsBelow(users: map<int, UserRow>, nextId: int)
  {
    forall id :: id in users ==> 1 <= id < nextId
  }

  /** Every session row names an existing user, as the declared foreign key
      asks. The `ON DELETE CASCADE` is not relied on: revocation is the
      explicit `deleteUserSessions` call before the user row is deleted. */
  predicate SessionsOwned(users: map<int, UserRow>, sessions: map<string, SessionRow>)
  {
    forall t :: t in sessions ==> sessions[t].userId in users
  }

  /** The user `SELECT ... WHERE username = ?` finds, if any. */
  ghost function UserNamed(users: map<int, UserRow>, name: string): (r: Option<int>)
    ensures r.Some? ==> r.value in users && users[r.value].username == name
    ensures r.None? ==> forall id :: id in users ==> users[id].username != name
  {
    if exists id :: id in users && users[id].username == name then
      var id :| id in users && users[id].username == name;
      Some(id)
    else
      None
  }

  /** With unique usernames, the user found by name is the only one. */
  lemma UserNamedIsUnique(users: map<int, UserRow>, name: string, id: int)
    requires UniqueUsernames(users)
    requires id in users && users[id].username == name
    ensures UserNamed(users, name) == Some(id)
  {
  }

  // ---------------------------------------------------------------------
  // Bootstrap

  /** The users table after the first open: a store with no user gets exactly
      one, `admin`, whose password is `admin` under a fresh salt; a store with
      users is left as it is. */
  function SeedUsers(users: map<int, UserRow>, nextId: int, kdf: Kdf, random: Entropy16, now: int)
    : (r: map<int, UserRow>)
    ensures |users| > 0 ==> r == users
    ensures |users| == 0 ==> r.Keys == {nextId}
    ensures |users| == 0 ==> r[nextId].username == DefaultUsername && r[nextId].createdAt == now
    ensures |users| == 0 ==>
              VerifyPassword(kdf, DefaultPassword, r[nextId].passwordHash, r[nextId].salt)
    ensures |users| == 0 ==> |r[nextId].salt| == 32
  {
    if |users| == 0 then
      var salt := GenerateSalt(random);
      map[nextId := UserRow(DefaultUsername, HashPassword(kdf, DefaultPassword, salt), salt, now)]
    else
      users
  }

  // ---------------------------------------------------------------------
  // Session queries

  /** validateSession: an absent or empty token is refused without looking
      at the tables; otherwise the session row joined with its user, kept
      only while its expiry is strictly later than `now`. */
  function ValidateSession(users: map<int, UserRow>, sessions: map<string, SessionRow>,
                           token: Option<string>, now: int): (r: Option<Identity>)
    ensures token.None? || token.value == "" ==> r == None
    ensures r.Some? ==> token.Some? && token.value in sessions
    ensures r.Some? ==> r.value.id in users && r.value.username == users[r.value.id].username
    ensures r.Some? ==> r.value.id == sessions[token.value].userId && now < sessions[token.value].expiresAt
  {
    if token.None? || token.value == "" then None
    else if token.value !in sessions then None
    else
      var row := sessions[token.value];
      if row.userId in users && row.expiresAt > now then
        Some(Identity(row.userId, users[row.userId].username))
      else
        None
  }

  /** A stored session is valid exactly before its expiry, and then names
      its owner. */
  lemma SessionLiveExactlyBeforeExpiry(users: map<int, UserRow>, sessions: map<string, SessionRow>,
                                       token: string, now: int)
    requires token != "" && token in sessions && sessions[token].userId in users
    ensures ValidateSession(users, sessions, Some(token), now).Some? <==> now < sessions[token].expiresAt
    ensures now < sessions[token].expiresAt ==>
              ValidateSession(users, sessions, Some(token), now)
              == Some(Identity(sessions[token].userId, users[sessions[token].userId].username))
  {
  }

  /** A session issued at `issued` for an existing user validates to that user
      at every instant before `issued` + 7 days and at none from then on. */
  lemma IssuedSessionWindow(users: map<int, UserRow>, sessions: map<string, SessionRow>,
                            userId: int, random: Entropy32, issued: int, at: int)
    requires userId in users
    ensures var token := GenerateSessionId(random);
            var after := sessions[token := SessionRow(userId, issued + SessionLifetimeMs)];
            ValidateSession(users, after, Some(token), at)
            == if at < issued + SessionLifetimeMs then Some(Identity(userId, users[userId].username)) else None
  {
  }

  /** Issuing a session changes the validation of no other token. */
  lemma IssuingLeavesOtherTokens(users: map<int, UserRow>, sessions: map<string, SessionRow>,
                                 token: string, row: SessionRow, other: Option<string>, now: int)
    requires other != Some(token)
    ensures ValidateSession(users, sessions[token := row], other, now)
            == ValidateSession(users, sessions, other, now)
  {
  }

  /** After deleting row `token`, that token no longer validates, and no other
      token's validation changes. */
  lemma DeletedSessionInvalid(users: map<int, UserRow>, sessions: map<string, SessionRow>,
                              token: string, other: Option<string>, now: int)
    ensures ValidateSession(users, sessions - {token}, Some(token), now) == None
    ensures other != Some(token) ==>
              ValidateSession(users, sessions - {token}, other, now) == ValidateSession(users, sessions, other, now)
  {
  }

  /** `DELETE FROM sessions WHERE user_id = ?` */
  function WithoutUserSessions(sessions: map<string, SessionRow>, userId: int): (r: map<string, SessionRow>)
    ensures forall t :: t in r <==> t in sessions && sessions[t].userId != userId
    ensures forall t :: t in r ==> r[t] == sessions[t]
  {
    map t | t in sessions && sessions[t].userId != userId :: sessions[t]
  }

  /** Revoking a user's sessions invalidates every token of that user, at
      every instant, and leaves every other token's validation as it was. */
  lemma RevokedUserSessionsInvalid(users: map<int, UserRow>, sessions: map<string, SessionRow>,
                                   userId: int, token: Option<string>, now: int)
    ensures token.Some? && token.value in sessions && sessions[token.value].userId == userId ==>
              ValidateSession(users, WithoutUserSessions(sessions, userId), token, now) == None
    ensures ValidateSession(users, sessions, token, now).Some? && ValidateSession(users, sessions, token, now).value.id != userId ==>
              ValidateSession(users, WithoutUserSessions(sessions, userId), token, now)
              == ValidateSession(users, sessions, token, now)
  {
  }

  /** Because validation joins the session with its user, a token whose user
      row is gone never validates, revoked or not. */
  lemma DeletedUserTokensInvalid(users: map<int, UserRow>, sessions: map<string, SessionRow>,
                                 userId: int, token: string, now: int)
    requires token in sessions && sessions[token].userId == userId
    ensures ValidateSession(users - {userId}, sessions, Some(token), now) == None
  {
  }

  /** `DELETE FROM sessions WHERE expires_at <= now` */
  function WithoutExpired(sessions: map<string, SessionRow>, now: int): (r: map<string, SessionRow>)
    ensures forall t :: t in r <==> t in sessions && sessions[t].expiresAt > now
    ensures forall t :: t in r ==> r[t] == sessions[t]
  {
    map t | t in sessions && sessions[t].expiresAt > now :: sessions[t]
  }

  /** The sweep only reclaims storage: at the instant it runs it changes the
      validation of no token, and running it again removes nothing more. */
  lemma SweepPreservesValidation(users: map<int, UserRow>, sessions: map<string, SessionRow>,
                                 token: Option<string>, now: int)
    ensures ValidateSession(users, WithoutExpired(sessions, now), token, now)
            == ValidateSession(users, sessions, token, now)
    ensures WithoutExpired(WithoutExpired(sessions, now), now) == WithoutExpired(sessions, now)
  {
  }

  // ---------------------------------------------------------------------
  // The database handle

  /** The open database: its two tables, the AUTOINCREMENT counter of
      `users`, and the key-derivation function used for every hash. */
  class Db {
    const kdf: Kdf
    var users: map<int, UserRow>
    var sessions: map<string, SessionRow>
    var nextId: int

    /** Usernames are unique (the UNIQUE column), ids come from the counter,
        and at least one user exists. */
    ghost predicate Valid()
      reads this
    {
      1 <= nextId && |users| >= 1 && IdsBelow(users, nextId) && UniqueUsernames(users)
    }

    /** getDb's first call: the tables as stored in the file, then the
        default admin account when the users table is empty. */
    constructor Open(kdf: Kdf, storedUsers: map<int, UserRow>, storedSessions: map<string, SessionRow>,
                     storedNextId: int, random: Entropy16, now: int)
      requires 1 <= storedNextId && IdsBelow(storedUsers, storedNextId) && UniqueUsernames(storedUsers)
      ensures Valid()
      ensures this.kdf == kdf
      ensures users == SeedUsers(storedUsers, storedNextId, kdf, random, now)
      ensures sessions == storedSessions
      ensures nextId == if |storedUsers| == 0 then storedNextId + 1 else storedNextId
    {
      this.kdf := kdf;
      users := SeedUsers(storedUsers, storedNextId, kdf, random, now);
      sessions := storedSessions;
      nextId := if |storedUsers| == 0 then storedNextId + 1 else storedNextId;
    }

    /** `SELECT * FROM users WHERE username = ?` */
    method FindByUsername(name: string) returns (id: Option<int>)
      requires UniqueUsernames(users)
      ensures id == UserNamed(users, name)
    {
      var remaining := users.Keys;
      ghost var seen: set<int> := {};
      while remaining != {}
        invariant remaining + seen == users.Keys
        invariant forall k :: k in seen ==> users[k].username != name
        decreases remaining
      {
        ghost var w := ElementOf(remaining);
        var k :| k in remaining;
        if users[k].username == name {
          UserNamedIsUnique(users, name, k);
          return Some(k);
        }
        remaining, seen := remaining - {k}, seen + {k};
      }
      id := None;
    }

    /** createSession: a fresh token, a row expiring seven days from now, the
        token returned. A token already present violates the primary key and
        the insert fails (None), leaving the table as it was. */
    method CreateSession(userId: int, random: Entropy32, now: int) returns (token: Option<string>)
      modifies this`sessions
      ensures users == old(users) && nextId == old(nextId)
      ensures GenerateSessionId(random) in old(sessions) ==> token == None && sessions == old(sessions)
      ensures GenerateSessionId(random) !in old(sessions) ==>
                token == Some(GenerateSessionId(random))
                && sessions == old(sessions)[GenerateSessionId(random) := SessionRow(userId, now + SessionLifetimeMs)]
    {
      var id := GenerateSessionId(random);
      if id in sessions {
        token := None;
      } else {
        sessions := sessions[id := SessionRow(userId, now + SessionLifetimeMs)];
        token := Some(id);
      }
    }

    /** deleteSession: removes row `token` if present; otherwise nothing. */
    method DeleteSession(token: string)
      modifies this`sessions
      ensures users == old(users) && nextId == old(nextId)
      ensures sessions == old(sessions) - {token}
    {
      sessions := sessions - {token};
    }

    /** deleteUserSessions: removes exactly the rows of `userId`. */
    method DeleteUserSessions(userId: int)
      modifies this`sessions
      ensures users == old(users) && nextId == old(nextId)
      ensures sessions == WithoutUserSessions(old(sessions), userId)
    {
      sessions := WithoutUserSessions(sessions, userId);
    }

    /** cleanExpiredSessions: removes exactly the rows expired at `now`. */
    method CleanExpiredSessions(now: int)
      modifies this`sessions
      ensures users == old(users) && nextId == old(nextId)
      ensures sessions == WithoutExpired(old(sessions), now)
    {
      sessions := WithoutExpired(sessions, now);
    }
  }
}

/** How the expiry test `s.expires_at > datetime('now')` behaves on the texts
    actually stored: `expires_at` is written by `Date.toISOString()`
    ("YYYY-MM-DDTHH:MM:SS.sssZ") and compared, as text, with SQLite's
    `datetime('now')` ("YYYY-MM-DD HH:MM:SS"). */
module ExpiryText {

  /** Text order under SQLite's BINARY collation, for ASCII text. */
  predicate TextLess(a: string, b: string)
    decreases |a|
  {
    if a == [] then b != []
    else if b == [] then false
    else if a[0] != b[0] then a[0] < b[0]
    else TextLess(a[1..], b[1..])
  }

  /** The expiry test as written. */
  predicate StoredExpiryAfter(expiresIso: string, nowSql: string)
  {
    TextLess(nowSql, expiresIso)
  }

  /** On the expiry's own date the dates agree and the next characters are
      'T' (expiry) and ' ' (now): the test passes whatever the times are. */
  lemma {:induction false} SameDateAlwaysAfter(date: string, isoTime: string, sqlTime: string)
    ensures StoredExpiryAfter(date + "T" + isoTime, date + " " + sqlTime)
  {
    if date != [] {
      assert (date + " " + sqlTime)[0] == date[0] == (date + "T" + isoTime)[0];
      assert (date + " " + sqlTime)[1..] == date[1..] + " " + sqlTime;
      assert (date + "T" + isoTime)[1..] == date[1..] + "T" + isoTime;
      SameDateAlwaysAfter(date[1..], isoTime, sqlTime);
    } else {
      assert (" " + sqlTime)[0] == ' ' && ("T" + isoTime)[0] == 'T';
    }
  }

  /** The sweep's test as written: `expires_at <= datetime('now')`. */
  predicate SweptAsWritten(expiresIso: string, nowSql: string)
  {
    !TextLess(nowSql, expiresIso)
  }

  /** The sweep as written keeps every row whose expiry date is today,
      whatever its time: a row that expired at 08:00 survives at 20:00. */
  lemma {:induction false} SameDateNeverSwept(date: string, isoTime: string, sqlTime: string)
    ensures !SweptAsWritten(date + "T" + isoTime, date + " " + sqlTime)
  {
    SameDateAlwaysAfter(date, isoTime, sqlTime);
  }

  /** A session that expired at 08:00 UTC is still accepted at 20:00 UTC the
      same day. */
  lemma ExpiredSessionStillAccepted()
    ensures StoredExpiryAfter("2025-03-10T08:00:00.000Z", "2025-03-10 20:00:00")
  {
    SameDateAlwaysAfter("2025-03-10", "08:00:00.000Z", "20:00:00");
    assert "2025-03-10" + "T" + "08:00:00.000Z" == "2025-03-10T08:00:00.000Z";
    assert "2025-03-10" + " " + "20:00:00" == "2025-03-10 20:00:00";
  }
}
