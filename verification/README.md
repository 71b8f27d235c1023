# EnviroSync authentication core and client utilities, in Dafny

EnviroSync is a SvelteKit dashboard for environmental sensor data. This
project models two parts of it:

- **The server's authentication core.**
  - A SQLite store of users and sessions (`db.js`).
  - The user-administration endpoint `/api/auth/users` (GET, POST, PUT, DELETE).
  - The login and logout endpoints.
  - The request hook that resolves the `session` cookie on every request
    and lets the request through, answers 401, or redirects.
- **Three client-side utilities that work on `localStorage`.**
  - The TTL cache `CacheManager`.
  - The hidden-device list.
  - The QuestDB helpers: identifier quoting and the choice of the
    device-id column.

The model's building blocks:

- **Tables are maps.** `users` is keyed by id, with an AUTOINCREMENT
  counter. `sessions` is keyed by token.
- **The database handle is a class.** `AuthStore.Db` has `modifies`
  frames. The session operations change only its `sessions` field.
- **Handlers are methods.** Each handler is one atomic step on the store,
  with a postcondition per branch of its guard chain, in the source's order.
- **The clock is a parameter.** `now` is given in milliseconds.
- **Randomness is a parameter.** `crypto.randomBytes` becomes
  `Entropy16` and `Entropy32`.
- **The key-derivation function is uninterpreted.** It is a deterministic
  function value `kdf` held by the store: PBKDF2-HMAC-SHA-512, 10 000
  iterations, 64-byte key (section 5.2 of RFC 8018). The hex encoding of
  salts and tokens is modelled and proved to round-trip.
- **`localStorage` is the class `BrowserStorage.LocalStorage`.** It maps
  each key to the value `JSON.parse` makes of the stored text: a cache
  entry, an array of strings, or unparsed text. `Serialize` gives back the
  stored text, used for sizes and raw reads.
- **Module structure.**
  - `Wrappers`, `Strings` and `Hex` are helpers.
  - `AuthStore` and `ExpiryText` model `db.js`.
  - `Http` holds replies and cookies.
  - `UsersApi`, `LoginApi`, `LogoutApi` and `Gate` model the handlers and
    the hook.
  - `BrowserStorage`, `Cache`, `DeviceFilter` and `QuestDbHelpers` model
    the client side.

The hook (`src/hooks.server.js:16-29`) checks the anonymous case first: a
request without a valid session on a path that is not public gets a 401
reply on `/api/` paths and a redirect to `/login` elsewhere. Only then is a
signed-in user on exactly `/login` redirected to `/`; every other request
proceeds. The public paths are a fixed list (`src/hooks.server.js:11`).

## Model

| member | source | states |
|---|---|---|
| AuthStore.StoredHashVerifies | src/lib/server/db.js:69-72 | A hash stored under a salt verifies again with the same password. Another password verifies only when the KDF gives it the same hash under that salt. |
| AuthStore.GenerateSalt | src/lib/server/db.js:59-61 | A salt is 32 hex characters and decodes to the 16 random bytes. |
| AuthStore.GenerateSessionId | src/lib/server/db.js:64-66 | A token is 64 hex characters and decodes to the 32 random bytes. |
| Hex.FromHexToHex | src/lib/server/db.js:60 | Decoding the hex text of any byte sequence gives the bytes back. |
| AuthStore.SeedUsers | src/lib/server/db.js:41-48 | An empty users table gets exactly one user, `admin`, whose password `admin` verifies under a fresh 32-character salt. A non-empty table is returned unchanged. |
| AuthStore.Db.Open | src/lib/server/db.js:14-51 | Opening the store keeps the stored tables, seeds the admin account when there are no users, and establishes the store invariant: unique usernames, ids below the counter, at least one user. |
| AuthStore.UserNamedIsUnique | src/lib/server/db.js:27 | With unique usernames, the lookup by name finds the one user bearing it. |
| AuthStore.Db.FindByUsername | src/routes/api/auth/login/+server.js:13 | The lookup by username returns the id of the user with that name, or None when no user has it. |
| AuthStore.Db.CreateSession | src/lib/server/db.js:75-81 | Adds exactly one row: the fresh token, owned by the user, expiring now + 604 800 000 ms. It returns that token, and users and the counter are unchanged. A token that is already present fails the insert and changes nothing. |
| AuthStore.ValidateSession | src/lib/server/db.js:84-100 | An absent or empty token gives null. A result is always the owner of the token's session row, which expires strictly after now, and that owner exists, with its current username. |
| AuthStore.SessionLiveExactlyBeforeExpiry | src/lib/server/db.js:87-99 | A stored token of an existing user validates exactly while now < expires_at, and then to {id, username} of its owner. |
| AuthStore.IssuedSessionWindow | src/lib/server/db.js:75-81 | A session issued at t validates to its user at every instant before t + 7 days and at none after. |
| AuthStore.IssuingLeavesOtherTokens | src/lib/server/db.js:79 | Inserting a session row changes the validation of no other token. |
| AuthStore.Db.DeleteSession | src/lib/server/db.js:103-106 | Removes exactly row `token`. An absent token is a no-op. |
| AuthStore.DeletedSessionInvalid | src/lib/server/db.js:103-106 | After deleting row t, t never validates, and every other token validates as before. |
| AuthStore.WithoutUserSessions | src/lib/server/db.js:109-112 | The rows left are exactly those whose user_id differs, unchanged. |
| AuthStore.Db.DeleteUserSessions | src/lib/server/db.js:109-112 | Removes exactly the rows of that user, and nothing else changes. |
| AuthStore.RevokedUserSessionsInvalid | src/lib/server/db.js:109-112 | After revocation, no token of that user validates at any instant. Valid tokens of other users are unaffected. |
| AuthStore.DeletedUserTokensInvalid | src/lib/server/db.js:90-93 | The join with users makes a token of a deleted user invalid even if its row survives. |
| AuthStore.WithoutExpired | src/lib/server/db.js:115-118 | The rows left are exactly those with expires_at > now, unchanged. |
| AuthStore.Db.CleanExpiredSessions | src/lib/server/db.js:115-118 | Removes exactly the rows expired at now. |
| AuthStore.SweepPreservesValidation | src/lib/server/db.js:115-118 | At the instant it runs, the sweep changes no token's validation, and a second sweep removes nothing more. |
| ExpiryText.SameDateAlwaysAfter | src/lib/server/db.js:93 | As written (ISO text against `datetime('now')` text), a session passes the expiry test all day on its expiry date, whatever the times. |
| ExpiryText.SameDateNeverSwept | src/lib/server/db.js:117 | As written (`expires_at <= datetime('now')` on text), the sweep never removes a row whose expiry date is the current date, whatever the times. |
| ExpiryText.ExpiredSessionStillAccepted | src/lib/server/db.js:93 | Concrete case: expiry 08:00 UTC is still accepted at 20:00 UTC the same day. |
| Http.SessionCookieValue | src/hooks.server.js:6 | `cookies.get("session")` is present exactly when the cookie is, with its value. |
| UsersApi.InsertByCreation | src/routes/api/auth/users/+server.js:11 | Insertion into the listing adds exactly one entry, as a multiset. |
| UsersApi.InsertKeepsSorted | src/routes/api/auth/users/+server.js:11 | Insertion keeps the listing sorted by created_at ascending. |
| UsersApi.InsertKeepsBound | src/routes/api/auth/users/+server.js:11 | Insertion keeps a lower bound on creation times. |
| UsersApi.ListUsers | src/routes/api/auth/users/+server.js:10-12 | The listing has one entry per user, holding only id, username and created_at (never hash or salt), ordered by created_at ascending. |
| UsersApi.Get | src/routes/api/auth/users/+server.js:5-13 | Without a user it answers 401. Otherwise it answers 200 with the listing. |
| UsersApi.Post | src/routes/api/auth/users/+server.js:16-53 | Checks in order: 401, 500 (unreadable body), 400 (missing field), 400 (username < 3), 400 (password < 4), 409 (name taken). Every check leaves the store unchanged. Success adds exactly one row at the next id, with that name and the password hashed under a fresh salt. The password then verifies, and usernames stay unique. |
| UsersApi.Put | src/routes/api/auth/users/+server.js:56-90 | Checks in order: 401, 500, 400 (missing field), 400 (password < 4), 404 (unknown id). Success replaces only that user's hash and salt, so the new password verifies. It deletes every session of that user, and none of that user's old tokens validates again. |
| UsersApi.Delete | src/routes/api/auth/users/+server.js:93-127 | Checks in order: 401, 400 (missing or zero id), 400 "Cannot delete the last user" when at most one user exists (before the existence check), 404. Success removes that user's sessions and then the user, so the user count drops by exactly one and never reaches zero. |
| LoginApi.Login | src/routes/api/auth/login/+server.js:4-40 | 500 for an unreadable body; 400 for a missing field; 401 with one identical body for an unknown name and for a wrong password. None of these creates a session. Success adds exactly one session for the matched user and answers {success, username}. It sets cookie `session` (path "/", HttpOnly, SameSite lax, max-age 604 800 s), and the token validates to that user at once. |
| LogoutApi.Logout | src/routes/api/auth/logout/+server.js:4-11 | Always {success: true}. With a cookie t, it deletes only row t and clears the cookie, and t never validates again. Without one, nothing changes. |
| Gate.Decide | src/hooks.server.js:10-31 | 401 JSON exactly for an anonymous non-public /api/ path. 303 to /login exactly for any other anonymous non-public path. 303 to / exactly for a user on "/login". Proceed otherwise. |
| Gate.ProtectedRoutesNeedSession | src/hooks.server.js:16-24 | On a non-public path the request proceeds exactly when a user is present. |
| Gate.LoginAlwaysReachable | src/hooks.server.js:11-16 | Anonymous requests to the login page and the login endpoint proceed. |
| Gate.SignedInBelowLoginPageProceeds | src/hooks.server.js:11-29 | "/login" followed by anything is public (a prefix test), and a signed-in user there is not redirected. |
| Gate.UsersApiWithoutSessionUnauthorized | src/hooks.server.js:17-22 | An anonymous request to /api/auth/users gets 401, not a redirect. |
| Gate.Handle | src/hooks.server.js:5-32 | `locals.user` is the validation of the session cookie at now, set before deciding. The decision is `Decide` of it. |
| Gate.IssuedCookiePassesGate | src/hooks.server.js:6-16 | The cookie of a session issued at t carries the user through protected paths exactly until t + 7 days. |
| BrowserStorage.Serialize | src/lib/cache.js:16 | The stored text of a parsed value: an entry or an array is never empty, and plain text is itself. |
| Cache.ReadEntry | src/lib/cache.js:25-45 | `get` serves data exactly for an entry with now - timestamp <= ttl (still valid at exactly ttl). It gives undefined for an array and null otherwise. |
| Cache.AfterRead | src/lib/cache.js:34-43 | `get` removes at most the key read: exactly when it is unparseable non-empty text or an expired entry. Nothing it serves is removed. |
| Cache.PrefixedKeys | src/lib/cache.js:73-74 | The application keys are exactly the stored keys starting with the prefix. |
| Cache.WithoutPrefixed | src/lib/cache.js:57-64 | The store after clearAll has exactly the keys without the prefix, with their values unchanged. |
| Cache.ClearedCacheMisses | src/lib/cache.js:57-64 | After clearAll every `get` misses. |
| Cache.StatOf | src/lib/cache.js:77-92 | A stat's size is the stored text's length. It has a timestamp exactly for an entry. It is expired exactly when `get` would give null. |
| Cache.TotalSizeRemove | src/lib/cache.js:76-80 | The summed size can take any key out first, so the sum does not depend on key order. |
| Cache.CacheManager.constructor | src/lib/cache.js:3-6 | Prefix "envirosync_", default TTL 300 000 ms. |
| Cache.CacheManager.Set | src/lib/cache.js:9-22 | Stores {data, timestamp: now, ttl (default 300 000)} under prefix + key and returns true. A `get` at the same instant then serves data. |
| Cache.CacheManager.Get | src/lib/cache.js:25-45 | Returns `ReadEntry` of the stored value. The store becomes `AfterRead` of the old store: a missing key changes nothing, and an expired or unparseable entry is deleted. |
| Cache.CacheManager.Delete | src/lib/cache.js:48-54 | Removes only prefix + key. |
| Cache.CacheManager.ClearAll | src/lib/cache.js:57-68 | The loop over the keys removes exactly the prefixed keys and leaves every other key and value unchanged. |
| Cache.CacheManager.GetStats | src/lib/cache.js:71-104 | Reads only. totalItems is the number of prefixed keys, with one stat per key (prefix stripped). totalSize is the sum of their stored lengths. |
| DeviceFilter.StoredIds | src/lib/deviceFilter.js:33-41 | The stored array, or [] for a missing key, empty text or unparseable text. |
| DeviceFilter.HiddenDeviceIds | src/lib/deviceFilter.js:29-42 | [] without storage, otherwise the stored ids. |
| DeviceFilter.IsDeviceHidden | src/lib/deviceFilter.js:6-9 | True exactly when the id is in the stored hidden list. |
| DeviceFilter.FilterVisible | src/lib/deviceFilter.js:17-23 | Keeps exactly the devices whose id (the string, or the idField) is not hidden, with their multiplicity. The result is a subsequence of the input. |
| DeviceFilter.FilterVisibleDevices | src/lib/deviceFilter.js:17-23 | With `idField` defaulting to "id", a device is kept exactly when it has no id or `isDeviceHidden` of its id is false. Order is preserved. |
| DeviceFilter.IndexOf | src/lib/deviceFilter.js:62 | -1 exactly when absent, otherwise the first position of the id. |
| DeviceFilter.Toggled | src/lib/deviceFilter.js:61-68 | An absent id is appended. A present id has its first occurrence spliced out. As a multiset, the id is added or removed once. |
| DeviceFilter.ToggleTwiceRestores | src/lib/deviceFilter.js:62-68 | Toggling an absent id twice restores the original list. |
| DeviceFilter.ToggleFlipsMembership | src/lib/deviceFilter.js:60-70 | On a list without repetitions, a toggle flips membership and keeps the list free of repetitions, so the returned flag is the new hidden state. |
| DeviceFilter.SetHiddenDeviceIds | src/lib/deviceFilter.js:48-53 | Stores the list under "enviroSyncHiddenDevices", after which `getHiddenDeviceIds` returns exactly it. Without storage it does nothing. |
| DeviceFilter.ToggleDeviceVisibility | src/lib/deviceFilter.js:60-70 | Returns true exactly when the id was not hidden. The stored list becomes `Toggled` of the old list. |
| DeviceFilter.HiddenListSurvivesCacheClear | src/lib/deviceFilter.js:33 | The hidden-device key lacks the cache prefix, so the cache's clearAll keeps it. |
| QuestDbHelpers.DoubleQuotes | src/lib/questdbHelpers.js:17 | Doubling quotes never shortens the text. |
| QuestDbHelpers.QuoteIdentifier | src/lib/questdbHelpers.js:14-18 | The name is returned unchanged exactly when it matches ^[a-z_][a-z0-9_]*$. Otherwise it is wrapped in double quotes. |
| QuestDbHelpers.UndoubleDoubleQuotes | src/lib/questdbHelpers.js:17 | Reading back doubled quotes gives the original text. |
| QuestDbHelpers.QuoteIdentifierRoundTrip | src/lib/questdbHelpers.js:14-18 | Stripping the outer quotes and undoubling recovers every name. A plain name is read as itself. |
| QuestDbHelpers.Lower | src/lib/questdbHelpers.js:53 | ASCII `toLowerCase`, character by character, same length. |
| QuestDbHelpers.FindIgnoringCase | src/lib/questdbHelpers.js:53 | None exactly when no column equals the candidate ignoring case. Otherwise it gives the first such column, in its own spelling. |
| QuestDbHelpers.FindContaining | src/lib/questdbHelpers.js:64-73 | None exactly when no lower-cased column contains the part. Otherwise it gives the first that does. |
| QuestDbHelpers.MatchCandidates | src/lib/questdbHelpers.js:52-61 | Gives the match of the first candidate, in list order, that any column matches. It is None exactly when no candidate matches. |
| QuestDbHelpers.MatchCandidatesFirst | src/lib/questdbHelpers.js:52-61 | The first matching candidate decides the result of the candidate loop. |
| QuestDbHelpers.NonEmptyMatch | src/lib/questdbHelpers.js:54 | A candidate match is never the empty string, so the `if (found)` test passes. |
| QuestDbHelpers.ChooseFrom | src/lib/questdbHelpers.js:50-81 | A candidate match wins. Otherwise the first column mentioning "device", then "id". The result is a non-empty column of the list, and it is None exactly when no column qualifies. |
| QuestDbHelpers.ChooseColumn | src/lib/questdbHelpers.js:48-81 | As ChooseFrom over the fixed candidate list, with a failed or empty probe giving None. |
| QuestDbHelpers.DeviceColumn | src/lib/questdbHelpers.js:48-85 | The chosen name is always a probed column or the literal "device_id". |
| QuestDbHelpers.SelectColumn | src/lib/questdbHelpers.js:49-81 | The candidate loop with its fallbacks computes exactly `ChooseColumn`. |
| QuestDbHelpers.ColumnCacheClearedByClearAll | src/lib/questdbHelpers.js:2 | The column cache key carries the cache prefix, so the cache's clearAll forgets the stored column name. |
| QuestDbHelpers.DeviceColumnResolver.Remembered | src/lib/questdbHelpers.js:37-46 | The remembered name: a non-empty in-memory value first, else the non-empty stored text. |
| QuestDbHelpers.DeviceColumnResolver.GetDeviceColumnName | src/lib/questdbHelpers.js:35-86 | A remembered name is returned without probing and with storage unchanged. Otherwise the probe decides. A found column is remembered in memory and storage; the last resort "device_id" is remembered in memory only. Afterwards the same name is remembered. |

## Left out

- Crypto internals: PBKDF2 and `crypto.randomBytes` are a function parameter and random-byte parameters. Comparing the hash with `===` is modelled as equality.
- SQLite and the filesystem: the database handle, WAL mode, directory creation and the SQL text are modelled as maps and their updates. The `ON DELETE CASCADE` clause is not modelled: the cascade is not relied on, because revocation is the explicit `deleteUserSessions` call before the user row is deleted.
- AuthStore.ValidateSession: models the intended numeric expiry test (expires_at > now in milliseconds), not the text comparison the SQL performs. The difference is under "Findings".
- AuthStore.Db.CleanExpiredSessions: models the intended numeric sweep (removes rows with expires_at <= now), as does AuthStore.WithoutExpired, not the text comparison of `expires_at` with `datetime('now')` the SQL performs; as written, rows that expired earlier on the current UTC date survive. The difference is under "Findings".
- AuthStore.Db.Open: the bootstrap's `console.log` announcing the default credentials is not modelled (console output).
- AuthStore.ValidateSession: the source returns early on an empty token without opening the database. Opening is modelled once, as `Db.Open`, so that skipped `getDb` call is not distinguished.
- Timestamps: `created_at` (SQLite `CURRENT_TIMESTAMP`, second resolution) and `expires_at` are integers in milliseconds.
- Async framework plumbing: `request.json()` is modelled as an optional parsed body, None when parsing throws. The `json`/`redirect` helpers are reply values. The cookie transport is a map plus outgoing directives.
- UsersApi.Post: `length` counts Dafny characters (Unicode scalar values), not JavaScript's UTF-16 code units, so names with astral-plane characters are measured differently. Non-string JSON fields are not modelled.
- UsersApi.Put: the same holds for `newPassword.length`: a password of two astral-plane characters (four UTF-16 units) is refused by the model with 400 where the source accepts it. Non-string JSON fields are not modelled.
- Cache.CacheManager.GetStats: sizes count Dafny characters, not the UTF-16 code units of `value.length`, so texts with astral-plane characters have smaller sizes in the model.
- LoginApi.Login: the body's fields are optional strings. A non-string password, such as a number, makes `pbkdf2Sync` throw in the source and gives the 500 reply; the model cannot express that input.
- UsersApi.Delete: the `userId` query parameter arrives already parsed, as an `Option<int>`. `parseInt`'s leniency (it reads "12abc" as 12) is not modelled; None stands for a missing or unparseable value (`NaN`), which, like 0, gives the 400 reply.
- UsersApi.Put: `userId` is modelled as a number. A string id, which SQLite would compare by type affinity, is not modelled.
- Storage failures: quota errors and a throwing `localStorage` are not modelled. `CacheManager.set` always succeeds, and the catch branches that only log are not modelled.
- BrowserStorage.Serialize: JSON escaping of control characters in strings is not modelled. Only `"` and `\` are escaped.
- Cache.ReadEntry: every stored text that is not a cache entry or an array is treated as failing to parse. Text that parses to another JSON value, such as a bare number, would make `get` return `undefined` instead.
- DeviceFilter.StoredIds: a stored JSON value that is not an array, such as an object, is returned as it is by the source. The model reads it as [].
- DeviceFilter.DeviceIdOf: device objects are string-to-string maps. Non-string id fields are not modelled.
- Key order: `Object.keys(localStorage)` order is implementation-defined. `ClearAll` and `GetStats` pick keys in an unspecified order, and the order of `GetStats` items is left unspecified.
- Column probing: `probeColumns` and its `fetch` are not modelled. Its result is the `probe` input, and `getTableName` is left out. `toLowerCase` is ASCII only.
- Concurrency between in-flight requests is not modelled. Each handler is one atomic step.
- `src/service-worker.js`, `src/routes/api/questdb/+server.js`, `src/lib/config.js` and the build configuration are not part of this model.

## Findings

| source | as written | input that shows it | evidently intended | confidence | as-written member | corrected member |
|---|---|---|---|---|---|---|
| src/lib/server/db.js:93 | `expires_at` is stored by `toISOString()` as "YYYY-MM-DDTHH:MM:SS.sssZ" and compared as text with `datetime('now')`, which is "YYYY-MM-DD HH:MM:SS". On the expiry's date the dates agree, and 'T' sorts after ' '. | expires_at "2025-03-10T08:00:00.000Z", now "2025-03-10 20:00:00": the session is still accepted 12 hours after it expired. It stays valid until midnight UTC. | A session is valid exactly while now < expires_at. | high (not executed) | ExpiryText.SameDateAlwaysAfter | AuthStore.SessionLiveExactlyBeforeExpiry |
| src/lib/server/db.js:117 | `cleanExpiredSessions` deletes `WHERE expires_at <= datetime('now')`, the same text comparison of an ISO expiry with "YYYY-MM-DD HH:MM:SS". | expires_at "2025-03-10T08:00:00.000Z", now "2025-03-10 20:00:00": the row is not deleted, although it expired 12 hours earlier. | The sweep removes exactly the rows with expires_at <= now. | high (not executed) | ExpiryText.SameDateNeverSwept | AuthStore.WithoutExpired |
