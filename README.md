# User sessions and profiles, modelled in Dafny

This project models the session core of a NestJS user-management service.

- **AuthService** handles `register`, `login`, `logout` and `refreshToken`.
- **UsersService** is the user table, with its lookups and writes.
- **UsersMeService** lets a user read and edit their own profile.
- **BlacklistedTokensService** is the in-memory set of revoked tokens.
- **UserCacheService** holds one-day user snapshots, keyed `user_<username>`.
- **CacheService** is the hourly-flushed general cache.
- **RegisterDto** and **UpdateUserDto** carry the length rules on request bodies.

Each stateful service is modelled twice.

- **As a value.** The service's state is a datatype, and each operation is a function of the old state that returns the result and the new state. The lemmas are stated over these values.
- **As a class.** The service is a class whose fields are that state. Its methods perform the source's steps in order. Each method is proved to produce exactly what the function says.

AuthService drives the other services, so its class (`Auth.AuthService`) is specified by module `Session`. That module treats the three pieces of shared state as one value:

- the user table,
- the user cache,
- the blacklist.

Module `SessionProps` defines a consistency invariant over that value:

- usernames are unique;
- ids are unique and below the id counter;
- every stored refresh token is signed for the row that stores it;
- every cache entry sits under its snapshot's username;
- every cache entry belongs to an existing row.

Every operation keeps this invariant, including `updateUserMe`.

Module `Scenarios` follows sequences of operations. It shows these consequences of the code as written:

- a rotated refresh token is accepted again;
- logout does not stop refresh;
- a password change leaves the old password valid while the cached snapshot lives.

Several inputs of the original are turned into parameters:

- **Clock readings** become `nowMs: nat`, in milliseconds since the epoch.
- **bcrypt salts** become `salt: nat`.
- **Token secrets and lifetimes** become a `TokenConfig` value.

The libraries are modelled as follows:

- **bcrypt** is a digest that carries its salt and cost. `Compare` is characterised as re-hashing the candidate under the digest's salt and cost.
- **jsonwebtoken** is a token that carries its claims and signing key. `Sign` adds `iat` in whole seconds. `Decode` returns the claims without looking at the signature.
- **The user table** is a sequence of rows in scan order plus the next id; `getOne` returns the first match.

As written, the code does the following, and the model does the same:

- `jwt.decode` does not verify signatures.
- `refreshToken` consults neither the blacklist nor the stored token.
- `login` and `updateUserMe` do not invalidate the user cache.
- `logout` blacklists tokens it generates itself, not the caller's tokens.
- `updateUserMe` reads a field called `newUsername` (src/users/users.interface.ts:13), while the request DTO calls it `username`.
- The unit tests in src/users/users-me.service.spec.ts describe a cache-aware UsersMeService; the service file has no cache.

## Model

| member | source | states |
|---|---|---|
| Bcrypt.Hash | src/users/users.service.ts:21 | the digest records the salt it was made with and the cost (10 for every caller) |
| Bcrypt.Compare | src/auth/auth.service.ts:70 | a password verifies exactly when re-hashing it under the digest's own salt and cost reproduces the digest |
| Bcrypt.CompareHash | src/users/users-me.service.ts:54 | a password always verifies against its own digest, whatever the salt |
| Bcrypt.CompareRejectsOther | src/auth/auth.service.ts:73-76 | any other password is rejected by a digest |
| Jwt.Sign | src/auth/auth.service.ts:151-167 | the token is well-formed and signed with the given secret; it decodes to the userId and username claims, `iat` = clock seconds (present), `exp` = `iat` + expiresIn |
| Jwt.Decode | src/auth/auth.service.ts:120 | a malformed token decodes to nothing; a well-formed one decodes to its claims |
| Jwt.DecodeIgnoresSignature | src/auth/auth.service.ts:117-127 | re-signing a token under any key (a forgery) does not change what it decodes to |
| Jwt.SignDiffersAcrossSeconds | src/auth/auth.service.ts:159-167 | tokens signed in different seconds differ, because `iat` differs |
| Users.FindFirst | src/users/users.service.ts:30-33 | returns the position of the first matching row; no earlier row matches; none means no row matches |
| Users.GetOne | src/users/users.service.ts:30-33 | a result is a stored row that matches; none exactly when no row matches |
| Users.ByUsername | src/users/users.service.ts:29-34 | the result is a stored row with that username, and none iff no row has it; with unique usernames it is the one row holding it |
| Users.ById | src/users/users.service.ts:36-41 | the result is a stored row with that id, and none iff no row has it; with unique ids it is that row |
| Users.ByRefreshToken | src/users/users.service.ts:68-75 | the result is a stored row holding that token, and none iff no row holds it |
| Users.Create | src/users/users.service.ts:16-27 | fails with Conflict("Username already exists") iff the username is stored, and then changes nothing; otherwise appends exactly one row with the next id, the cost-10 digest (never the plaintext), no token and both timestamps at the clock |
| Users.Save | src/users/users.service.ts:43-45 | fails iff another id holds the username, and then changes nothing; otherwise replaces the row with the same id, moving updatedAt to the clock only if something changed and keeping createdAt; all other rows stay as they were |
| Users.WithRefreshToken | src/users/users.service.ts:46-66 | only rows with that id change, and only in their token column and their update time, which becomes the clock; an unknown id changes nothing; the id counter is kept |
| Users.CreateKeepsWellFormed | src/users/user.entity.ts:17 | createUser keeps usernames unique, ids unique and every id below the counter |
| Users.SaveKeepsWellFormed | src/users/users.service.ts:43-45 | saveUser keeps usernames unique, ids unique and every id below the counter |
| Users.WithRefreshTokenKeepsWellFormed | src/users/users.service.ts:46-66 | token writes keep usernames unique, ids unique and every id below the counter |
| Users.WithRefreshTokenThenById | src/users/users.service.ts:46-55 | after a token write, a lookup by that id finds the same row carrying the new token and the clock as its update time |
| Users.WithRefreshTokenThenByUsername | src/users/users.service.ts:57-66 | token writes move no username: a lookup by username finds the same row as before, with its token and update time written when its id was targeted |
| Users.RemoveRefreshTokenIdempotent | src/users/users.service.ts:57-66 | removing a refresh token twice is the same as removing it once, at the later clock |
| Users.UsersService.constructor | src/users/user.entity.ts:14-15 | the table starts empty, with the id counter at 1 |
| Users.UsersService.CreateUser | src/users/users.service.ts:16-27 | the stepwise createUser yields exactly Create's result and table, and keeps the table well formed |
| Users.UsersService.FindUserByUsername | src/users/users.service.ts:29-34 | reads the table only, with the result of ByUsername |
| Users.UsersService.FindUserById | src/users/users.service.ts:36-41 | reads the table only, with the result of ById |
| Users.UsersService.FindUserByRefreshToken | src/users/users.service.ts:68-75 | reads the table only, with the result of ByRefreshToken |
| Users.UsersService.SaveUser | src/users/users.service.ts:43-45 | the table and result become those of Save, and the table stays well formed |
| Users.UsersService.SetRefreshToken | src/users/users.service.ts:46-55 | the table becomes WithRefreshToken(table, id, token, clock), and stays well formed |
| Users.UsersService.RemoveRefreshToken | src/users/users.service.ts:57-66 | the table becomes WithRefreshToken(table, id, null, clock), and stays well formed |
| NodeCache.Put | src/shared/services/cache/user-cache.service.ts:16 | the key maps to the value with expiry clock + ttl; every other key is untouched |
| NodeCache.Get | src/shared/services/cache/user-cache.service.ts:21 | a value comes back iff the key is present and not yet expired, and it is the stored value |
| NodeCache.Del | src/shared/services/cache/user-cache.service.ts:26 | the key is gone; every other key is untouched |
| NodeCache.GetAfterPut | src/shared/services/cache/cache.service.ts:13-31 | a get after a set returns the value until its expiry, and nothing after |
| NodeCache.GetOtherKey | src/shared/services/cache/cache.service.ts:33-35 | set and del of one key leave every other key's reads unchanged |
| Cache.MsToNextHour | src/shared/services/cache/cache.service.ts:14-24 | the fallback lifetime is strictly positive, at most one hour, and ends exactly at the next hour boundary, with no boundary before it |
| Cache.NextHourIsNext | src/shared/services/cache/cache.service.ts:15-23 | clock + (hour − clock mod hour) is a multiple of an hour, and no multiple of an hour lies strictly between |
| Cache.EffectiveTtlMs | src/shared/services/cache/cache.service.ts:26 | a truthy ttl (seconds) is used; an absent or zero ttl falls back to the time to the next hour |
| Cache.GenerateCacheKey | src/shared/services/cache/cache.service.ts:56-58 | the key is the argument unchanged |
| Cache.GetAfterSet | src/shared/services/cache/cache.service.ts:13-31 | a value set with or without a ttl reads back until its lifetime ends |
| Cache.CacheService.constructor | src/shared/services/cache/cache.service.ts:8-11 | the cache starts empty |
| Cache.CacheService.Set | src/shared/services/cache/cache.service.ts:13-27 | the store becomes Put with the effective lifetime |
| Cache.CacheService.Get | src/shared/services/cache/cache.service.ts:29-31 | returns a value iff the key is present and alive, and reads only the cache |
| Cache.CacheService.Invalidate | src/shared/services/cache/cache.service.ts:33-35 | the store becomes Del of the key |
| Cache.CacheService.FlushAll | src/shared/services/cache/cache.service.ts:50-52 | the cache is empty and every get misses at every time |
| UserCache.GenerateCacheKey | src/shared/services/cache/user-cache.service.ts:29-31 | the key is "user_" followed by the argument |
| UserCache.GenerateCacheKeyInjective | src/shared/services/cache/user-cache.service.ts:29-31 | distinct arguments give distinct keys |
| UserCache.CacheUser | src/shared/services/cache/user-cache.service.ts:14-17 | setUserCache stores the snapshot under the prefixed key with the one-day lifetime |
| UserCache.CachedUser | src/shared/services/cache/user-cache.service.ts:19-22 | getUserCache reads the prefixed key at the clock |
| UserCache.EvictUser | src/shared/services/cache/user-cache.service.ts:24-27 | invalidateUserCache deletes the prefixed key |
| UserCache.GetUserCacheAfterSet | src/shared/services/cache/user-cache.service.ts:11 | a snapshot reads back iff at most 86400 seconds have passed since it was set |
| UserCache.GetUserCacheAfterInvalidate | src/shared/services/cache/user-cache.service.ts:24-27 | after invalidation the key misses; invalidating an absent key changes nothing |
| UserCache.UserCacheOtherKey | src/shared/services/cache/user-cache.service.ts:14-27 | set and invalidate of one username leave every other username's reads unchanged |
| UserCache.UserCacheService.constructor | src/shared/services/cache/user-cache.service.ts:10-12 | the cache starts empty |
| UserCache.UserCacheService.SetUserCache | src/shared/services/cache/user-cache.service.ts:14-17 | the store becomes CacheUser of the old store |
| UserCache.UserCacheService.GetUserCache | src/shared/services/cache/user-cache.service.ts:19-22 | reads only the cache, with the result of CachedUser |
| UserCache.UserCacheService.InvalidateUserCache | src/shared/services/cache/user-cache.service.ts:24-27 | the store becomes EvictUser of the old store |
| Blacklist.BlacklistedTokensService.constructor | src/auth/blacklisted-tokens.service.ts:7 | the set starts empty: no token is blacklisted |
| Blacklist.BlacklistedTokensService.AddToken | src/auth/blacklisted-tokens.service.ts:9-11 | the set grows by exactly the token, the token is then reported, and every other token keeps its status |
| Blacklist.BlacklistedTokensService.IsTokenBlacklisted | src/auth/blacklisted-tokens.service.ts:13-15 | true iff the token is in the set; reads only the set |
| Dtos.ValidatorLength | src/auth/dtos/register.dto.ts:7-12 | the length the `MinLength`/`MaxLength` rules test: never more than the number of characters, and equal to it exactly when the string holds no U+FE0E/U+FE0F variation selector |
| Dtos.ValidatorLengthAppend | src/auth/dtos/register.dto.ts:7-12 | that length adds up over concatenation |
| Dtos.RegisterDtoErrors | src/auth/dtos/register.dto.ts:4-21 | no messages iff the username's validator length is 4 to 20 and the password's at least 6; each message appears iff its own rule is broken |
| Dtos.UpdateUserDtoErrors | src/users/dtos/update-user.dto.ts:4-31 | no messages iff every present field meets its rule, by validator length; each message appears iff that present field breaks it |
| Dtos.RegisterBoundaries | src/auth/dtos/register.dto.ts:7-12 | usernames of validator length 4 and 20 pass and 3 and 21 fail; the empty username and the password "short" both fail |
| Dtos.PresentationSelectorNotCounted | src/auth/dtos/register.dto.ts:7-9 | "abc" with a trailing U+FE0F is a username too short, while an emoji counts once, so "ab", an emoji and "cd" pass |
| Dtos.UpdateUserDtoOptional | src/users/dtos/update-user.dto.ts:13 | an all-absent body passes, while a present empty username fails |
| UsersMe.UpdateMe | src/users/users-me.service.ts:31-67 | an unknown id fails with NotFound("User not found"); any failure leaves the table unchanged |
| UsersMe.Edited | src/users/users-me.service.ts:41-59 | only username and password can differ from the stored row; the username is the truthy newUsername or the old one; the password is the digest of newPassword iff both passwords are given |
| UsersMe.UpdateMeUsernameInUse | src/users/users-me.service.ts:41-49 | a newUsername held by another id fails with Conflict("Username already in use") and writes nothing |
| UsersMe.UpdateMeWrongOldPassword | src/users/users-me.service.ts:53-57 | with both passwords given and a wrong old one, the update fails with Conflict("Old password is incorrect") and writes nothing |
| UsersMe.UpdateMeSucceeds | src/users/users-me.service.ts:41-66 | otherwise (including a newUsername the caller already holds) the update succeeds; only the caller's row changes, to the edited row; the response carries its username and save time |
| UsersMe.UpdateMeKeepsWellFormed | src/users/users-me.service.ts:61 | updateUserMe keeps usernames unique, ids unique and every id below the counter |
| UsersMe.UsersMeService.constructor | src/users/users-me.service.ts:16 | the service is wired to the given UsersService |
| UsersMe.UsersMeService.GetUserMe | src/users/users-me.service.ts:19-29 | fails with NotFound("User not found") iff no row has the id; otherwise returns that row's username and timestamps, and writes nothing |
| UsersMe.UsersMeService.UpdateUserMe | src/users/users-me.service.ts:31-67 | the stepwise update yields exactly UpdateMe's result and table |
| Session.GenerateAccessToken | src/auth/auth.service.ts:151-157 | a token signed with the access secret, claiming the user's id and username, expiring after the access lifetime |
| Session.GenerateRefreshToken | src/auth/auth.service.ts:159-167 | a token signed with the refresh secret, claiming the user's id and username, expiring after the refresh lifetime |
| Session.Register | src/auth/auth.service.ts:34-50 | fails with Conflict("Username already exists") iff the username is stored, and then changes nothing; otherwise appends one row, caches it under its username, leaves the blacklist alone and returns its username and creation time |
| Session.LoginCandidate | src/auth/auth.service.ts:58-64 | the cached snapshot while it is alive, otherwise the table's row for the username |
| Session.Login | src/auth/auth.service.ts:52-90 | succeeds iff a candidate exists and the password verifies against it; an unknown user and a wrong password give the same Unauthorized("Invalid credentials") and no change; success stores exactly the returned refresh token in the candidate's row and moves its update time to the clock, leaves cache and blacklist alone, and echoes username, createdAt and updatedAt |
| Session.LogoutTokens | src/auth/auth.service.ts:104-107 | the access and refresh tokens regenerated for the user at the clock |
| Session.Logout | src/auth/auth.service.ts:92-110 | an unknown id changes nothing; otherwise that row's token is cleared and its update time moves to the clock, its username's cache entry is removed, and exactly the two regenerated tokens join the blacklist |
| Session.UsernameClaim | src/auth/auth.service.ts:117-127 | a non-empty username comes back iff the token decodes and its username claim is truthy |
| Session.RefreshToken | src/auth/auth.service.ts:112-149 | fails with Unauthorized("Invalid refresh token") and no change iff the token does not decode, has no truthy username, or names no stored user; otherwise that user's row stores the new refresh token and the clock as update time, the cache holds the row with that token and the clock as updatedAt, and the same new token is returned |
| SessionProps.InitialConsistent | src/auth/blacklisted-tokens.service.ts:7 | the empty table, cache and blacklist are consistent |
| SessionProps.WithRefreshTokenKeepsBound | src/users/users.service.ts:46-66 | a token write keeps every id present and keeps tokens bound to their rows when the token names the target id |
| SessionProps.RegisterKeepsConsistent | src/auth/auth.service.ts:34-50 | register keeps the consistency invariant |
| SessionProps.LoginKeepsConsistent | src/auth/auth.service.ts:78-81 | login keeps it: the token it stores names the id of its row |
| SessionProps.LogoutKeepsConsistent | src/auth/auth.service.ts:92-110 | logout keeps the consistency invariant |
| SessionProps.RefreshTokenKeepsConsistent | src/auth/auth.service.ts:136-146 | refreshToken keeps it: the snapshot it caches is a stored row, under that row's username |
| SessionProps.UpdateMeKeepsConsistent | src/users/users-me.service.ts:31-67 | updateUserMe keeps it: only the caller's row changes, keeping its id and stored token |
| SessionProps.RefreshTokenCachesStoredRow | src/auth/auth.service.ts:139-146 | right after a successful refreshToken, the snapshot cached under the user's name is exactly the user's stored row, since both carry the new token and the clock as update time |
| SessionProps.StoredRefreshTokenHasOneOwner | src/users/users.service.ts:68-75 | in a consistent table a stored refresh token is held by one row only, the row its userId claim names |
| SessionProps.LoginAnswersForItsUsername | src/auth/auth.service.ts:58-68 | in a consistent state the login candidate carries the username asked for and has a stored row, so a successful login echoes the username given |
| SessionProps.LogoutMissesEarlierTokens | src/auth/auth.service.ts:104-108 | a token issued in another second, such as the caller's own, is blacklisted after logout iff it was before |
| SessionProps.BlacklistOnlyGrows | src/auth/blacklisted-tokens.service.ts:6-16 | no session operation removes a token from the blacklist |
| Scenarios.RegisterTwiceConflicts | src/auth/auth.service.ts:36-40 | registering a username a second time is a Conflict that changes nothing |
| Scenarios.LoginAfterRegister | src/auth/auth.service.ts:43-76 | right after register, login at any later time accepts exactly the registered password and reports the creation time |
| Scenarios.StaleCacheKeepsOldPassword | src/users/users-me.service.ts:53-61 | after a password change, login keeps accepting the old password and refusing the new one until the register-time snapshot expires, then the reverse |
| Scenarios.RotatedRefreshTokenStillAccepted | src/auth/auth.service.ts:129-139 | a refresh token that was accepted is accepted again after its own rotation |
| Scenarios.LogoutDoesNotStopRefresh | src/auth/auth.service.ts:92-110 | a refresh token accepted before a logout, of any user, is accepted after it |
| Scenarios.RefreshReplayAfterRotation | src/auth/auth.service.ts:129-139 | after login and a refresh in a later second, no row stores the login's refresh token any more (so findUserByRefreshToken would refuse it), yet refreshToken accepts it again |
| Auth.AuthService.constructor | src/auth/auth.service.ts:27-32 | the service is wired to the given users, cache and blacklist services and token configuration, and starts Valid when those services are consistent with each other |
| Auth.AuthService.Register | src/auth/auth.service.ts:34-50 | the stepwise register leaves the services in Session.Register's state with its result, and keeps them consistent |
| Auth.AuthService.Login | src/auth/auth.service.ts:52-90 | the stepwise login leaves the services in Session.Login's state with its result, and keeps them consistent |
| Auth.AuthService.Logout | src/auth/auth.service.ts:92-110 | the stepwise logout, with its loop adding the tokens one at a time, leaves the services in Session.Logout's state, and keeps them consistent |
| Auth.AuthService.RefreshToken | src/auth/auth.service.ts:112-149 | the stepwise refreshToken leaves the services in Session.RefreshToken's state with its result, and keeps them consistent |

## Left out

- The HTTP layer is not part of this model: controllers, guards, DTO wiring, Swagger schemas and module wiring. Validation is modelled as functions; the model does not enforce it in front of the services.
- `async`/`await` and the transactions around the token writes are not modelled. Each service call is one atomic, sequential step, so races between the cache and the table are not modelled.
- Timers are not modelled: the hourly `setTimeout` chain in CacheService is replaced by an explicit `FlushAll`. Clocks are parameters.
- Logging and metrics are not modelled: CustomLogger calls, performance measurement and floating point.
- Bcrypt.Hash: the digest keeps the password as its image, so it is not one-way. The 72-byte input limit of bcrypt is not modelled, and neither is the constant-time comparison.
- Bcrypt.CompareRejectsOther: holds because model digests never collide. bcryptjs hashes only the first 72 UTF-8 bytes, and RegisterDto sets no upper length, so two passwords sharing those bytes both verify.
- Scenarios.LoginAfterRegister: "exactly the registered password" rests on the same collision-free digests.
- Scenarios.StaleCacheKeepsOldPassword: "refusing the new one" rests on the same collision-free digests.
- Jwt.Sign: lifetimes are whole seconds. The source passes lifetime strings from the configuration (such as "15m"), and their parsing is not modelled.
- Jwt.Decode: `exp` is never checked, by `jwt.decode` or by the services. The only custom claims are `userId` and `username`; `iat` and `exp` are the ones `jwt.sign` adds.
- Users.Save: an id not in the table is inserted with that id, and the counter moves past it. The database's serial sequence would behave differently. No caller in the core saves an unknown id.
- Users.WithRefreshToken: the database's `CURRENT_TIMESTAMP`, which the ORM writes to `updated_at` on every query-builder update, is taken to be the clock parameter. The model keeps no separate database time.
- Users.Create: the ORM fills `created_at` and `updated_at` from the clock parameter. The model keeps no separate database time.
- NodeCache.Get: node-cache's cloning of values is not modelled. Its lazy deletion of expired keys on read is not visible, so it is not modelled either.
- NodeCache.Put: the special meaning of a ttl of 0 ("never expires") is not modelled. No caller passes 0: CacheService replaces it with the fallback, and UserCacheService always uses its default.
- Cache.MsToNextHour: the local time zone is assumed to be a whole number of hours from UTC, with no daylight-saving jumps.
- Cache.CacheService.Set: only string keys and integer ttl seconds are modelled.
- UserCache.GenerateCacheKey: only string keys are modelled. Every caller in the core passes a username.
- Dtos.RegisterDtoErrors: a JavaScript string holding an unpaired surrogate has no counterpart here, because a Dafny `char` is a Unicode scalar value. The `IsString` checks are not modelled, since types guarantee them.
- Dtos.UpdateUserDtoErrors: unpaired surrogates are left out, as for RegisterDto.
- Session.Login: the `IsString`-only LoginDto, RefreshTokenDto and LogoutDto are not modelled; their fields are typed parameters.
- Session.RefreshToken: the `catch` around `jwt.decode` is folded into the "does not decode" case. A decode failure and a null payload give the same error.
- Replay protection, a blacklist check on refresh, blacklisting of the caller's own token, blacklist eviction and cache invalidation on profile update are not modelled, because the code does none of them. The scenarios above state the consequences.
