# Access-token ledger of the cafe catalogue's authentication controller

This project models the token ledger kept by `AuthenticationController` in the
cafe-catalogue service, and proves what the controller's code guarantees about it.

The ledger is a table of access-token rows. Each row holds an id, the owning user,
the signed token string and two flags, `revoked` and `expired`. A row is live when
neither flag is set. The controller does three things with it:

- `login` revokes every live row of the user, then mints an access token and saves it
  as a new live row. It also mints a refresh token, which is never saved.
- `refreshToken` checks the refresh token it was given. If it is valid, it runs the
  same revoke-then-issue steps and sends back the same refresh token. If it is not
  valid, it leaves the ledger alone and sends a `null` body with status 200.
- The helpers: `getToken` mints a token and saves it only when it is an access token.
  `revokeAllUserTokens` loads the user's live rows, sets both flags on each one, and
  saves the batch, but only if the batch is not empty.

Files:

- `tokens.dfy` (module `Tokens`) defines the `Token` row and the pure functions on a
  ledger snapshot. `ValidTokens` is what `findAllValidTokensByUser` returns.
  `RevokeAll` is the ledger after a user's live rows are revoked.
- `ledger.dfy` (module `TokenStore`) holds the class `TokenService`. It has a `seq<Token>`
  field and the methods `Save`, `SaveAll` and `FindAllValidTokensByUser`; `SaveAll`
  and `FindAllValidTokensByUser` are written with loops.
- `auth.dfy` (module `Authentication`) holds the class `AuthenticationController`. Its
  methods `GetToken`, `RevokeAllUserTokens`, `Login` and `RefreshToken` follow the
  Java steps one by one. `AfterLogin` specifies the ledger after a login. The lemmas
  about it carry the invariants.

Inputs the model receives instead of computing them:

- The JWT codec (`JwtTokenProvider`) is not part of this model. The strings it mints
  are passed in (`mintedAccess`, `mintedRefresh`), and so is its verdict on a refresh
  token (`refreshValid`).
- The user lookup is passed in as an `Option<UserId>`. On login this is
  `authenticationService.login`; on refresh it is `getUsername` plus
  `findByEmail(...).orElseThrow()`. `None` stands for the exception these throw. That
  exception comes before the ledger is touched, so the model returns
  `AuthenticationFailed` or `UserNotFound` and leaves the ledger unchanged.
- The token store's implementation (`TokenService`) is not part of this model. It is
  modelled as a table whose ids are given out in insertion order, so the row with
  id i sits at position i. `save` inserts a row. `saveAll` writes each row back over
  the row with the same id. `findAllValidTokensByUser(id)` returns that user's rows
  with `revoked = false` and `expired = false`, in table order.

## Model

| member | source | states |
|---|---|---|
| Tokens.ValidTokens | src/main/java/mate/cafecatalog/controller/AuthenticationController.java:96 | the lookup returns exactly the user's rows with both flags false (a row is in the result iff it is in the ledger and live for that user), and no more rows than the ledger has |
| Tokens.ValidTokensEmpty | src/main/java/mate/cafecatalog/controller/AuthenticationController.java:96-97 | the lookup is empty iff no row of the ledger is live for the user |
| Tokens.Revoke | src/main/java/mate/cafecatalog/controller/AuthenticationController.java:99-100 | a revoked row has both `revoked` and `expired` set, is no longer live, and keeps its id, owner and string |
| Tokens.RevokeEach | src/main/java/mate/cafecatalog/controller/AuthenticationController.java:98-101 | the `forEach` yields the same rows in the same order, each with both flags set and its id, owner and string kept |
| Tokens.RevokeAll | src/main/java/mate/cafecatalog/controller/AuthenticationController.java:95-104 | revoking keeps the length and each row's id, owner and string (no row is deleted or moved); every row that was live for the user gets `revoked` and `expired` set; every other row (other users, already revoked) is unchanged |
| Tokens.RevokeAllValidTokens | src/main/java/mate/cafecatalog/controller/AuthenticationController.java:95-104 | after revoking, the user has no live row, and each other user has the same live rows as before |
| Tokens.RevokeAllNoop | src/main/java/mate/cafecatalog/controller/AuthenticationController.java:97 | when the user has no live row, revoking leaves the ledger unchanged |
| Tokens.RevokeAllIdempotent | src/main/java/mate/cafecatalog/controller/AuthenticationController.java:95-104 | revoking twice gives the same ledger as revoking once |
| TokenStore.WriteBack | src/main/java/mate/cafecatalog/controller/AuthenticationController.java:102 | writing a batch back keeps the table's length |
| TokenStore.WriteBackAt | src/main/java/mate/cafecatalog/controller/AuthenticationController.java:102 | for a batch whose rows agree on each id, every batch row ends up at its id and every row not named by the batch is untouched |
| TokenStore.TokenService.Save | src/main/java/mate/cafecatalog/controller/AuthenticationController.java:90 | appends the row with the next id and returns it; the id invariant is kept |
| TokenStore.TokenService.SaveAll | src/main/java/mate/cafecatalog/controller/AuthenticationController.java:102 | the table becomes the batch written back by id, in order; the id invariant is kept |
| TokenStore.TokenService.FindAllValidTokensByUser | src/main/java/mate/cafecatalog/controller/AuthenticationController.java:96 | the loop returns `ValidTokens` of the table, so the user's live rows in table order |
| Authentication.AccessRow | src/main/java/mate/cafecatalog/controller/AuthenticationController.java:84-90 | the row saved for an access token has the next id, carries the minted string, belongs to the user and is live (`expired = revoked = false`) |
| Authentication.AfterLogin | src/main/java/mate/cafecatalog/controller/AuthenticationController.java:52-53 | the ledger after a login has exactly one more row; the new last row has the next id, carries the access token and is live for the user; the store's ids-are-positions invariant is kept |
| Authentication.RevokeBatchWriteBack | src/main/java/mate/cafecatalog/controller/AuthenticationController.java:96-102 | loading the live rows, revoking each copy and writing the batch back by id gives the same ledger as revoking the live rows in place |
| Authentication.LoginLeavesSingleLiveToken | src/main/java/mate/cafecatalog/controller/AuthenticationController.java:52-53 | a login grows the ledger by exactly one row, and afterwards the user's live rows are exactly one: the access token just issued, with the next id and both flags false |
| Authentication.LoginKeepsOtherUsers | src/main/java/mate/cafecatalog/controller/AuthenticationController.java:52-54 | a login changes no row of another user, and leaves every other user's live rows as they were |
| Authentication.LoginStoresNoRefreshToken | src/main/java/mate/cafecatalog/controller/AuthenticationController.java:53-54 | no row that a login adds or changes carries the refresh token, unless the refresh token equals the access token |
| Authentication.LoginPreservesAtMostOneLive | src/main/java/mate/cafecatalog/controller/AuthenticationController.java:52-54 | if no user held more than one live row before a login, none does after it |
| Authentication.SecondLoginRevokesFirst | src/main/java/mate/cafecatalog/controller/AuthenticationController.java:46-59 | after two logins of the same user, the first access row is revoked and expired, and the second access token is that user's only live row |
| Authentication.AuthenticationController.GetToken | src/main/java/mate/cafecatalog/controller/AuthenticationController.java:77-93 | returns the minted token; a refresh token leaves the ledger unchanged; an access token appends exactly one row for the user, with that string and `expired = revoked = false` |
| Authentication.AuthenticationController.RevokeAllUserTokens | src/main/java/mate/cafecatalog/controller/AuthenticationController.java:95-104 | the ledger becomes `RevokeAll` of the old ledger; the user has no live row afterwards; when the user had none, nothing changes |
| Authentication.AuthenticationController.Login | src/main/java/mate/cafecatalog/controller/AuthenticationController.java:46-59 | a failed authentication leaves the ledger unchanged; otherwise the response carries the user and both minted tokens, the ledger becomes `AfterLogin`, and the user's only live row is the new access token |
| Authentication.AuthenticationController.RefreshToken | src/main/java/mate/cafecatalog/controller/AuthenticationController.java:61-75 | a failed user lookup, or a refresh token that does not validate (empty body), leaves the ledger unchanged; a valid one gives back the same refresh token with the new access token, the ledger becomes `AfterLogin`, and the new access token is the user's only live row |

## Left out

- The JWT codec (`createToken`, `resolveToken`, `getUsername`, `validateRefreshToken`) is not modelled. Its outputs are inputs here, so two logins in the model may be given equal strings. Nothing in the controller rules out two equal strings. The proved properties hold either way.
- `authenticationService.login` and `register` are not part of this model. They do password hashing and user storage. The model only takes the user id they resolve, or their failure.
- `register` issues no token and does not touch the ledger, so it is not modelled.
- The HTTP and DTO wrapping (`ResponseEntity`, `HttpServletRequest`, `userMapper.mapToLoginResponseInfo`) is reduced to a `LoginResponse` value. It holds the user id and the two token strings.
- The store's `expired` flag is only ever set by revocation in this code. Clock-based expiry is done by the codec and does not appear in the ledger.
- A unique constraint on token strings is not modelled, in case the `Token` entity declares one.
- Login, RefreshToken: every store call is assumed to succeed. The controller calls `revokeAllUserTokens` and then `tokenService.save` as two separate store calls, with no transaction around them. If `save` threw, the user's live rows would already be revoked and no new row would exist. The model does not capture that state.
- Concurrency is not modelled. Requests run one at a time, so this model cannot show what happens when two logins of the same user interleave.
- Entities are copied, not shared. Java's `forEach` mutates the entity objects the store handed out, then `saveAll` persists them. The model copies the rows, revokes the copies, then writes them back by id. Both leave the same table.
