# Two-factor authentication controller: a Dafny model

This project models the user controller of a small Node/Express service. The
service adds TOTP two-factor authentication (2FA) on top of a plain
email/password login. The controller has five request handlers:

- `login`
- `getUser`
- `logout`
- `get2FA_QRCode`, which issues the user's TOTP secret and returns it as a QR code
- `setup2FA`, which checks a submitted one-time token and turns 2FA on

Every handler works over three document collections: users, 2FA secrets and
user sessions. It checks its guards in a fixed order and answers with a status
code (200, 404 or 406). Then it either leaves the store untouched or makes one
precise update.

In the model:

- Each collection is a sequence of immutable documents in insertion order
  (`Documents.Db`).
- A `findOne` query returns the first matching document (`Collections.FindFirst`).
- Each handler is a pure function from a store to a new store and a
  `Http.Response` (`UserController`).
- `StateMachine` runs arbitrary sequences of requests. It proves the invariants
  the store keeps along the way: a unique `_id` per user, at most one secret
  per user, every secret owned by an existing user, and no verified session
  without an issued secret and `require_2fa` turned on.

Collaborators whose internals are not part of the controller are parameters:

- `pick`: the public projection of a user record (`pickUser`). It yields a
  `Http.UserView`, a JSON object given as its fields.
- `verify`: the TOTP check `authenticator.verify` of a token against a secret.
  The library reads the clock itself, so the model passes that clock reading
  (`verifyTime`) as an argument.
- `keyUri`: the provisioning URI builder `authenticator.keyuri`.
- `toDataUrl`: the QR-code renderer `qrcode.toDataURL`.
- The value `authenticator.generateSecret()` yields.
- The `device_id` of a new session and its `last_login` clock reading
  (`loginTime`). The handler reads the clock again after the TOTP check, so
  `loginTime` is a separate parameter from `verifyTime`, and the model assumes
  no relation between the two.

This version of the controller does less than a complete per-device 2FA flow
would, and the model follows the code as written:

- This version of `login` creates no session.
- `logout` deletes nothing.
- `getUser` returns no session data.
- There is no `verify2FA` handler.
- Each successful `setup2FA` inserts a new session row whose device key is
  derived from a timestamp. It does not upsert on a stable (user, device) key,
  so the model proves no uniqueness of sessions.
- Secret issuance is an unsynchronised check-then-insert. The model is
  sequential, so it proves "at most one secret per user" only for
  one-request-at-a-time execution.

## Model

| member | source | states |
|---|---|---|
| Collections.FindFirst | node-api/src/controllers/userController.js:16 | `findOne` answers with the position of the first document matching the query, and with nothing exactly when no document matches |
| Documents.UserByEmail | node-api/src/controllers/userController.js:16 | the email lookup of login finds the first user with that email, and finds none exactly when no user has it |
| Documents.UserById | node-api/src/controllers/userController.js:36 | the `_id` lookup shared by the other four handlers finds the first user with that id, and finds none exactly when no user has it |
| Documents.SecretOf | node-api/src/controllers/userController.js:74 | the secret lookup by `user_id` finds the first secret of that user, and finds none exactly when the user has no secret |
| UserController.Login | node-api/src/controllers/userController.js:14-32 | login never writes to any collection; it answers 404 exactly when no user has the email; otherwise it answers 200 with the picked user when the submitted password equals that user's, and 406 "Wrong password!" when it does not |
| ControllerProperties.LoginAcceptsExactlyStoredCredentials | node-api/src/controllers/userController.js:16-28 | with unique emails, login succeeds exactly when some stored user has both the submitted email and the submitted password |
| UserController.GetUser | node-api/src/controllers/userController.js:34-46 | getUser is read-only; it answers 404 exactly when no user has the id, and otherwise 200 with that user's picked view |
| UserController.Logout | node-api/src/controllers/userController.js:48-62 | logout is read-only and deletes no session; it answers 404 exactly when no user has the id, and otherwise 200 with `loggedOut: true` |
| UserController.Get2FAQRCode | node-api/src/controllers/userController.js:64-93 | QR-code issuance never touches users or sessions; it answers 404 with no change exactly for an unknown user; it reuses an existing secret and inserts exactly `{user_id, generated value}` when there is none; the QR code always encodes the user's email, the service label and the secret the store then holds for the user |
| ControllerProperties.IssuanceIsIdempotent | node-api/src/controllers/userController.js:72-89 | a second issuance right after a first changes nothing and answers with the same QR code, whatever value the generator would produce |
| ControllerProperties.FirstIssuanceCreatesExactlyOne | node-api/src/controllers/userController.js:74-79 | a user with no secret owns exactly one after issuance, and every other user's count of secrets is unchanged |
| ControllerProperties.IssuanceKeepsOneSecretPerUser | node-api/src/controllers/userController.js:74-82 | issuance keeps "no two secrets share a `user_id`" |
| UserController.Setup2FA | node-api/src/controllers/userController.js:95-151 | the guards apply in order: unknown user gives 404, then a missing secret gives 404 whatever the token, then an absent or empty token gives 406, then a token the verifier rejects against the user's secret gives 406; each error leaves the store unchanged; it succeeds exactly when every guard passes; on success `require_2fa` is turned on for that user only, secrets are unchanged, exactly one session `{user_id, device_id, is_2fa_verified: true, last_login}` is appended with the login clock reading, and the answer is the updated user's view with that session's flag and time; the token check sees its own clock reading |
| ControllerProperties.SetupTouchesOnlyThatUser | node-api/src/controllers/userController.js:124-128 | under the unique `_id` index, a successful setup turns the flag on for the document with that id and leaves every other user document as it was |
| ControllerProperties.SetupBeforeIssuanceIsNotFound | node-api/src/controllers/userController.js:104-114 | without an issued secret, setup answers 404 and changes nothing, even with an empty or absent token; for a known user the message is "2FA secret key not found!" |
| ControllerProperties.IssueThenSetupEnablesTwoFactor | node-api/src/controllers/userController.js:72-146 | issuing a secret and then submitting a non-empty token the verifier accepts for it succeeds: the user has `require_2fa` on and exactly one verified session, stamped with the login clock reading, is appended |
| Documents.SecretCountAppend | node-api/src/controllers/userController.js:77 | inserting a secret raises its owner's count of secrets by one and leaves every other user's count unchanged |
| Documents.SecretCountZero | node-api/src/controllers/userController.js:74-75 | a user's count of secrets is zero exactly when the user owns no secret |
| Documents.AtMostOneSecretCount | node-api/src/controllers/userController.js:74-79 | "no two secrets share a `user_id`" bounds every user's count of secrets by one |
| Documents.SharedOwnerCountsTwice | node-api/src/controllers/userController.js:74-79 | two secrets with the same `user_id` give that user a count of at least two |
| Documents.AtMostOneSecretIffCounts | node-api/src/controllers/userController.js:74-79 | the pairwise form and the counting form of "at most one secret per user" are equivalent, in both directions |
| StateMachine.OnlyRaisedKeepsUsers | node-api/src/controllers/userController.js:124-128 | a store change that at most turns `require_2fa` on keeps ids unique, keeps every user and keeps every flag that was on |
| StateMachine.StepEvolves | node-api/src/controllers/userController.js:14-151 | every handler only appends to the secret and session collections and only turns `require_2fa` on; it never adds, removes or otherwise edits a user |
| StateMachine.IssuanceKeepsValid | node-api/src/controllers/userController.js:64-93 | QR-code issuance keeps the store invariant: the one secret it may insert belongs to an existing user who had none |
| StateMachine.SetupKeepsValid | node-api/src/controllers/userController.js:95-151 | setup keeps the store invariant: the verified session it inserts is backed by the secret its guard found and by the `require_2fa` flag it turns on |
| StateMachine.StepKeepsValid | node-api/src/controllers/userController.js:14-151 | every handler keeps unique user ids, at most one secret per user, secrets owned by existing users, and each verified session backed by an issued secret and a user with `require_2fa` on |
| StateMachine.RunKeepsValid | node-api/src/controllers/userController.js:14-151 | any sequence of requests keeps that invariant |
| StateMachine.RunEvolves | node-api/src/controllers/userController.js:14-151 | across any sequence of requests, secrets and sessions only grow by appending and `require_2fa` only goes from off to on |
| StateMachine.IssuedSecretIsPermanent | node-api/src/controllers/userController.js:72-82 | once a user has a secret, every later lookup finds that same secret document: it is never replaced or rotated |
| StateMachine.VerificationIsPermanent | node-api/src/controllers/userController.js:48-62 | no request sequence deletes a session (logout deletes nothing) or turns `require_2fa` off |

## Left out

- Storage I/O: nedb persistence, the database file paths and `compactDatafileAsync` are left out. The collections are in-memory sequences.
- The `catch` branches answering 500 are left out. They only wrap failures of the store or of the libraries, which the model does not have.
- TOTP is left out. `authenticator.verify` (HMAC and time window), `authenticator.generateSecret`, `authenticator.keyuri` and `qrcode.toDataURL` are parameters.
- `pickUser` is an abstract projection `pick`, because its definition is not part of this model.
- The `device_id` construction from user agent and timestamp is left out. It is an opaque parameter.
- Concurrency is left out. Handlers run one at a time. The check-then-insert race in secret issuance, which could create two secrets for one user, is not modelled.
- The order of `findOne` results is fixed as insertion order. nedb leaves the order among several matches unspecified. This matters for lookups that can match several documents: email lookups, and secret lookups by `user_id` in a store that already holds two secrets for one user (which the issuance race can create). Lookups by `_id` match at most one document, because `_id` is unique.
- Request values are typed: the email is a string, and the password and the OTP token are an optional string. A missing email, non-string JSON values, and JavaScript falsiness of values other than `undefined` and `""` are not modelled.
- The `_id` that the store assigns to each inserted secret and session is not modelled, because no handler reads it.
- The Express routing is left out. It also does not route `setup2FA` at all.
