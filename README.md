# OTP registration flow: a Dafny model

This project models the authentication controller of a coaching-platform
backend. The platform provisions users ahead of time. Each user is identified
by a `uniqueId`. To register, a user:

1. passes the check-user gate,
2. receives a six-character one-time code (OTP) by email,
3. has the code verified, and
4. sets a password.

After that the user logs in with `uniqueId` and password and receives a signed
bearer token.

The model has these parts:

- `Records` (records.dfy): the user record, the record store (a map from
  `uniqueId` to record), and the two in-place updates made to a record.
  `Issue` stores a code with a five-minute expiry. `Register` binds a
  password digest and clears the code slot.
- `Mail` (mail.dfy): the email helper `sendEmail`. It checks its settings in
  order, then calls the provider. It returns a boolean and never throws.
- `Handlers` (handlers.dfy): the six handlers.
  - `checkUser`, `verifyOtp`, `loginUser` and `testEmailConfig` are pure
    functions that return a `Reply`. `Reply.Status()` is the HTTP status.
  - `sendOtp` and `setPassword` write the store. Each is a method on the
    `UserStore` class, which holds the map. Each method is proved against
    the pure transition function `SendOtpStep` / `SetPasswordStep`.
- `Protocol` (protocol.dfy): the store as a state machine over any sequence of
  store-writing requests. Proved by induction:
  - registration never reverts;
  - provisioned fields never change;
  - the record invariants are preserved;
  - the last write to the code slot wins, so a code verifies exactly when it
    is the most recently stored code and has not expired.
- `Properties` (properties.dfy): how one handler's effect shows up in the next
  handler's answer, and the end-to-end registration scenario on concrete
  records.

Oracles and I/O are parameters:

| oracle or I/O | parameter |
|---|---|
| clock | `now`, an integer in milliseconds |
| code generator | `code: OtpCode`, a string of six digits or lower-case letters |
| salt generator | `salt` |
| bcrypt hash | `hash: (string, string) -> string` |
| bcrypt compare | `compare: (string, string) -> bool` |
| provider's answer to the send call | `providerOk` |
| users-table existence query | `tableExists` |
| environment variables | `MailConfig`, `jwtSecret`; an unset variable is the empty string |

## Behaviour worth noting

- `loginUser` answers 500 for a record with no digest. `bcrypt.compare` rejects
  a null hash at src/controllers/authController.js:325, and the catch at
  :344-345 answers 500 (`LoginUser`, `Properties.LoginBeforeRegistration`).
- `sendOtp` never reads `isRegistered` (src/controllers/authController.js:139-164).
  A registered user can get a code, and that code verifies
  (`Properties.RegisteredUserCanGetCode`).
- `setPassword` checks only that the record exists
  (src/controllers/authController.js:233). It rebinds the digest of an
  already registered user (`Properties.SetPasswordRebindsDigest`).
- The code generator is called with only upper-case letters and special
  characters switched off (src/controllers/authController.js:157-160). A code
  is therefore six digits or lower-case letters.
- `verifyOtp` compares with strict inequality at
  src/controllers/authController.js:216, so a JSON `null` code matches a
  cleared slot. The null expiry at :217 then compares as time 0, so the answer
  is "expired" at every positive time (`Properties.ClearedSlotVerifiesNoCode`).

## Model

| member | source | states |
|---|---|---|
| `Records.Issue` | src/controllers/authController.js:162-163 | the slot holds the new code and expires at now + 300000 ms; the identity, email, registration flag and digest are unchanged |
| `Records.Register` | src/controllers/authController.js:236-239 | the record is registered with the given digest and its code and expiry are null; provisioned fields are unchanged |
| `Mail.SenderName` | src/controllers/authController.js:53-56 | the sender name is MAIL_FROM_NAME when set, else "DCS Coaching" |
| `Mail.SendEmail` | src/controllers/authController.js:26-81 | true exactly when the API key is set, MAIL_FROM and the recipient contain '@', and the provider accepts; each refusal reason holds exactly when the earlier checks passed and its own failed; a provider call carries the configured sender, recipient, subject and body |
| `Handlers.CheckUser` | src/controllers/authController.js:97-123 | 500 exactly when the table is missing, whatever the store; 404 exactly when absent; 400 exactly when registered; 200 otherwise, with the stored email |
| `Handlers.SendOtpStep` | src/controllers/authController.js:139-197 | 400 for an empty id, then 404, then 400 for no email; each of these leaves the store unchanged and invokes no email; otherwise only that record's slot is replaced, the email helper gets the user's address and the code, and the reply is 200 with the email exactly when the helper sent, else 500 |
| `Handlers.UserStore.SendOtp` | src/controllers/authController.js:135-207 | the reply, the new store and the email outcome are those of `SendOtpStep` on the old store |
| `Handlers.VerifyOtp` | src/controllers/authController.js:213-220 | 404 exactly when absent; Invalid exactly when the code differs, at any time; Expired exactly when it matches and now is past the expiry; 200 exactly when it matches and now is at or before the expiry |
| `Handlers.SetPasswordStep` | src/controllers/authController.js:233-243 | 404 with the store unchanged when absent; otherwise 200, and only that record is replaced, by `Register` with the hash of password and salt; the slot is not consulted |
| `Handlers.UserStore.SetPassword` | src/controllers/authController.js:228-248 | the reply and the new store are those of `SetPasswordStep` on the old store |
| `Handlers.TestEmailConfig` | src/controllers/authController.js:260-305 | missing API key, then missing MAIL_FROM, then MAIL_FROM without '@', each exactly under its condition and before any email; otherwise a test email to MAIL_FROM; ready exactly when the configuration is complete and the provider accepts |
| `Handlers.LoginUser` | src/controllers/authController.js:323-342 | 404 exactly when absent; 401 exactly when a digest exists and the comparison rejects; 500 exactly when there is no digest, or when the comparison accepts but no signing secret is set; success exactly when the comparison accepts and a secret is set, with payload exactly {id, uniqueId}, a 7200-second lifetime and profile {uniqueId, fullName} |
| `Protocol.Apply` | src/routes/authRoutes.js:13-15 | one store-writing request keeps the key set, every record's provisioned fields and every registration |
| `Protocol.Run` | src/routes/authRoutes.js:12-17 | handling any sequence of requests neither creates nor deletes a record |
| `Protocol.RunKeepsRegistration` | src/controllers/authController.js:237 | once registered, a record stays registered after any sequence of requests |
| `Protocol.RegisteredStaysRefused` | src/controllers/authController.js:120-121 | once registered, check-user answers already registered after any sequence of requests |
| `Protocol.RunKeepsProvisioning` | src/controllers/authController.js:162-163 | id, uniqueId, email and full name are never written by any sequence of requests |
| `Protocol.ApplyPreservesConsistency` | src/controllers/authController.js:236-239 | one request keeps every record under its key, code set exactly when expiry set, and registered exactly when a digest is held |
| `Protocol.RunPreservesConsistency` | src/controllers/authController.js:162-164 | any sequence of requests keeps those record invariants |
| `Protocol.LatestWriteWins` | src/controllers/authController.js:162-164 | after any sequence of requests the slot is the one the latest writing request left, read backwards from the end |
| `Protocol.VerifyIffLatestIssued` | src/controllers/authController.js:216-218 | a submitted code verifies exactly when it is the latest stored code and its expiry has not passed |
| `Protocol.LatestSlotIssued` | src/controllers/authController.js:162-163 | from a record with no code, a code in the latest slot was written by a sendOtp request for that identity, with expiry that request's now + 300000 |
| `Protocol.OnlyIssuedCodesVerify` | src/controllers/authController.js:157-164 | from a record with no code, a verified code was stored by some sendOtp request for that identity at most 300000 ms earlier |
| `Properties.VerifyAfterIssue` | src/controllers/authController.js:216-218 | right after an issue, a string verifies exactly when it is the code and at most five minutes have passed; any other string is Invalid; the code is Expired after that |
| `Properties.ReissueInvalidatesPrevious` | src/controllers/authController.js:162-164 | after two issues with different codes the first code is Invalid at any time |
| `Properties.FailedDeliveryKeepsCode` | src/controllers/authController.js:164-192 | a failed delivery answers 500 but the new code and expiry stay stored; a retry replaces the code |
| `Properties.AddresslessEmailStoresCode` | src/controllers/authController.js:150-174 | an email without '@' passes sendOtp's guard, so the code is stored, and the helper then refuses the recipient |
| `Properties.RegisteredUserCanGetCode` | src/controllers/authController.js:143-164 | sendOtp issues a verifiable code to a registered user |
| `Properties.ClearedSlotVerifiesNoCode` | src/controllers/authController.js:238-239 | after setPassword no string code verifies, a missing code is Invalid, and a null code is Expired at every positive time |
| `Properties.SetPasswordIgnoresSlot` | src/controllers/authController.js:233-241 | setPassword's reply and effect do not depend on what the slot held |
| `Properties.SetPasswordClosesGate` | src/controllers/authController.js:120-121 | after setPassword check-user answers already registered |
| `Properties.SetPasswordRebindsDigest` | src/controllers/authController.js:233-237 | setPassword on a registered record succeeds and rebinds the digest |
| `Properties.LoginAfterSetPassword` | src/controllers/authController.js:325-333 | after setPassword, login succeeds with the {id, uniqueId} payload exactly when the comparison accepts the attempt against the new digest, and answers 401 otherwise |
| `Properties.LoginBeforeRegistration` | src/controllers/authController.js:325 | an unregistered record has no digest, and login answers 500 |
| `Properties.ScenarioRegistration` | src/controllers/authController.js:84-243 | check gives the email, send stores the code with expiry now + 300000 and mails "OTP Verification", the right code verifies, a wrong one is Invalid, 301 s later it is Expired, and setPassword registers and clears the slot |
| `Properties.ScenarioUnknownIdentity` | src/controllers/authController.js:143-147 | sendOtp for an unknown identity answers 404 and attempts no email |

## Left out

- The database: the Sequelize queries, `save()` and the `information_schema` table-existence query are not modelled. The store is a map. Table existence is the boolean `tableExists`.
- Exceptions thrown by the database, the login handler's dynamic import of the token library, and the debug bodies that catch blocks build are not modelled. The one exception path modelled is the digest comparison throwing on a null digest (and the signer throwing with no secret), as the 500 `ServerError`.
- Request bodies: a missing `uniqueId` is the empty string. Only sendOtp checks for it; the other handlers look the empty string up. The query library's rejection of an undefined value is not modelled. A missing `password` is not modelled: password is always a string. JSON numbers submitted as the code are not modelled.
- The code generator's randomness, bcrypt's salt and hash and compare, and JWT signing are foreign. They are parameters: `code`, `salt`, `hash`, `compare`. The token is represented by what is handed to the signer.
- The provider call and its error logging, the startup warnings, the console output, the environment-check JSON bodies and the `NODE_ENV` stack-trace gating are not modelled. They are I/O or presentation. The 404 debug body of checkUser (its user count) is presentation too.
- The database diagnostic endpoint (src/controllers/dbController.js) is not modelled. It is made of database queries.
- The route wiring and the mailer and database client configuration files are not modelled. They are framework setup.
- Concurrency: requests are handled one after another. Interleaved read-modify-write races between concurrent requests are not modelled.
- `Protocol.Run`: it takes only the two store-writing requests, because the other handlers are functions of the store and cannot change it.
