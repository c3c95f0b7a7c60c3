# TaskFlow backend: authentication core and task/user handlers

A Dafny model of the decision logic of a small Spring Boot task backend:

- **JwtService** (`jwt_service.dfy`): issuing a bearer token (subject = email when it has text,
  `iat` = now, `exp` = now + 86 400 000 ms, signed with the service key), and
  the three readers `extractEmail`, `isTokenValid` and `extractClaim`/
  `extractExpiration`. The first two turn every parse failure into null or
  false; the last two let it through.
- **JwtAuthenticationFilter** (`jwt_filter.dfy`): the per-request pass over the
  path, the `Authorization` header, the token, the user store and the
  security context's authentication slot. Requests under `/api/auth/` skip it.
  A header that is missing or does not start with `"Bearer "` is forwarded
  anonymously, and so is an invalid token, a blank subject or an unknown
  email. Otherwise the slot is filled with a `ROLE_USER` authentication of
  the stored user, but only if the slot was empty. The request is forwarded
  exactly once.
- **TaskController** (`task_controller.dfy`): `getCurrentUser` and the
  ownership-guarded list/create/update/delete over the task table.
- **AuthController** (`auth_controller.dfy`): signup with email normalisation
  (`trim` then `toLowerCase`), and login with the checks in a fixed order:
  email, then password, then user lookup, then password match.
- **UserController** (`user_controller.dfy`): reading the profile, and
  renaming it (only `name` is taken from the request body).

Supporting modules: `wrappers.dfy` (Option for Java's null, Result for a
thrown exception), `java_strings.dfy` (`trim`, `isEmpty`, `startsWith`,
ASCII `toLowerCase`), `entities.dfy` (`User`, `Task`), `repositories.dfy`
(the two tables as maps with an IDENTITY counter, and the unique email
column), `security.dfy` (Spring's `Authentication` and principal).

Foreign code is kept abstract. The jjwt library is a parameter
`Jjwt(compact, parse)`; a parsed token is `Signed(claims, key)`,
`Unsigned(claims)` or `Garbage`. `Lawful(lib)` says that `parse` reads back
what `compact` wrote and that `compact` never writes a blank string or one
without text. Before decoding, jjwt's parser rejects a token that has no
text (IllegalArgument), as `Strings.hasText` decides. Signature verification succeeds exactly when the signing key is the
service's `SECRET`. The password encoder is a parameter
`PasswordEncoder(encode, matches)`. `Sound(enc)` says that every encoding
matches the password it was made from. The clock is a `now` parameter in
milliseconds.

Three details of the code decide edge cases:

- Token expiry. jjwt rejects a token only once now > `exp`, while
  `isTokenValid` needs `exp` > now. So at the expiry instant `extractEmail`
  still returns the subject but `isTokenValid` is false
  (`JwtService.AtExpiryInstant`).
- Blank subjects. The filter, not the store lookup, drops blank subjects.
  jjwt's builder writes no `sub` at all for an email without text
  (`Strings.hasText`, which uses `Character.isWhitespace`), so the token
  signup issues for a blank email carries no subject
  (`JwtService.TokenSubject`, `AuthController.BlankEmailTokenIdentifiesNobody`).
- Unreachable accounts. Signup checks neither blankness nor emptiness, so it
  stores a blank email as `""` and accepts the password `""`. With the
  account's own credentials, login stops at "Email is required" (blank
  email) or "Password is required" (password `""`). A blank-email account
  can never log in (`AuthController.BlankEmailAccountUnreachable`). A
  `""`-password account can log in only if some other password matches the
  encoding of `""`, which a real password hasher rules out
  (`AuthController.EmptyPasswordAccountUnreachable`).

## Model

| member | source | states |
|---|---|---|
| `JavaStrings.TrimEmptyIffBlank` | src/main/java/com/internship/app/config/JwtService.java:31 | `s.trim().isEmpty()` holds exactly when every character of `s` is at or below U+0020 |
| `JavaStrings.HasTextAndBlank` | src/main/java/com/internship/app/config/JwtService.java:21-31 | `hasText` and `trim().isEmpty()` are different tests: `""` fails one and passes the other, U+3000 is kept by `trim` but has no text, and U+0000 is removed by `trim` but is text |
| `JavaStrings.Trim` | src/main/java/com/internship/app/controller/AuthController.java:28 | the trimmed string is the slice `s[a..b]` with every character before `a` and from `b` on at or below U+0020, and it neither starts nor ends with such a character; it is empty exactly when every input character is trimmable |
| `JavaStrings.ToLowerCase` | src/main/java/com/internship/app/controller/AuthController.java:28 | lower-casing keeps the length, turns each ASCII upper-case letter into the letter 32 code points above it, keeps every other character, leaves no upper-case letter and keeps which characters are trimmable |
| `Repositories.FindByEmail` | src/main/java/com/internship/app/config/JwtAuthenticationFilter.java:67 | `findByEmail` returns a stored row with exactly that email, and returns nothing exactly when no row holds it |
| `Repositories.FindByEmailAfterInsert` | src/main/java/com/internship/app/controller/AuthController.java:32 | storing a row with a new id and an unused email keeps emails unique, and `findByEmail` then returns that row |
| `Repositories.UserRepository.Insert` | src/main/java/com/internship/app/controller/AuthController.java:32 | saving a new user assigns the next id and changes nothing else; the unique email constraint rejects a second row with the same email and leaves the table as it was |
| `Repositories.UserRepository.Merge` | src/main/java/com/internship/app/controller/UserController.java:37 | saving a user with an id overwrites that row, or inserts under a fresh id when the row is gone; a save that would duplicate another row's email is rejected with the table unchanged |
| `JwtService.ParseClaimsJws` | src/main/java/com/internship/app/config/JwtService.java:36-40 | a token without text fails with IllegalArgument before anything else; then an unparsable token fails as malformed, an unsigned one as unsupported, one signed with another key as a bad signature, and one signed with the service key but past its `exp` as expired; parsing succeeds exactly for a token with text signed with the service key that is not past its `exp`, and then yields that token's claims |
| `JwtService.ExtractEmail` | src/main/java/com/internship/app/config/JwtService.java:29-62 | a null or blank token gives null before any parsing; otherwise the result is the subject of a successful parse, and every parse failure gives null |
| `JwtService.IsTokenValid` | src/main/java/com/internship/app/config/JwtService.java:65-81 | true only if `extractEmail` is non-null; true exactly for a non-blank token with text, signed with the service key, carrying a subject and an `exp` strictly after now; every failure, including a missing `exp`, gives false |
| `JwtService.ExtractClaim` | src/main/java/com/internship/app/config/JwtService.java:89-96 | no catch: a null token or a failed parse makes the call fail; on success the result is the resolver applied to the parsed claims |
| `JwtService.ExtractExpiration` | src/main/java/com/internship/app/config/JwtService.java:84-86 | succeeds exactly for a non-null token whose parse succeeds, and then yields its `exp` claim, possibly absent; otherwise fails with the parse error |
| `JwtService.TokenSubject` | src/main/java/com/internship/app/config/JwtService.java:21 | the builder writes `sub` exactly when the email has a character that is not Java whitespace, and then writes the email itself |
| `JwtService.GenerateToken` | src/main/java/com/internship/app/config/JwtService.java:19-25 | under a lawful jjwt, the token is non-blank and parses back to a service-signed token with that `sub`, `iat` = now and `exp` = now + 86 400 000 |
| `JwtService.GeneratedTokenClaims` | src/main/java/com/internship/app/config/JwtService.java:19-25 | a generated token is non-blank and parses to `sub` = the email when it has text (absent otherwise), `iat` = t0, `exp` = t0 + 86 400 000 until that instant, and fails as expired after it |
| `JwtService.ExtractEmailOfGenerated` | src/main/java/com/internship/app/config/JwtService.java:19-44 | round trip: up to the expiry instant, `extractEmail(generateToken(e))` is `e` when `e` has text and null otherwise |
| `JwtService.GeneratedTokenValidity` | src/main/java/com/internship/app/config/JwtService.java:65-76 | a generated token is valid exactly when the email has text and now < t0 + 24 h |
| `JwtService.AtExpiryInstant` | src/main/java/com/internship/app/config/JwtService.java:76 | at now == `exp`, `extractEmail` still returns the subject and `isTokenValid` is false |
| `JwtService.ForeignKeyRejected` | src/main/java/com/internship/app/config/JwtService.java:55-57 | a token with text signed with another key fails with a bad signature (one without text with IllegalArgument); `extractEmail` gives null, `isTokenValid` false, and `extractExpiration` fails with that same error |
| `JwtService.ReadersOnFailure` | src/main/java/com/internship/app/config/JwtService.java:84-96 | for any token whose parse fails, `extractEmail` swallows the failure into null and `isTokenValid` into false, while `extractExpiration` propagates the same error |
| `JwtFilter.BearerToken` | src/main/java/com/internship/app/config/JwtAuthenticationFilter.java:45-51 | a token is extracted exactly when the header is present and starts with `"Bearer "`, and the header is that prefix followed by the token |
| `JwtFilter.Identify` | src/main/java/com/internship/app/config/JwtAuthenticationFilter.java:34-70 | no user is identified under `/api/auth/` or without a Bearer header; an identified user is a stored row with a non-blank email |
| `JwtFilter.JwtAuthenticationFilter.DoFilterInternal` | src/main/java/com/internship/app/config/JwtAuthenticationFilter.java:28-87 | every path forwards exactly once; a previously empty slot gets the identified user as principal, null credentials and authorities exactly `["ROLE_USER"]`; otherwise the slot is unchanged, so an existing authentication is never overwritten |
| `Security.UserAuthentication` | src/main/java/com/internship/app/config/JwtAuthenticationFilter.java:71-73 | the authentication the filter builds has the user as principal, null credentials, exactly the authority `ROLE_USER`, and is marked authenticated |
| `JwtFilter.EmptyBearerIdentifiesNobody` | src/main/java/com/internship/app/config/JwtAuthenticationFilter.java:51 | the header `"Bearer "` yields the empty token, which identifies nobody |
| `JwtFilter.IdentifiedOnlyWith` | src/main/java/com/internship/app/config/JwtAuthenticationFilter.java:54-70 | an identified user implies a path off `/api/auth/`, a non-blank Bearer token signed with the service key with that user's email as subject and `exp` after now, a non-blank email and a stored row |
| `JwtFilter.IdentifiedWith` | src/main/java/com/internship/app/config/JwtAuthenticationFilter.java:62-75 | conversely, such a request identifies that stored user |
| `JwtFilter.GeneratedTokenIdentifies` | src/main/java/com/internship/app/config/JwtAuthenticationFilter.java:51-75 | on any protected path before expiry, `"Bearer " + generateToken(u.email)` identifies stored user `u` exactly when its email has text and is not blank, and identifies nobody otherwise |
| `TaskController.GetCurrentUser` | src/main/java/com/internship/app/controller/TaskController.java:107-118 | "No authenticated user" exactly when the slot is empty or unauthenticated; "Invalid user principal" exactly when the principal is not a User; success exactly for an authenticated User principal, which it returns |
| `TaskController.GetTasks` | src/main/java/com/internship/app/controller/TaskController.java:29-46 | after the current-user check, the result holds exactly the tasks whose owner is the current user, each with its own id, title, description and completed flag |
| `TaskController.TasksOf` | src/main/java/com/internship/app/controller/TaskController.java:34-42 | `findByUserId` followed by the map to responses keeps exactly the tasks with that owner |
| `TaskController.CreateTask` | src/main/java/com/internship/app/controller/TaskController.java:48-70 | adds one task under a fresh id with the request's title and description, owned by the current user, with `completed = false`; other tasks are unchanged; no task becomes completed |
| `TaskController.UpdateTask` | src/main/java/com/internship/app/controller/TaskController.java:72-90 | "Task not found" for an absent id and "Unauthorized" for another owner's task, both with the store unchanged; otherwise only title and description change, id, owner and completed are kept |
| `TaskController.DeleteTask` | src/main/java/com/internship/app/controller/TaskController.java:92-105 | the same two failures with the store unchanged; the owner's call removes exactly that id |
| `TaskController.FilterBindingIsCurrentUser` | src/main/java/com/internship/app/controller/TaskController.java:107-116 | the authentication the filter binds is accepted, and its user is the current user |
| `TaskController.ListAfterInsert` | src/main/java/com/internship/app/controller/TaskController.java:53-59 | a task inserted under a fresh id joins its owner's list; every other user's list is unchanged |
| `TaskController.ListAfterReplace` | src/main/java/com/internship/app/controller/TaskController.java:83-85 | replacing a task by one with the same owner changes only that entry of that owner's list |
| `TaskController.ListAfterRemove` | src/main/java/com/internship/app/controller/TaskController.java:103 | deleting an id removes exactly that entry from every list |
| `AuthController.NormalizeEmail` | src/main/java/com/internship/app/controller/AuthController.java:28 | the normalised email is the lower-cased slice left after removing the leading and trailing characters at or below U+0020; it is empty exactly for a blank input, and has no upper-case letter and no trimmable character at either end |
| `AuthController.NormalizeEmailIdempotent` | src/main/java/com/internship/app/controller/AuthController.java:54 | normalising a normalised email changes nothing, so signup's stored email and login's lookup key agree |
| `AuthController.Signup` | src/main/java/com/internship/app/controller/AuthController.java:23-39 | a null email, a null password (in that order) or a duplicate normalised email gives 400 with a message starting `"Signup failed: "` and stores nothing; otherwise it stores exactly one user under the next id with that name, the normalised email and the encoded password, advances the id counter, and returns a token for the normalised email |
| `AuthController.Login` | src/main/java/com/internship/app/controller/AuthController.java:41-68 | "Email is required" exactly for a null or blank email; "Password is required" exactly for a good email with a null or empty password, so all-space passwords pass; "User not found" exactly when no row holds the normalised email; 401 "Invalid credentials" exactly when that row's password does not match; a token for the normalised email exactly when a row holds it and its password matches |
| `AuthController.LoginChecksPrecedeStore` | src/main/java/com/internship/app/controller/AuthController.java:44-54 | when the email or password check fails, the answer is the same whatever the store holds |
| `AuthController.LoginAfterSignup` | src/main/java/com/internship/app/controller/AuthController.java:26-63 | after a successful signup with a non-blank email and a non-empty password, login with the same password and any email with the same normalisation issues a token for the normalised email |
| `AuthController.BlankEmailAccountUnreachable` | src/main/java/com/internship/app/controller/AuthController.java:44-54 | no login request that issues a token finds an account stored with a blank email |
| `AuthController.EmptyPasswordAccountUnreachable` | src/main/java/com/internship/app/controller/AuthController.java:49-59 | with an encoder under which no non-empty password matches the encoding of `""`, no login request that issues a token finds an account stored with that encoding |
| `AuthController.LoginTokenIdentifies` | src/main/java/com/internship/app/controller/AuthController.java:62 | a token issued by login makes the filter identify the stored user on any protected path until 24 h after the login when the stored email has text, and nobody otherwise |
| `AuthController.BlankEmailTokenIdentifiesNobody` | src/main/java/com/internship/app/controller/AuthController.java:28 | a blank signup email is stored as `""`, and the token issued for it never identifies anyone |
| `UserController.PrincipalUser` | src/main/java/com/internship/app/controller/UserController.java:21 | a null authentication and a principal that is not a User are distinct failures; a User principal succeeds with that User |
| `UserController.GetProfile` | src/main/java/com/internship/app/controller/UserController.java:19-25 | the principal's failures propagate; for a User principal, the stored row with the principal's id when there is one, and "User not found" exactly when that id is absent |
| `UserController.RenamedUsesOnlyName` | src/main/java/com/internship/app/controller/UserController.java:35 | of the request body only the name matters; id, email and password are the principal's |
| `UserController.Renamed` | src/main/java/com/internship/app/controller/UserController.java:35 | the renamed record carries the body's name |
| `UserController.UpdateProfile` | src/main/java/com/internship/app/controller/UserController.java:28-38 | for a User principal, the save goes to the principal's id when that row exists and to the next id otherwise; it is rejected with the table unchanged exactly when another row holds the principal's email, and otherwise returns the principal with the body's name, its own email and password, under that id, with every other row unchanged |

The predicates `AuthController.HasEmail` and `AuthController.HasPassword` render the two login checks (AuthController.java:44 and 49). They belong to the `AuthController.Login` row, whose contract is stated in terms of them.

## Left out

- JWS compact serialisation and HMAC-SHA256 signing and verification are done by jjwt. They are the abstract `Jjwt` parameter: a signature verifies exactly when the signing key is `SECRET`. The header's `alg` is not modelled, and neither is jjwt's check of key length against it.
- The exp claim travels in whole seconds, so it is truncated. The model keeps milliseconds.
- The strength of the hard-coded secret is not modelled.
- The clock is a `now` parameter, one per call. The source reads the clock separately for `iat`, for `exp` and for each of the two parses in `isTokenValid`.
- Password hashing is the abstract `PasswordEncoder` parameter. The salt randomness of its `encode` is not modelled.
- Spring machinery is out of scope: the thread-local `SecurityContextHolder` (a field of the filter class here), `FilterChain` (a forward counter), `WebAuthenticationDetailsSource` details, `OncePerRequestFilter`'s marker, and the mapping of uncaught exceptions to HTTP statuses.
- JwtFilter.JwtAuthenticationFilter.DoFilterInternal: assumes the downstream chain does not throw. In the source, the forward after an invalid token sits inside the `try`, so a downstream exception there would be caught and the chain called a second time. Store errors in the lookup are not modelled either: every step in the model is total, so the `catch` branch is never taken.
- Repositories.UserRepository.Merge: saving a user whose row is gone is assumed to insert it under a fresh id. Newer Hibernate versions throw an optimistic-lock exception here instead. No operation in the core deletes a user, so the case does not arise from these handlers.
- Repositories.UserRepository.Insert: in the model, an insert the unique email constraint rejects does not consume an id. A database IDENTITY column usually does consume it, as PostgreSQL sequences and MySQL auto-increment do. No property here depends on which ids are assigned.
- JPA details are out of scope: ids come from a counter per table, and cascade, lazy loading and the `tasks` list of `User` are not modelled.
- TaskController.GetTasks: the list is returned as a map from task id to response, so its order is not modelled.
- Nulls are only modelled where a branch depends on them: signup/login email and password, the token, the authentication. Null names, titles and descriptions are copied like any other string.
- AuthController.Signup: the exception texts after `"Signup failed: "` stand in for the JVM's and the libraries' messages.
- UserController.UpdateProfile: the source changes the principal object in place, so the security context sees the new name too. The model returns the renamed value and leaves the slot alone.
- `toLowerCase` is modelled on ASCII letters only. Locale and Unicode case mapping are not modelled.
- jjwt's `nbf` (not-before) check and its PrematureJwtException are not modelled. The service never writes `nbf`, and `Claims` has no such field.
- `SimpleCorsFilter` (static headers and an OPTIONS short-circuit) and all logging are outside this model.
