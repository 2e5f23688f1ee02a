# A verified model of the todo application's own logic

The application is a small multi-user todo list built on Next.js:

- people register and log in with a password;
- login hands out a JWT bearer token;
- each user creates, lists, edits and deletes their own todo items;
- a route middleware sends anonymous visitors to the home page and signed-in visitors to the dashboard.

This Dafny project models the parts of that application that are its own logic rather than framework or database glue. Each part is a module:

- **Auth** (`src/app/utils/auth.ts`). The credential record codec. `hashPassword` stores a password as `salt:hash`. The salt is the hex text of 16 random bytes. The hash is the hex text of the 64-byte scrypt key, derived from the password and that salt text. `verifyPassword` splits the record on `:`, derives the key again and compares. scrypt (RFC 7914) is a parameter of type `Scrypt`: any deterministic function from (password, salt text) to 64 bytes. The random salt is a parameter too. Hex is base16 with lower-case digits (RFC 4648 section 8).
- **Middleware** (`src/middleware.ts`). The route guard, a pure decision over the path and the `token` cookie.
- **TodoRoute** (`src/app/api/todo/route.ts`). Bearer-header parsing (RFC 6750 section 2.1), the falsy-user-id guard and the four handlers. The handlers work on a `TodoStore` object that holds the todo table as a `map<int, Todo>` plus its autoincrement counter. `jwt.verify` is a parameter: a partial function from a token to a user id.
- **UserDb, RegisterRoute, LoginRoute** (`src/app/api/register/route.ts`, `src/app/api/login/route.ts`). The user table is a `UserTable` object holding a map keyed by email, the table's unique lookup key. Registration is a method that inserts into it. Login is a function of the table and the request, so it cannot write to the table. `jwt.sign` is a parameter.
- **Dashboard** (`src/app/dashboard/page.tsx`). The client side:
  - `getToken` over the cookie string;
  - the axios interceptor that turns the token into an `Authorization` header;
  - a `Page` class whose fields are the component state (`todos`, the `newTodo` draft, `editingTodo`).

  Each handler of `Page` replaces that state with a `map`, `filter`, spread or `reverse` of the old list. The outcome of each API call is a parameter, None when the request threw.
- **JsString** and **Optional**. The JavaScript semantics the rest relies on: `split` with a one-character separator (with `Join` as its proved inverse), `startsWith`, `trim` over the ECMAScript white-space set, `find` on a list of pieces, and the truthiness of an optional string.

Two facts about the code the model makes explicit:

- **A record without `:` is not an error.** `verifyPassword` then returns false, because the split leaves `storedHash` undefined. Nothing is thrown. The model follows the code (`Auth.VerifyRejectsUndelimited`).
- **The dashboard's completion toggle is never saved.** The toggle sends `{ id, isCompleted }` to PUT. The server reads only `id`, `title` and `content`, and Prisma leaves undefined fields alone. So the stored todo is unchanged (`TodoRoute.EditWithoutFieldsIsIdentity`), while the client flips its local copy (`Dashboard.Page.ToggleComplete`).

## Model

| member | source | states |
|---|---|---|
| `JsString.Split` | src/app/utils/auth.ts:16 | `split` returns at least one piece; no piece holds the separator; joining the pieces with the separator gives back the input. |
| `JsString.BlankIffAllWhiteSpace` | src/app/dashboard/page.tsx:93 | `!s.trim()` holds exactly when every character of `s` is ECMAScript white space. |
| `Auth.HexEncode` | src/app/utils/auth.ts:5-8 | The hex text has two characters per byte, all of them lower-case hex digits. |
| `Auth.HexEncodeInjective` | src/app/utils/auth.ts:5-8 | Two byte strings with the same hex text are equal. |
| `Auth.HashPassword` | src/app/utils/auth.ts:3-12 | The record is 32 hex digits, then `:`, then 128 hex digits; its first 32 characters are the hex of the salt. |
| `Auth.SplitRecord` | src/app/utils/auth.ts:11-16 | Splitting `salt + ":" + hash` on `:` gives back exactly `[salt, hash]` when both are hex. |
| `Auth.VerifySeesSaltText` | src/app/utils/auth.ts:8-19 | Verification hands scrypt the same hex salt TEXT that hashing used, and finds the stored key text as the second piece. |
| `Auth.VerifyHashRoundTrip` | src/app/utils/auth.ts:3-22 | `verifyPassword(p, hashPassword(p))` holds for every password and salt. |
| `Auth.RecordHashNeedsDelimiter` | src/app/utils/auth.ts:16 | `storedHash` is defined only when the stored string holds `:`. |
| `Auth.VerifyPassword` | src/app/utils/auth.ts:14-22 | Acceptance needs a `:` in the record and a stored hash of exactly 128 hex digits, the only text a 64-byte key's hex can equal. Its full behaviour is stated by `VerifyParsesRecord` (one `:`), `VerifyRejectsUndelimited` (no `:`) and `VerifyIgnoresTail` (two or more). |
| `Auth.VerifyHashIff` | src/app/utils/auth.ts:14-22 | A candidate passes a record exactly when scrypt gives it the same key as the original password under the record's salt text. |
| `Auth.VerifyRejectsUndelimited` | src/app/utils/auth.ts:16-22 | A stored string without `:` leaves `storedHash` undefined, and verification answers false. |
| `Auth.VerifyParsesRecord` | src/app/utils/auth.ts:14-22 | For any record `salt:key` with one `:`, whoever built it, a candidate is accepted exactly when `key` is the hex of scrypt over the candidate and the text `salt`. |
| `Auth.VerifyIgnoresTail` | src/app/utils/auth.ts:16-22 | Text after a second `:` does not change the verdict. |
| `Auth.DistinctSaltsDistinctRecords` | src/app/utils/auth.ts:5-11 | Records made with different salts are different strings, whatever the passwords. |
| `Middleware.Guard` | src/middleware.ts:4-24 | Redirect to `/dashboard` iff the path is public and the token is non-empty. Redirect to `/` iff the path is protected and the token is empty. Otherwise pass through. |
| `Middleware.PublicPathsExactly` | src/middleware.ts:9 | Exactly `/`, `/login` and `/register` are public. |
| `Middleware.MissingCookieIsEmptyToken` | src/middleware.ts:12 | A missing `token` cookie gets the same decision as an empty one. |
| `Middleware.NoRedirectLoop` | src/middleware.ts:9-23 | The page a redirect names passes the same visitor through. |
| `TodoRoute.BearerToken` | src/app/api/todo/route.ts:10-15 | A token exists iff the header is present and starts with `Bearer `. The token is the first space-free field after that prefix, the second field of `split(" ")`. |
| `TodoRoute.UserIdFromToken` | src/app/api/todo/route.ts:9-22 | A user id comes only from a header that starts with `Bearer `. With a bearer token, the id is whatever `jwt.verify` gives for that token, and none when it throws. The four handlers' ensures and `BearerHeaderRoundTrip` state the rest. |
| `TodoRoute.BearerHeaderRoundTrip` | src/app/api/todo/route.ts:10-21 | `Bearer <t>` with a space-free `t` hands exactly `t` to `jwt.verify`, so the user id is `verify(t)`. |
| `TodoRoute.Edited` | src/app/api/todo/route.ts:79-82 | The update writes only the title and the content, and only those given. The id, `isCompleted` and the owner are untouched. |
| `TodoRoute.EditWithoutFieldsIsIdentity` | src/app/api/todo/route.ts:68-82 | A PUT body without title and content (the dashboard toggle's) leaves the todo as it was. |
| `TodoRoute.TodoStore.Get` | src/app/api/todo/route.ts:24-38 | 401 iff the user id is missing or 0. Otherwise 200 with exactly the todos whose `userId` is the caller's. |
| `TodoRoute.TodoStore.Post` | src/app/api/todo/route.ts:40-58 | 401 with nothing changed for a missing or 0 user id. Otherwise 201, and the table gains exactly one todo. The new todo has a fresh id, the caller as owner, the posted title and content, and `isCompleted` false. The autoincrement counter moves on by one. |
| `TodoRoute.TodoStore.Put` | src/app/api/todo/route.ts:60-88 | 401 or 403 (a missing todo or another owner's) with nothing changed. Otherwise only that todo changes, by `Edited`, and 200 returns it. |
| `TodoRoute.TodoStore.Delete` | src/app/api/todo/route.ts:90-118 | 401 or 403 with nothing changed. Otherwise exactly that id leaves the table and 200 is returned. |
| `RegisterRoute.NewUser` | src/app/api/register/route.ts:40-49 | The stored user has the given id, email and username. Its password is a credential record, and that record verifies against the plaintext. |
| `RegisterRoute.Post` | src/app/api/register/route.ts:13-70 | 400 "All fields are required." for a missing or empty field, and 400 "User already exists." for a known email; neither changes the table. Otherwise 201, and exactly one user is added under the email. Its password is `hashPassword(password)`. The response user has id, email and username and no password. Email uniqueness and distinct ids are preserved. |
| `LoginRoute.Post` | src/app/api/login/route.ts:15-70 | 400 iff the email or password is missing or empty. 200 iff the user exists and `verifyPassword` holds; the token is then signed over that user's id, email and username. Every other answer is 401 "Invalid email or password.". |
| `LoginRoute.FailuresIndistinguishable` | src/app/api/login/route.ts:33-47 | An unknown email and a wrong password give the same response. |
| `LoginRoute.LoginAfterRegister` | src/app/api/login/route.ts:29-47 | After a user is stored as registration stores it, logging in with that email and password returns 200 and the user's token. |
| `LoginRoute.RegisterThenLogin` | src/app/api/login/route.ts:15-62 | Registering a new email and then logging in with the same credentials yields 201, then 200. |
| `JsString.FindIndex` | src/app/dashboard/page.tsx:41-43 | The `find` the cookie lookup uses: the index of the first piece the predicate accepts (no earlier piece is accepted), or none when no piece is accepted. |
| `Dashboard.TokenPrefixIsTokenPiece` | src/app/dashboard/page.tsx:43 | A piece starting with `token=` still starts with it after trimming. |
| `JsString.FieldOfFound` | src/app/dashboard/page.tsx:41-44 | `find(...)?.split("=")[1]`: a value exists iff some piece is found. It is the part after the first `=` of the first found piece, up to any second `=`, so it never contains `=`. |
| `Dashboard.TokenPiecesHoldValues` | src/app/dashboard/page.tsx:43-44 | Every piece whose trimmed text starts with `token=` contains `=`, so its split has a value part. |
| `Dashboard.GetToken` | src/app/dashboard/page.tsx:40-45 | null iff no `;`-separated piece of the cookie is a token piece. Otherwise the value is the text between the first and second `=` of the first token piece, so it never contains `=`. |
| `Dashboard.GetTokenOfSingleCookie` | src/app/dashboard/page.tsx:40-45 | The cookie `token=<t>` yields `t`. |
| `Dashboard.GetTokenSkipsOtherPiece` | src/app/dashboard/page.tsx:40-45 | A leading piece that is not `token=` is skipped: the answer is the rest's. |
| `Dashboard.AuthorizationHeader` | src/app/dashboard/page.tsx:57-63 | A header is set iff the token is present and non-empty, and then it is `Bearer ` followed by the token. |
| `Dashboard.InterceptorMatchesServer` | src/app/dashboard/page.tsx:57-62 | The server's user-id helper reads exactly the space-free cookie token from the header the client sends. No token means no user id. |
| `Dashboard.WithCompletion` | src/app/dashboard/page.tsx:114-118 | The length is unchanged. Todos with the id get the new `isCompleted`; all other entries stay as they were. |
| `Dashboard.ToggleTwiceRestores` | src/app/dashboard/page.tsx:107-118 | Two toggles, each passing the flag the list shows, restore the list. |
| `Dashboard.Replaced` | src/app/dashboard/page.tsx:142-144 | The length is unchanged. Entries whose id equals the edited id, undefined included, become the server's todo; the others stay. |
| `Dashboard.Without` | src/app/dashboard/page.tsx:160 | No todo with the id remains. Every other todo remains, and nothing new appears. |
| `Dashboard.WithoutAppend` | src/app/dashboard/page.tsx:160 | The filter distributes over concatenation, so the kept todos stay in their original order. |
| `Dashboard.WithoutAbsentId` | src/app/dashboard/page.tsx:160 | A list without that id is left unchanged. |
| `Dashboard.DeleteUndoesAdd` | src/app/dashboard/page.tsx:154-160 | Deleting, by its new id, the todo just put first gives back the earlier list. |
| `Dashboard.Reversed` | src/app/dashboard/page.tsx:83 | `reverse()` keeps the length and puts element `i` at position `n-1-i`. |
| `Dashboard.CountsAddUp` | src/app/dashboard/page.tsx:213-231 | The completed count plus the pending count equals the total. |
| `Dashboard.Page.Stats` | src/app/dashboard/page.tsx:206-233 | The cards show the list length, `CompletedCount` (the `filter(isCompleted).length` of line 222) and `PendingCount` (the `filter(!isCompleted).length` of line 231). Total = completed + pending, and completed is 0 iff no todo is completed. |
| `Dashboard.Page.constructor` | src/app/dashboard/page.tsx:66-72 | Initial state: no todos, an empty draft that is not completed, nothing being edited. |
| `Dashboard.Page.FetchTodos` | src/app/dashboard/page.tsx:79-90 | On success the list becomes the response reversed. On failure nothing changes. |
| `Dashboard.Page.AddTodo` | src/app/dashboard/page.tsx:92-105 | A blank title or content, or a failed POST, is a no-op. Otherwise the created todo comes first, the list grows by one, and the draft resets to empty with `isCompleted` false. |
| `Dashboard.Page.ToggleComplete` | src/app/dashboard/page.tsx:107-124 | After a successful PUT the list is `WithCompletion` with the negated flag. Nothing else changes. |
| `Dashboard.Page.StartEditing` | src/app/dashboard/page.tsx:314 | The chosen todo becomes the one being edited. |
| `Dashboard.Page.EditTodo` | src/app/dashboard/page.tsx:126-152 | Nothing being edited, a blank field or a failed PUT is a no-op. Otherwise the list is `Replaced` with the server's todo and editing ends. |
| `Dashboard.Page.DeleteTodo` | src/app/dashboard/page.tsx:154-166 | After a successful DELETE the list is `Without` the id. Nothing else changes. |

## Left out

- **Crypto and tokens:** scrypt, `randomBytes`, `jwt.sign` and `jwt.verify` are library code. They are parameters here: scrypt is deterministic and 64 bytes long, and verification is a partial function from token to user id. A verified payload without `userId` behaves like a failed verification in the source (both give 401), and the model merges the two.
- **Timing:** the key comparison is a plain string equality, and timing behaviour cannot be expressed in this model.
- **The `JWT_SECRET` fallback:** the secret and its hard-coded fallback are inside the `jwt` parameters and are not modelled.
- **500 answers:** every route's `catch` turns a database or body-parsing error into a 500. None of these is modelled, because the in-memory maps never fail. The model assumes that:
  - POST's title and content are present strings;
  - the PUT and DELETE ids are numbers.
- **The register race:** the gap between `findUnique` and `create` is concurrency and is not modelled.
- **The default of `isCompleted`:** a created todo's `isCompleted` is taken to be false. The Prisma schema that sets this default is not part of this model.
- **GET ordering:** GET returns the caller's todos as a map from id to todo. The order Prisma returns them in is not modelled; the dashboard's `reverse()` is modelled on whatever list arrives.
- **The completion-rate card:** it uses floating-point division and `Math.round` (src/app/dashboard/page.tsx:240-246).
- **The middleware `matcher` config:** it is a regular expression that the framework consumes.
- **Client plumbing:** HTTP `Response` objects, `req.json()`, axios, toasts, modals, `router.push`, the logout cookie write, and the draft inputs' `onChange` handlers are not modelled. Each API call's outcome is a parameter of the handler that made it.
- **Overlapping requests:** each handler is applied to the current page state. React's stale closures over `todos` during overlapping requests are not modelled.
- **String encoding:** strings are sequences of Unicode scalar values, while JavaScript counts UTF-16 code units. Splitting on `:`, `;`, `=` and space gives the same pieces either way.
- **UI-only files:** the home page form handlers (src/app/page.tsx), the layout, the theme switch and the UI provider are rendering only.
