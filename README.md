# Blog server: posts, accounts and sessions

A model of the server-side rules of a small blog application: the post
controller (`controllers/postController.js`) and the auth controller
(`controllers/authController.js`). One class, `Server.BlogServer`, holds
the state those handlers share:

- the users table, keyed by `user_id`;
- the blogs table, keyed by `blog_id`;
- the `blog_id` sequence;
- the session user.

Each request handler is a method on that class. It returns a `Response`,
which carries:

- the status code;
- the success flag;
- the message;
- the validation errors;
- the `authorized` flag (only the ownership refusal sends it, as `false`; `true` stands for the field being absent);
- the JSON payload.

The SQL statements become map operations:

- a `SELECT` by key, or a filter plus a newest-first sort;
- an `INSERT` under the next `blog_id`;
- an `UPDATE` of one row;
- a `DELETE` of one row.

The files are:

- `text.dfy`: request fields. `Option<string>` stands for a value that may be `undefined`, and `Truthy` is JavaScript's truthiness on it. It also models `String.prototype.trim` over the ECMAScript whitespace and line-terminator characters.
- `password.dfy`: a deterministic stand-in for bcrypt's `hash` and `compare`. Like bcrypt, it reads only the first 72 bytes of a password's UTF-8 encoding.
- `schema.dfy`: the table rows, the session user and the response shapes.
- `posts.dfy`: the pure rules of the post controller, namely `validatePost`, the `isAuthenticated` gate, the post-id check, the ownership check and the newest-first order.
- `accounts.dfy`: the pure rules of the account update, namely which hash is written and what the `UPDATE users ... WHERE user_id = $old` statement does.
- `server.dfy`: the handlers. Every handler behind `isAuthenticated` starts with that gate.
- `scenarios.dfy`: request sequences a client can reason about from the handlers' contracts alone.

## Model

| member | source | states |
|---|---|---|
| Text.TrimSpec | controllers/postController.js:18-19 | `trim` returns a slice of its input with whitespace at neither end; everything cut from either side is whitespace; the result is empty exactly when the input is all whitespace |
| Text.TrimFixedPoint | controllers/authController.js:15 | trimming a value without whitespace at either end gives it back, so trimming twice is the same as once |
| Text.TrimmedOrEmpty | controllers/postController.js:18-19 | `title ? title.trim() : ''`: a missing field reads as the empty string, a present one as its trimmed value; the result has no whitespace at either end and is empty exactly when the field is missing or all whitespace |
| Password.EncodeCharDecodes | controllers/authController.js:21 | a character's UTF-8 encoding, the form in which bcrypt receives it, announces its length in its first byte and decodes back to the character |
| Password.Utf8Append | controllers/authController.js:21 | the encoding of a concatenation is the concatenation of the encodings |
| Password.Utf8Injective | controllers/authController.js:21 | different strings have different UTF-8 encodings |
| Password.BeforeNul | controllers/authController.js:21 | what bcrypt reads of a password: the prefix before its first U+0000, holding no U+0000, and the whole password when it has none |
| Password.Key | controllers/authController.js:21 | the part of a password bcrypt hashes: the first 72 bytes of the UTF-8 encoding of what it reads, or all of them when fewer |
| Password.Hash | controllers/authController.js:21 | the stored hash starts with the bcrypt cost-10 header `$2b$10$` |
| Password.CompareHash | controllers/authController.js:47 | `compare` accepts a password against the hash of a password exactly when the two have the same key: the same first 72 UTF-8 bytes up to any U+0000 |
| Password.CompareIgnoresTail | controllers/authController.js:47 | two passwords that share a prefix of at least 72 bytes match each other's hash, whatever follows it |
| Password.CompareStopsAtNul | controllers/authController.js:47 | a password followed by U+0000 and anything else matches the password's hash, and the other way round |
| Password.CompareShortPasswords | controllers/authController.js:47 | passwords of at most 72 bytes match each other's hash exactly when they agree up to their first U+0000; without U+0000, exactly when they are equal |
| Posts.IsAuthenticated | controllers/postController.js:6-11 | the gate passes exactly when a session user is set; each gated handler answers 401 "Unauthorized" otherwise |
| Posts.ValidPostId | controllers/postController.js:51 | the id check: the route parameter, already parsed (none when `Number(id)` is not an integer), must be a positive integer |
| Posts.CanMutate | controllers/postController.js:111 | the ownership check: the post's `creator_user_id` equals the session user's id |
| Posts.ValidatePost | controllers/postController.js:14-34 | the error list is empty iff 1 ≤ trimmed title length ≤ 255 and 1 ≤ trimmed body length ≤ 5000, with a missing field counting as empty; each of the four messages appears iff its condition holds; at most two errors; every title error precedes every body error; an empty list implies both fields are present |
| Posts.FieldErrors | controllers/postController.js:21-25 | one field's `if / else if` check: at most one error, "required" iff the trimmed value is empty, "too long" iff it exceeds the limit |
| Posts.ValidateEmptyPost | controllers/postController.js:21-31 | empty or missing title and body give exactly `["Title is required", "Content is required"]`, since the checks do not short-circuit |
| Posts.BlankFieldIsMissing | controllers/postController.js:18-19 | a whitespace-only title or body is validated exactly like a missing one |
| Posts.AcceptedContentIsWellFormed | controllers/postController.js:74-82 | content that passed validation, once trimmed, has lengths within the limits and no surrounding whitespace, which is what every stored post holds |
| Posts.InsertKeepsTable | controllers/postController.js:80-83 | inserting under the next `blog_id` overwrites no post and keeps every post stored under its own, already issued `blog_id` |
| Posts.ReplaceKeepsTable | controllers/postController.js:115-116 | overwriting a post with well-formed content under the same `blog_id` keeps the table well formed |
| Posts.RemoveKeepsTable | controllers/postController.js:142 | deleting a row keeps the table well formed |
| Posts.InsertNewestFirst | controllers/postController.js:39 | placing one more row into a list ordered by `date_created DESC` keeps it ordered, adds exactly that row and keeps the rows distinct |
| Accounts.NewPasswordHash | controllers/authController.js:104-108 | a new hash exists exactly when the password is present and not blank, and then `compare` accepts the trimmed password against it |
| Accounts.UpdateUserRow | controllers/authController.js:110-130 | the `UPDATE users` statement: without a row for the old id nothing changes; the table key refuses it exactly when the new id differs from the old one and is already taken; otherwise the one row moves to the new id, keeping its name and taking the new hash if there is one, the row count is unchanged, no other row changes and every row stays under its own `user_id` |
| Server.BlogServer.SelectNewestFirst | controllers/postController.js:154 | the rows returned are exactly the stored posts that match the creator filter (all posts when there is none), each once, with `date_created` non-increasing |
| Server.BlogServer.GetAllPosts | controllers/postController.js:37-45 | 401 without a session user; otherwise 200 with every post once, newest first |
| Server.BlogServer.GetPostsByUser | controllers/postController.js:151-160 | 401 without a session user; otherwise 200 with exactly the posts whose `creator_user_id` is the argument, each once, newest first |
| Server.BlogServer.GetPostById | controllers/postController.js:48-65 | 401, then 400 for an id that is not a positive integer, then 404 for a missing post; 200 exactly when all checks pass, and then a success response carrying the stored post with that id |
| Server.BlogServer.CreatePost | controllers/postController.js:68-89 | 401 and 400 (with the validator's errors) change nothing. On success the post goes under a fresh `blog_id` with creator id and name from the session, trimmed title and body and the given time; no existing post changes; the response is 201 with that post |
| Server.BlogServer.UpdatePost | controllers/postController.js:92-122 | checks run in a fixed order: 401, bad id 400, invalid content 400 (whether or not the post exists), 404, not the creator 403 with `authorized` false. Each refusal changes nothing. Otherwise only that post's title and body become the trimmed input; its id, creator and date, and every other post, are unchanged |
| Server.BlogServer.DeletePost | controllers/postController.js:125-148 | 401, 400, 404, 403 in that order, each changing nothing. The table changes iff the post exists and the session user created it, and then exactly that post is removed |
| Server.BlogServer.Signup | controllers/authController.js:6-30 | 400 when any field is missing or empty before trimming, and 409 when the trimmed `user_id` is taken whatever the name and password; both change nothing. Otherwise exactly one row is added, with trimmed name and `user_id` and the hash of the trimmed password, and the response is 201 with that `user_id` |
| Server.BlogServer.Login | controllers/authController.js:33-67 | 400 when a field is missing. The same 401 "Invalid credentials" for an unknown `user_id` and for a wrong password. 200 exactly when the row exists and the trimmed password matches, and then the session and the response both hold the row's `user_id` and name. Every failure leaves the session unchanged |
| Server.BlogServer.Logout | controllers/authController.js:70-77 | afterwards nobody is logged in; 200 "Logout successful" |
| Server.BlogServer.GetSession | controllers/authController.js:80-91 | reports authenticated iff a session user is set, and which one, without changing anything |
| Server.BlogServer.UpdateAccount | controllers/authController.js:94-148 | behind the gate (401); a missing or blank `user_id` gives 400. Neither a changed id nor a non-blank password means no write. A new id already taken by another row gives 500, because nothing checks for it first and the table key refuses it. Otherwise the session's row gets the new id and the new hash, if any, keeping its name; no other row changes; the session becomes the new id with the stored name. A stale session whose row is gone adopts whatever row has the new id, or gets 500. Every failure changes nothing |
| Scenarios.RenameLocksOutOwnPosts | controllers/postController.js:111-113 | after a successful rename, editing and deleting the user's own earlier posts are both refused with 403, because those posts keep the old `creator_user_id` |
| Scenarios.LogoutClosesGatedRoutes | routes/postsApi.js:6-21 | after a logout every post route and the account update answer 401 and change nothing |
| Scenarios.DuplicateSignupConflicts | controllers/authController.js:15-18 | a second signup with the same `user_id` is a 409, whatever the name and password |
| Scenarios.PostLifecycle | controllers/postController.js:68-148 | a created post is read back as created; after an edit it reads back with only the trimmed title and body changed; after the delete the id is not found and the table is as before the create |
| Scenarios.TwoUsers | controllers/postController.js:111-113 | on a fresh server: a user signs up (201), is refused with a password whose bcrypt key differs from theirs (401), logs in and posts; a second user who signs up and logs in is refused the edit with 403 |
| Scenarios.Joins | controllers/authController.js:6-62 | signing up and then logging in with the same trimmed credentials succeeds, and a password whose bcrypt key (first 72 bytes up to any U+0000) differs is refused |
| Scenarios.Writes | controllers/postController.js:68-84 | a logged-in user's valid post is stored under the session's `user_id` |
| Scenarios.EditsOthersPost | controllers/postController.js:111-113 | a newly signed-up user may not edit a post whose creator is someone else |

## Left out

- Database errors that the handlers' own logic does not cause (lost connection, constraint violations other than the users key) are not modelled. Their 500 responses are therefore absent, except the two an account update provokes itself: a taken `user_id`, and `rows[0]` of an empty result.
- The `users.user_id` column is taken to be the table's unique key, so a rename to a taken id fails in the store. The controller itself never checks it.
- Password.BeforeNul: a password is read as a C string, up to its first U+0000. A bcrypt binding that passes the full length instead cycles the key bytes and a closing zero byte, under which fewer passwords containing U+0000 collide. Both readings agree on passwords without U+0000.
- Password.Hash: bcrypt's salt, its fixed 60-character output and its one-wayness are not modelled. The stand-in is the `$2b$10$` header followed by the hashed 72-byte key itself, so two hashes of one password are equal here and differ in reality. `compare` accepts a password exactly when its key, the first 72 UTF-8 bytes up to any U+0000, equals the stored password's.
- JavaScript `Number(id)` coercion of the route parameter (hex, exponent, whitespace strings) is not modelled. The id arrives already parsed: `None` when `Number(id)` is not an integer.
- Non-string request fields (a number or an object sent as JSON) are not modelled. Fields are strings or absent.
- String length counts code points, not UTF-16 code units. Characters outside the Basic Multilingual Plane count once, where JavaScript counts them twice. Lone surrogates, which a JSON field can carry and which become U+FFFD before bcrypt sees them, are not represented: a model string holds Unicode scalar values only.
- `new Date()` is a parameter (`now`) of `CreatePost`.
- The express-session cookie, its 24-hour expiry and the session store are not modelled. There is one session, not one per client, and logout's 500 when the store fails to destroy the session is left out.
- The Express route tables and server start-up are not modelled beyond applying the auth gate as the first check of each gated handler.
- The race between the ownership `SELECT` and the following `UPDATE` or `DELETE` is not modelled, because each handler runs atomically here.
- Server.BlogServer.SelectNewestFirst: the order of posts with equal `date_created` is not stated, because SQL leaves it unspecified.
- The React client (components, `fetch` calls, client-side owner checks) is not part of this model.
