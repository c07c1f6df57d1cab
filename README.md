# A verified model of the blog server's store and handlers

The blog is one Express server (`server.js`) over an SQLite database. Visitors read articles.
Registered users like and unlike them. Writers publish articles, and edit or delete their own.
One administrator, the user with id 1, manages the writers and the public display name shown in
place of the administrator's own name.

This project models the part of the server that decides things. That part is the store of
tables and the POST handlers that read and write it. The model's pieces, one Dafny module each:

- `JsString`: the JavaScript string operations the handlers use. These are `trim` (ECMAScript
  white space and line terminators), `.length` in UTF-16 code units, and the `^[a-zA-Z0-9]+$` test.
- `Records`: the table rows (`User`, `Article`, `Wish`), the session identity, the password hash,
  the form messages, and `Reply`, the outcome of a handler: went through, redirected by a guard,
  re-rendered with messages, or failed on a storage error.
- `Sessions`: the session token's 24-hour expiry. A missing, malformed or expired token gives the
  anonymous identity.
- `Access`: the guards `mustBeAdmin`, `mustBeWriter` and `mustBeLoggedIn`, and the ownership test
  of edit and delete.
- `Articles`: `sharedArticleValidation`, which cleans the title and body and accumulates errors.
- `Accounts`: the unique-username index on `users`, the registration field checks, and the login
  decision.
- `Likes`: the like toggle on values, and the invariant that an article's count equals the number
  of users whose liked table holds it.
- `Blog`: the class `Store`, one field per table, with one method per POST handler. Each method's
  `modifies` clause names exactly the tables the handler writes. Its postcondition gives the
  reply and the new contents of those tables in every case, including every refusal. Each method
  keeps the store's `Valid()` invariant. Every method except `LikeArticle` also keeps the like
  invariant, `LikesConsistent()`. `LikeArticle` keeps it when the liked id has already been
  handed out to an article. A like on a later id breaks it at once, because a liked table then
  holds an id no article has had yet.
- `Walkthrough`: a run of the handlers on a fresh store. The administrator and alice register.
  A third registration, " alice ", is refused as a duplicate, and bob registers fourth. alice
  becomes a writer, publishes and retitles an article, and a non-writer's edit is turned away.
  bob's like and unlike take the article's count to 1 and back to 0.

Identity is `Option<Session>`: `None` is the anonymous visitor. Hashing is an ideal one-way
function; the salt is a parameter. The HTML sanitiser is a parameter `strip: string -> string`,
so every property holds for any sanitiser. The creation timestamp is a parameter.

Behaviour the code has, reproduced in the model:

- The password-length test of registration (server.js:504) asks for a length of 1, 2, 3 and 4 at
  once. So it never fires, and any non-blank password is accepted (`Accounts.PasswordLengthCheck`).
- A title is refused from 30 UTF-16 code units on, so at most 29 pass. The data model is
  documented as allowing titles of up to 30 characters; the model follows the code.
- A minimum password length is documented for registration; the code enforces none, and the model
  follows the code.
- The change-email and change-password handlers have no guard. They rewrite the row whose id the
  session carries, if such a row exists, and otherwise do nothing.
- `writers` may hold a username several times. `/remove-writer` deletes every row for the name.
- The like toggle does not check that the article exists. Deleting an article leaves its id in
  the liked tables.
- Article ids come from AUTOINCREMENT and are never reused. This is why a deleted article's stale
  ids cannot break the like invariant. The invariant holds after any sequence of handlers whose
  likes target ids already handed out (`Likes.CountsAfterToggle`). A like on an id not handed out
  yet breaks it at once. Once that article is created, its count of 0 disagrees with its one
  liker (`Likes.UnallocatedLikeBreaksCounts`).
- The `adminVisualName` table starts empty and `server.js` never inserts into it, so the rename
  matches no row until a row is put there by other means.
- Login looks the username up untrimmed, while registration stores it trimmed.
- Changing the password refuses only the empty string, so a password of white space alone is
  stored. Login refuses a blank password before looking at the user, so that user can no longer
  log in with any password (`Accounts.LockedOutByBlankPassword`). This holds for the ideal hash
  of the model. With bcrypt it holds for passwords up to 72 bytes. bcrypt ignores every byte
  after the 72nd, as the bcrypt line under "## Left out" says, so two longer passwords that share
  their first 72 bytes match each other.

## Model

| member | source | states |
|---|---|---|
| `JsString.TrimStartShape` | server.js:497 | removing leading white space keeps exactly the suffix from the first non-space character on |
| `JsString.TrimEndShape` | server.js:498 | removing trailing white space keeps exactly the prefix up to the last non-space character |
| `JsString.TrimSlice` | server.js:183-184 | `trim` returns a slice of its input with white space only around it and non-space characters at both ends |
| `JsString.TrimBlank` | server.js:487-489 | a field trims to the empty string exactly when it is all white space |
| `JsString.TrimIdempotent` | server.js:497-498 | trimming an already trimmed field changes nothing |
| `JsString.JsLength` | server.js:189 | `.length` counts UTF-16 code units: between n and 2n for n characters, and exactly n when every character is in the Basic Multilingual Plane |
| `Records.Hash` | server.js:509-510 | a salted hash matches the password it was made from and records its salt |
| `Records.HashMatchesOnlyItsPassword` | server.js:565 | the password comparison accepts the hashed password whatever the salt, and no other password |
| `Sessions.IssuedTokenLifetime` | server.js:123-128 | the middleware's check of a token issued at login or registration (exp a day after the issue second, server.js:527) gives back its identity for the next day less under a second, and gives the anonymous identity from one day after issue on |
| `Access.GuardsAndOwnership` | server.js:141-171 | the anonymous visitor passes none of the three guards; the administrator always passes the writer guard; an article may be changed by its author or the administrator and by nobody else |
| `Articles.CheckArticle` | server.js:176-191 | both fields are trimmed and stripped of HTML; empty title, empty body and a title of 30 or more code units are reported, each exactly when it holds, in that order; no error exactly when the cleaned title is non-empty and under 30 code units and the cleaned body is non-empty |
| `Articles.ArticleErrors` | server.js:187-189 | each of the three messages is pushed exactly when its condition holds, and they come in the order title, body, length |
| `Accounts.UsernamesUnique` | server.js:28 | no two user rows share a username |
| `Accounts.AddUserKeepsIndex` | server.js:513-514 | inserting a user with a fresh id and an unused username keeps usernames unique |
| `Accounts.UpdateUserKeepsIndex` | server.js:596-597 | rewriting a user's email or password keeps usernames unique |
| `Accounts.PasswordLengthCheck` | server.js:504 | the password-length test never fires |
| `Accounts.CheckRegistration` | server.js:487-504 | registration fields are accepted exactly when the email and password are non-blank and the trimmed username has 3 to 20 characters, all ASCII letters or digits; the accepted email and username are the trimmed ones; a blank email is the first error; the password-length message is never produced |
| `Accounts.Login` | server.js:547-569 | login succeeds exactly when both fields are non-blank, a user has exactly that username and the password matches that user's hash; the session then names that user's row |
| `Accounts.LoginAfterRegister` | server.js:513-514 | after a registration goes through, logging in with the stored username and the same password gives the session registration issued |
| `Accounts.ValidUsernameIsTrimmed` | server.js:497-503 | a username registration accepts has no surrounding white space and is not blank, so the login lookup finds it as stored |
| `Accounts.LoginAfterPasswordChange` | server.js:622-626 | after a change to a new password that is not all white space, the new password logs the user in and the old one, if different, no longer does |
| `Accounts.LockedOutByBlankPassword` | server.js:616 | after a change to a non-empty password made only of white space, which the handler accepts, every login attempt for that user fails, and the stored password itself gets the missing-password message |
| `Likes.ToggleFlips` | server.js:639-655 | a toggle flips whether the article id is in the user's liked set, leaves every other id alone, and moves the count up when it adds the id and down when it removes it |
| `Likes.ToggleTwice` | server.js:639-655 | toggling twice restores the liked set, and the two count changes cancel |
| `Likes.LikersAfterToggle` | server.js:635-655 | one toggle changes the number of users liking the toggled id by the same amount as the count, and the number liking any other id not at all |
| `Likes.LikersAfterNewUser` | server.js:82-91 | a new user's empty liked table changes nobody's likers |
| `Likes.LikersOfUnallocated` | server.js:37 | when every liked id is below the next article id, no user likes the next id |
| `Likes.CountsAfterNewUser` | server.js:513-524 | registration keeps every article's count equal to its number of likers |
| `Likes.CountsAfterCreate` | server.js:675-676 | a new article with the next id and no likes keeps the counts right |
| `Likes.CountsAfterRewrite` | server.js:718-719 | an edit that keeps the count keeps the counts right |
| `Likes.CountsAfterDelete` | server.js:743-744 | deleting an article keeps the counts right even though its id stays in the liked tables |
| `Likes.CountsAfterToggle` | server.js:635-655 | a toggle on an id already handed out, whether or not that article still exists, keeps the counts right |
| `Likes.UnallocatedLikeBreaksCounts` | server.js:641-646 | a like on an id not handed out yet, followed by creating that article, leaves a count of 0 with one liker |
| `Blog.Store.constructor` | server.js:21-94 | a fresh database has every table empty and satisfies both invariants |
| `Blog.Store.SubmitWish` | server.js:461-480 | an empty wish is refused and stores nothing; otherwise the wish is appended, with "-" for a missing email |
| `Blog.Store.Register` | server.js:483-540 | a failed field check is reported and writes nothing; a taken username gives the "already exists" error and writes nothing; otherwise the new user gets the next id, the trimmed email and username, the hash of the untrimmed password, an empty liked table, and the new session is returned |
| `Blog.Store.ChangeEmail` | server.js:586-605 | a blank address is refused; otherwise only the session user's row gets the trimmed address, and nothing changes when the session names no row |
| `Blog.Store.ChangePassword` | server.js:608-630 | differing entries, then an empty password, are refused; otherwise only the session user's row gets a fresh hash |
| `Blog.Store.LikeArticle` | server.js:633-658 | a visitor whose id has no user row is redirected and nothing changes; otherwise the id is toggled in that user's liked table and an existing article's count moves by +1 or -1 accordingly; no other article or user changes |
| `Blog.Store.CreateArticle` | server.js:665-683 | a non-writer is redirected and a form with errors is re-rendered, both writing nothing; otherwise a new article under the next id holds the cleaned fields, 0 likes, the acting user as author and the given date |
| `Blog.Store.EditArticle` | server.js:694-722 | non-writer, missing article, acting user neither author nor administrator, and form errors each write nothing; otherwise only that article's title and body change, and its likes, author and date stay |
| `Blog.Store.DeleteArticle` | server.js:727-747 | the same refusals as edit; otherwise exactly that article row is removed and the liked tables stay as they were |
| `Blog.Store.SetAdminVisualName` | server.js:756-762 | only the administrator may rename; the rename replaces the stored name if one exists and otherwise changes nothing |
| `Blog.Store.AddWriter` | server.js:765-776 | only the administrator may add; an empty name changes nothing; otherwise one more row for the name is added, and that name then passes the writer guard |
| `Blog.Store.RemoveWriter` | server.js:779-785 | only the administrator may remove; every row for the name goes, and a session with that name passes the writer guard afterwards only if it is the administrator's |
| `Blog.LikeTwice` | server.js:633-658 | liking the same article twice as the same user restores every article and every liked table |
| `Walkthrough.RegisterRoot` | server.js:483-540 | the first registration on an empty store gets id 1, which makes that user the administrator |
| `Walkthrough.RegisterBob` | server.js:537-538 | a username that trims to one already taken is refused, and the next registration gets the next id |
| `Walkthrough.Publish` | server.js:665-683 | after the administrator adds alice as a writer, alice's first article gets id 1 with no likes and alice as author |
| `Walkthrough.EditByReader` | server.js:149-158 | a user who is not a writer cannot edit an article |

## Left out

- Signing and checking the session token, and the cookie's options, are left out. Both are done
  by foreign libraries. A token whose signature or format is bad is modelled as absent.
- bcrypt's internals are not modelled: the cost factor, and the 72-byte limit on the password.
  `Records.HashMatchesOnlyItsPassword`, `Accounts.LoginAfterPasswordChange` and
  `Accounts.LockedOutByBlankPassword` rest on the ideal hash. With bcrypt they hold for passwords
  of up to 72 bytes.
  The model's hash is ideal: a hash matches exactly the password it was made from.
- The HTML sanitiser and the markdown renderer are foreign libraries. The sanitiser is a
  function parameter and the renderer is display only.
- Picture uploads are left out: multer, `/save-picture`, `/upload-logo` and the process-wide
  `whichPicture` and `realArticle` variables. They are file I/O plus state shared across requests.
- The server restart after registration and after a change of email is process plumbing and is
  left out. So is the startup loop that creates a liked table for every user. The model creates
  the new user's empty liked table as part of registration. That is the effect of the restart
  when every username is a valid SQL table name.
- Blog.Store.Register: the model always gives the new user an empty liked table. In the source,
  some usernames pass the registration checks but are not valid unquoted table names: names
  starting with a digit, such as "2pac", and SQL keywords, such as "order". The startup loop
  runs in one transaction. Once such a name is registered, every later restart throws at that
  name's table and rolls the whole loop back. From then on neither that user nor any user
  registered after it gets a liked table, and a restarted main server stops at startup.
- Blog.Store.LikeArticle: every user the model registers has a liked table, so its `Failed`
  reply arises only for a session whose username names no user. In the source, every like by a
  user left without a table, as above, also fails.
- All GET pages are left out: listings, their sort orders, page rendering, redirect targets and
  logout's cookie clearing. They are presentation and write nothing. The creation date comes from
  the clock and is a parameter.
- Concurrent requests are not modelled. Handlers run one at a time, so the non-atomic
  read-then-write of the like toggle cannot interleave here.
- Request fields are always strings in the model. A non-string field makes the source's `trim`
  calls throw before its type checks are reached, so those type checks are not modelled.
- A missing field is the empty string in the model. The source agrees only for the wish form
  and the article form, which test for falsy values. In registration, login and change-email a
  missing field makes `trim` throw.
- Blog.Store.ChangePassword: two missing entries are equal and not the empty string, so the
  source passes both tests and then throws in the hash call. The model answers with the
  empty-password message.
- The liked tables are keyed by the exact username. In the source they are SQL tables named
  after the username, and SQLite compares table names case-insensitively. So two usernames that
  differ only in letter case share one table, and a username that is not a valid table name, or
  equals an existing table such as `users`, gets no usable liked table. None of this is modelled.
  The knock-on effect on later users is described in the `Blog.Store.Register` line above.
- SQLite's type affinity is not modelled: the `STRING` columns have numeric affinity.
- An article id in a URL is an integer in the model. A non-numeric id matches no row.
- Blog.Store.Register: the source's catch block turns any failure after the checks into the
  "already exists" message. The model raises that message only for a taken username.
- Blog.Store.LikeArticle: when the session's username has no liked table, the source's query
  throws. The model answers `Failed` and writes nothing.
- The anonymous visitor fails all three guards. For the writer and logged-in guards the source
  queries with an undefined parameter. Whether that finds nothing or throws, nothing is written.
