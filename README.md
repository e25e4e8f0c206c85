# siparis-backend in Dafny

This is a model of the REST backend behind an order-keeping and community app.
The backend is an Express server over a MySQL database. The model covers:

- the authentication routes: register, login, refresh-token rotation, and password reset by an emailed ticket;
- the community routes: posts, a like toggle, comments, and listings joined with authors and like counts;
- the order routes;
- the profile routes: own profile, a profile update that builds its `SET` list from the request, and public profile by URL id;
- the challenge routes, which carry their own copy of the token guard;
- the bearer-token middleware.

Each route is one atomic step on an in-memory database:

- `Tables.Database` is a class with one `map` per table, from the auto-increment id to the row, plus the next id each table hands out.
- The likes table is a `set` of (user, post) pairs.
- Handlers that change tables are methods with field-granular `modifies` clauses. Each returns the HTTP status it answers with, and its `ensures` give the whole new state.
- GET handlers are functions over the table values. Their `ensures` say which rows they return, what each row carries, and in which order.

The program relies on a few JavaScript and SQL behaviours, modelled so the handlers can be stated exactly:

- **Truthiness** (`Js.Truthy`) and the `x || null`, `x || 'pending'` and `x || 0` defaults.
- **`String.prototype.trim`**, using the white-space set of ECMA-262.
- **`split(' ')[1]`**.
- **`parseInt`**, following section 19.2.5 of ECMA-262, including the `0x` prefix.
- **The "first row" of an unordered `SELECT`**: the row with the lowest id (`Query.FirstKey`).
- **`ORDER BY`**: a sort on a key, `Query.SortByKey`, proved sorted and a permutation.

Outside collaborators become parameters or idealised functions:

- **The clock** is `now`, in milliseconds.
- **bcrypt** is an injective salted hash, `Crypto.Hash`, and `Crypto.Compare` succeeds exactly on a hash of the same password.
- **`jwt.verify`** is a function parameter `string -> Option<Claims>`.
- **Random and signed tokens** are given as parameters. A newly signed refresh token and a newly drawn reset token are required to differ from every stored one.
- **Mail delivery** is the flag `mailDelivered`.
- **Date validity** for `scheduled_at` is a `string -> bool` parameter.
- **The collation** of the `name` and `email` columns is a parameter `sameText`, an equivalence on strings. MySQL's default collations ignore case, and some ignore trailing spaces.

An `UPDATE` or `DELETE` reports the rows its `WHERE` clause matched, which is the driver's default count of "found rows". So "zero affected rows" means "no row with that id owned by that user".

Files:

- `wrappers.dfy`: the `Option` type.
- `js.dfy`: truthiness, `trim`, `split`/`join` and `parseInt`.
- `crypto.dfy`: the bcrypt stand-in.
- `query.dfy`: rows in id order, filter, first match, sort.
- `tables.dfy`: the rows and the `Database` class with its invariant.
- `middleware_auth.dfy`: the bearer-token middleware.
- `auth_routes.dfy`, `community.dfy`, `orders.dfy`, `user_routes.dfy`, `challenges.dfy`: one module per route file.

## Model

| member | source | states |
|---|---|---|
| `Js.OrNull` | siparis-backend/routes/community.js:20 | `x \|\| null` never stores an empty string, keeps the field's truthiness, and stores nothing but the field itself |
| `Js.OrDefault` | siparis-backend/routes/orders.js:70 | `status \|\| 'pending'` is the field or the default, keeps a truthy field, and is empty only when both are |
| `Js.OrZero` | siparis-backend/routes/orders.js:69 | `total_amount \|\| 0` is the number sent, fractions included, or 0 when it is absent |
| `Js.TrimStart` | siparis-backend/routes/user.js:59-61 | the result is a suffix of the input, what it drops is all white space, and it does not start with white space |
| `Js.TrimEnd` | siparis-backend/routes/user.js:59-61 | the result is a prefix of the input, what it drops is all white space, and it does not end with white space |
| `Js.Trim` | siparis-backend/routes/user.js:59-61 | the result is a slice of the input that neither starts nor ends with white space |
| `Js.TrimEmptyIff` | siparis-backend/routes/user.js:59-61 | `s.trim() === ''` holds exactly when `s` is all white space |
| `Js.TrimIdempotent` | siparis-backend/routes/user.js:59-61 | trimming a trimmed value changes nothing |
| `Js.Split` | siparis-backend/middleware/auth.js:7 | `split(sep)` gives at least one piece and no piece contains the separator |
| `Js.JoinSplit` | siparis-backend/middleware/auth.js:7 | joining the pieces of a split with the separator gives back the header |
| `Js.SplitSingle` | siparis-backend/middleware/auth.js:7 | a split has exactly one piece exactly when the separator does not occur |
| `Js.ParseIntDecimal` | siparis-backend/routes/user.js:88 | `parseInt` reads back the decimal rendering of every id |
| `Js.ParseIntNegative` | siparis-backend/routes/user.js:88 | a leading minus sign yields the negated number |
| `Js.ParseIntNaN` | siparis-backend/routes/user.js:88 | a string that starts with neither white space, a sign nor a digit is NaN |
| `Crypto.Hash` | siparis-backend/routes/auth.js:27 | a hash starts with the `$2a$10$` version-and-cost prefix followed by the 22-character salt it was made with |
| `Crypto.CompareHash` | siparis-backend/routes/auth.js:60 | `bcrypt.compare(p, hash(q))` succeeds exactly when `p == q` |
| `Query.Rows` | siparis-backend/routes/orders.js:12-15 | every row listed is a row of the table |
| `Query.RowsUnique` | siparis-backend/routes/orders.js:12-15 | on a table whose rows carry their own key, a scan lists ids strictly ascending, so each row once |
| `Query.RowsComplete` | siparis-backend/routes/orders.js:12-15 | when every id is below the counter, a value is listed exactly when it is a row of the table |
| `Query.Filter` | siparis-backend/routes/orders.js:13 | `WHERE`: every row satisfying the condition is kept as often as it occurs, every other row is dropped |
| `Query.UniqueSub` | siparis-backend/routes/orders.js:13 | a `WHERE` or an `ORDER BY` over rows with unique ids keeps the ids unique |
| `Query.FirstKey` | siparis-backend/routes/auth.js:53-59 | `results[0]`: the lowest id in range whose row satisfies the condition, or None when no row does |
| `Query.Insert` | siparis-backend/routes/orders.js:13 | inserting adds exactly one occurrence of the element |
| `Query.InsertSorted` | siparis-backend/routes/orders.js:13 | inserting into a sorted sequence keeps it sorted |
| `Query.SortByKey` | siparis-backend/routes/orders.js:13 | `ORDER BY` is a permutation of its input |
| `Query.SortByKeySorted` | siparis-backend/routes/orders.js:13 | `ORDER BY` output is ascending in the key |
| `Query.SortByKeyMembers` | siparis-backend/routes/orders.js:13 | `ORDER BY` keeps exactly the input's elements |
| `AuthMiddleware.BearerToken` | siparis-backend/middleware/auth.js:7 | the token has no space, and is absent exactly when the header has no space |
| `AuthMiddleware.BearerTokenOf` | siparis-backend/middleware/auth.js:7-8 | for `<scheme> <token>[ ...]` the token read is exactly `<token>` |
| `AuthMiddleware.BearerTokenShape` | siparis-backend/middleware/auth.js:7-8 | conversely, a token read always sits between the first space and the next one |
| `AuthMiddleware.VerifyToken` | siparis-backend/middleware/auth.js:5-13 | 401 for a falsy header or a missing token; 403 exactly when verification fails; otherwise `next()` with the decoded payload |
| `AuthMiddleware.VerifyBearer` | siparis-backend/middleware/auth.js:10-13 | a well-formed bearer header is decided by verifying exactly its token |
| `AuthRoutes.StoreRefreshToken` | siparis-backend/routes/auth.js:71-74 | only the row with that id changes; it gets the token and an expiry 30 days after now |
| `AuthRoutes.StoreRetiresOldToken` | siparis-backend/routes/auth.js:66-74 | after a login stores a fresh token, no row holds the user's previous token, and tokens stay distinct |
| `AuthRoutes.StorePasswordHash` | siparis-backend/routes/auth.js:216-220 | only the owner's row changes, and only its password hash |
| `AuthRoutes.ReplaceTicket` | siparis-backend/routes/auth.js:154-158 | the new ticket is stored; the other tickets that remain are exactly those of other users, unchanged |
| `AuthRoutes.ReplaceLeavesOneTicket` | siparis-backend/routes/auth.js:154-158 | afterwards the user holds exactly one ticket, the new one |
| `AuthRoutes.Register` | siparis-backend/routes/auth.js:13-34 | 400 with no change when a field is missing or any user's email or name equals the given one under the column collation; otherwise 201 and exactly one new user with the hash, and the flag stored as 1 or 0 |
| `AuthRoutes.Login` | siparis-backend/routes/auth.js:49-83 | 400 for a missing field; 401 with no change unless the first user whose name equals the given one under the collation passes the password compare; on 200 only that user's token and expiry change, and the response carries its id, stored name and flag |
| `AuthRoutes.Refresh` | siparis-backend/routes/auth.js:96-126 | 400 without a token; 403 with no change exactly when no row holds it or verification fails; on 200 the row keyed by the decoded id gets the new token |
| `AuthRoutes.ForgotPassword` | siparis-backend/routes/auth.js:140-186 | 400 without email; 404 with no change when no email equals it under the collation; otherwise the first such user gets exactly one unused ticket expiring in 30 minutes, and the answer is 200 or, if the mail fails, 500 |
| `AuthRoutes.ResetPassword` | siparis-backend/routes/auth.js:195-224 | 200 exactly when a password is given and a ticket with the token is unused and unexpired; then only the owner's hash changes and the ticket is marked used; otherwise 400 with no change |
| `AuthRoutes.ResetTwice` | siparis-backend/routes/auth.js:200-214 | a second reset with the same token after a successful one answers 400, at whatever time it comes |
| `AuthRoutes.RefreshTwice` | siparis-backend/routes/auth.js:101-121 | a rotated refresh token presented again, at whatever time, answers 403 |
| `AuthRoutes.RegisterThenLogin` | siparis-backend/routes/auth.js:13-83 | on any database and under any collation, a registration succeeds exactly when no name or email collides, and then logging in with the same name and password answers 200 for the new row |
| `AuthRoutes.AliceScenario` | siparis-backend/routes/auth.js:13-224 | under any collation: register, log in, fail with a wrong password, request and redeem a reset; afterwards the new password logs in and the old one answers 401 |
| `AuthRoutes.LoginAccepted` | siparis-backend/routes/auth.js:53-74 | as the only user with a matching password, login answers 200 and stores the token |
| `AuthRoutes.LoginRefused` | siparis-backend/routes/auth.js:53-64 | as the only user with a non-matching password, login answers 401 with no change |
| `AuthRoutes.ForgotAccepted` | siparis-backend/routes/auth.js:145-158 | the first request for a known email issues ticket 1 |
| `AuthRoutes.ResetAccepted` | siparis-backend/routes/auth.js:200-222 | redeeming that ticket at once answers 200 and stores the new hash |
| `Community.ToggledLikes` | siparis-backend/routes/community.js:119-136 | the toggled like is present exactly when it was absent; every other like is unchanged |
| `Community.ToggleTwice` | siparis-backend/routes/community.js:119-136 | toggling twice restores the likes table |
| `Community.ToggleCount` | siparis-backend/routes/community.js:119-136 | a toggle changes that post's like count by exactly one, up or down |
| `Community.ToggleLike` | siparis-backend/routes/community.js:119-136 | `liked` is true exactly when no like existed before, and afterwards the like exists exactly when `liked` is true |
| `Community.CreatePost` | siparis-backend/routes/community.js:11-20 | 400 with no change without a body; otherwise exactly one new post by the requester, with a falsy title or image stored as NULL and `is_public` stored as 1 |
| `Community.UpdatePost` | siparis-backend/routes/community.js:60-68 | 200 exactly when the post exists and belongs to the requester, which rewrites it, with `is_public` stored as 1; otherwise 403 with no change |
| `Community.DeletePost` | siparis-backend/routes/community.js:81-102 | 401 for a falsy requester id; 200 exactly when the requester owns the post, which removes it; otherwise 403 with no change |
| `Community.JoinPosts` | siparis-backend/routes/community.js:41-42 | the join lists exactly the posts whose author exists |
| `Community.JoinPostsUnique` | siparis-backend/routes/community.js:41-42 | the join of posts with unique ids lists each post once |
| `Community.ListPosts` | siparis-backend/routes/community.js:34-44 | every row is a post with an existing author and the correct like flag and count; every such post is listed, once; rows are newest first |
| `Community.ParentOrNull` | siparis-backend/routes/community.js:156 | `parent_comment_id \|\| null`: no comment points at parent 0, and a non-zero parent is kept |
| `Community.AddComment` | siparis-backend/routes/community.js:149-156 | 400 with no change without content; otherwise exactly one new comment by the requester on that post, with a falsy parent stored as NULL |
| `Community.DeleteComment` | siparis-backend/routes/community.js:191-198 | 200 exactly when the comment's id and author match, which removes it; otherwise 403 with no change |
| `Community.UpdateComment` | siparis-backend/routes/community.js:214-226 | 400 without content; 200 exactly when id, author and post all match, which changes only the content; otherwise no change |
| `Community.JoinComments` | siparis-backend/routes/community.js:171-174 | the join lists exactly the comments of that post whose author exists |
| `Community.JoinCommentsUnique` | siparis-backend/routes/community.js:171-174 | the join of comments with unique ids lists each comment once |
| `Community.ListComments` | siparis-backend/routes/community.js:170-177 | every row is a comment of that post with its author's name; every such comment is listed, once; rows are newest first |
| `Orders.ListOrders` | siparis-backend/routes/orders.js:10-15 | 401 for a falsy requester id; otherwise exactly the requester's orders, each once, newest first |
| `Orders.DeletedOrderNotListed` | siparis-backend/routes/orders.js:157-167 | after a successful delete the order was listed before and is not listed after |
| `Orders.ScheduledOrNull` | siparis-backend/routes/orders.js:48-58 | no empty or invalid date reaches `scheduled_at`, and no valid one is dropped (the value is kept as the request's string) |
| `Orders.CreateOrder` | siparis-backend/routes/orders.js:46-72 | 401 with no change for a falsy requester id; otherwise exactly one new order by the requester, with total defaulting to 0, status to 'pending', and unusable dates to NULL |
| `Orders.PatchStatus` | siparis-backend/routes/orders.js:89-96 | 200 exactly when the requester owns the order, which changes only its status; otherwise 403 with no change |
| `Orders.UpdateOrder` | siparis-backend/routes/orders.js:119-138 | 200 exactly when the requester owns the order, which rewrites every editable column with total defaulting to 0 and scheduled date to NULL; otherwise 403 with no change |
| `Orders.DeleteOrder` | siparis-backend/routes/orders.js:157-167 | 200 exactly when the requester owns the order, which removes only that row; otherwise 403 with no change |
| `UserRoutes.UserExtensionality` | siparis-backend/routes/user.js:67 | two rows equal on the profile columns and on the rest are the same row |
| `UserRoutes.QualifiesIff` | siparis-backend/routes/user.js:59-61 | a text field qualifies exactly when it holds a character that is not white space |
| `UserRoutes.NewValueTrimmed` | siparis-backend/routes/user.js:59-61 | a stored text value is non-empty and neither starts nor ends with white space |
| `UserRoutes.Updated` | siparis-backend/routes/user.js:58-68 | reference row: each listed column takes its new value, every other column and every non-profile column keeps its old one |
| `UserRoutes.WriteIfListed` | siparis-backend/routes/user.js:59-62 | one column takes the request's value when listed, and nothing else changes |
| `UserRoutes.BuildUpdate` | siparis-backend/routes/user.js:58-62 | `fields` and `values` have equal length; a column is listed exactly when its field qualifies or a file was uploaded; each value is the stored text; columns keep the order name, email, bio, image |
| `UserRoutes.PushIfListed` | siparis-backend/routes/user.js:59-62 | one `if (...) push` step keeps the lists exact for the columns tried so far |
| `UserRoutes.RankInjective` | siparis-backend/routes/user.js:59-62 | the push order names each column once |
| `UserRoutes.Assign` | siparis-backend/routes/user.js:67 | one `col = ?` writes that column and no other |
| `UserRoutes.SetColumnsEffect` | siparis-backend/routes/user.js:66-68 | with distinct columns, `SET` writes each listed column with its bound value and leaves every other column unchanged |
| `UserRoutes.ExecuteUpdate` | siparis-backend/routes/user.js:66-68 | the last bound value selects the row; every other row is unchanged |
| `UserRoutes.BuiltUpdateIsUpdated` | siparis-backend/routes/user.js:58-68 | the built statement, executed, yields exactly the reference row |
| `UserRoutes.UpdateProfile` | siparis-backend/routes/user.js:58-78 | 400 with no change when nothing qualifies; otherwise only the listed columns of the requester's row change, and the answer is the row as re-read |
| `UserRoutes.OwnProfileOf` | siparis-backend/routes/user.js:25-32 | 404 exactly when the user is missing; otherwise the id and the name, email, bio and image columns of that row, and no password hash |
| `UserRoutes.PublicProfileAt` | siparis-backend/routes/user.js:88-99 | 500 exactly when `parseInt` gives NaN; 404 when the number names no row; otherwise id, name, bio and image of that row, without the email |
| `UserRoutes.PublicProfileOfId` | siparis-backend/routes/user.js:88-96 | `/profile/<id>` never answers 500; it shows the owner's own profile without the email, and answers 404 exactly when the own profile would |
| `UserRoutes.PublicProfileNaN` | siparis-backend/routes/user.js:88-99 | a path that does not start with a number answers 500 |
| `Challenges.LocalToken` | siparis-backend/routes/challenges.js:9-10 | a falsy header gives a falsy token; otherwise the second space-separated piece |
| `Challenges.LocalVerifyToken` | siparis-backend/routes/challenges.js:9-17 | 401 exactly without a token; 403 exactly when verification fails; otherwise `next()` with the payload |
| `Challenges.LocalGuardAgrees` | siparis-backend/routes/challenges.js:8-18 | the local copy decides every request exactly as the shared middleware |
| `Challenges.ListChallenges` | siparis-backend/routes/challenges.js:23-26 | exactly the requester's challenges, each once; those without a deadline first, the rest by ascending deadline |
| `Challenges.DeadlineOrder` | siparis-backend/routes/challenges.js:24 | ascending by deadline with NULL first means undated rows come before dated ones, and dated ones ascend |
| `Challenges.AddChallenge` | siparis-backend/routes/challenges.js:38-54 | 400 with no change without a title or deadline; otherwise exactly one new challenge by the requester with progress 0, returned as re-read |
| `Challenges.UpdateChallenge` | siparis-backend/routes/challenges.js:68-73 | always 200; only the requester's row with that id is rewritten, and any other request changes nothing |
| `Challenges.DeleteChallenge` | siparis-backend/routes/challenges.js:85-89 | always 200; only the requester's row with that id is removed, and any other request changes nothing |
| `Challenges.DeleteIsSilent` | siparis-backend/routes/challenges.js:85-89 | a stranger's delete and the owner's delete both answer 200, and only the owner's removes the row |

## Left out

- **Hashing and tokens.** The model does not capture bcrypt's cost factor, its one-wayness, or its truncation of passwords to 72 bytes. `Crypto.Hash` is an idealised injective stand-in.
- **JWT.** Signing, expiry and the two secrets are not modelled. Tokens are parameters, and `verify` is a function parameter.
- **Token freshness.** Two tokens signed in the same second for the same id are identical. The model instead requires every newly signed refresh token to differ from the stored ones (`FreshRefreshToken`), and every drawn reset token likewise (`FreshTicketToken`).
- **Mail.** The transport and the mail body are network I/O. Only the outcome is kept, as `mailDelivered`. The ticket is committed before the send whatever its outcome.
- **Dates.** Date parsing and formatting are not modelled. This covers the `date`/`time` fields added to each listed order (orders.js:17-24), `new Date(scheduled_at)` (a validity parameter), and the deadline strings of challenges, which are modelled as timestamps.
- Orders.ScheduledOrNull, Orders.CreateOrder: the source stores the parsed Date object, which the driver writes as a `YYYY-MM-DD HH:MM:SS` datetime. The model stores the request's string once it is known valid; the conversion into the DATETIME column is not modelled.
- Orders.CreateOrder, Orders.UpdateOrder: `total_amount` is kept as the exact number sent. Rounding to the column's declared precision is not modelled, because the schema is not part of this model.
- **Files.** Multer storage, the generated file name and the unlinking of the old image (user.js:10-19, 49-54) are file-system work. The uploaded file's stored name is a parameter.
- **Server errors.** Apart from a NaN profile path, the `catch` blocks answering 500 are not modelled: database errors, a missing foreign key, a JSON value of the wrong type. Each handler's database is assumed to answer.
- **Path ids.** MySQL's conversion of path parameters to numbers is not modelled; path ids are naturals. The exception is `/profile/:id`, which the code reads with `parseInt`. A NaN there is written into the SQL text as `NaN`, which MySQL rejects, so the handler answers 500.
- UserRoutes.PublicProfileAt: numbers beyond 2^53, where JavaScript loses precision or writes `1e+21`, are not modelled; `parseInt` yields the exact integer.
- **JSON body types.** Request fields are strings, numbers (`total_amount` a real, ids and progress integers) or absent. Other JSON values (objects, booleans, arrays) are not modelled.
- **Cascades.** Deleting a post or a user does not cascade to likes or comments in this model. The schema is not part of this model.
- **Concurrency.** Check-then-act races between requests are not modelled; each handler is one atomic method. This includes the gap between reset-password's two `UPDATE`s, and between register's uniqueness check and its insert.
- **Other files.** siparis-backend/app.js, siparis-backend/db.js, siparis-backend/middleware/upload.js, siparis-backend/routes/womenMap.js and chatbot-server/index.js are not part of this model. They hold wiring, the connection pool, upload set-up, a single `SELECT *`, and an HTTP pass-through.
- **`Community.ListPosts` and `Community.ListComments`.** Rows with equal `created_at` may come out in any order. The model fixes one; the contract only promises the descending order.
- AuthRoutes.Refresh, AuthRoutes.ResetPassword: these compare the `refresh_token` and `token` columns exactly. Under a case-insensitive collation, a token that differs only in case would also match the stored row. Names and emails do take the collation as the parameter `sameText`.
- **`UserRoutes.UpdateProfile`.** As in the code, no uniqueness check is made on a changed name or email. The model does not require uniqueness of either column.
