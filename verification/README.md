# Anonymous bulletin board — a Dafny model

The system is a small anonymous bulletin board written as a single Flask
application. Users write posts, like them, comment on them, and delete posts
or comments. Deletion is guarded by an optional per-item delete code, or by a
process-wide admin token. The front page lists posts newest first. It can be
filtered by a case-insensitive search over author and content, and shows a
comment count per post.

This project models the application's logic as pure functions over an
in-memory store. The store holds two tables, `posts` and `comments`, as maps
from primary key to immutable records.

- `nullable.dfy` (module `Nullable`): the `Option` type for missing form
  fields, unset environment variables and SQL `NULL` columns.
- `text.dfy` (module `Text`): Python's `str.strip()`, using Python's own set
  of whitespace code points. Also the `clean` helper, the `x or None`
  blank-to-null idiom, ASCII case folding, substring search, and
  `str.replace(old, new, 1)`.
- `config.dfy` (module `Config`): the `DATABASE_URL` default and the rewrite
  of the `postgres://` scheme.
- `board.dfy` (module `Board`): the `Post` and `Comment` records, the
  delete-authorisation rule, and the five state-changing handlers as store
  transitions. Each transition returns an outcome (`Ok`, `NotFound`,
  `ValidationError` or `AuthError`) and the new store. The store invariant
  `Valid` says four things:
  - content is never blank;
  - blank optional fields are stored as null;
  - rows sit under their own key;
  - every comment's `postId` names an existing post.
- `requests.dfy` (module `Requests`): all POST routes as one `Request` type.
  Its contract says four things about every request:
  - the invariant is kept;
  - a rejected request changes nothing;
  - a row is never edited except for its like counter;
  - like counters never go down.

  The module also holds a trace-level invariant lemma and the "N likes give
  N" property.
- `listing.dfy` (module `Listing`): the front-page query (filter, newest-first
  order, per-post comment counts) and the post-detail query (comments oldest
  first).
- `sorting.dfy` (module `Sorting`): insertion sort of row ids by an integer
  key, which stands in for `ORDER BY`, and the listing of a set's elements.

Inputs the program reads from outside become parameters:
- environment variables `DATABASE_URL` and `ADMIN_TOKEN`, as `Option<string>`;
- form and query-string fields, as `Option<string>`, where `None` is a
  missing field;
- the clock, as a natural number `now`.

Two details of the code are easy to miss:
- The admin check cleans only the submitted token. The configured token is
  compared as it is, so a configured token with surrounding whitespace can
  never match (`Board.PaddedAdminTokenNeverMatches`).
- A successful comment deletion reports the parent post id, read before the
  row is removed (`Ok(postId)`).

## Model

| member | source | states |
|---|---|---|
| `Text.Strip` | app.py:45-46 | The result is the input with a whitespace-only prefix and a whitespace-only suffix removed. It has no whitespace at either end. |
| `Text.StripUnique` | app.py:45-46 | Those two facts determine the stripped text uniquely, so they fully define `strip()`. |
| `Text.Clean` | app.py:45-46 | A missing field cleans to `""`. A present one cleans to its stripped form, which has no surrounding whitespace. |
| `Text.CleanIdempotent` | app.py:45-46 | `clean(clean(s)) == clean(s)`. |
| `Text.CleanEmptyIffBlank` | app.py:45-46 | A field cleans to `""` exactly when it is missing or whitespace only. |
| `Text.StripIdempotent` | app.py:45-46 | Stripping twice is the same as stripping once. |
| `Text.OptionalField` | app.py:68 | `clean(x) or None` is null exactly for missing or blank input. Otherwise it is the non-empty stripped text of the input. |
| `Text.ReplaceFirst` | app.py:15 | `s.replace(old, new, 1)`. Without an occurrence, `s` is returned unchanged. Otherwise only the first occurrence is replaced and the rest of `s` is kept. |
| `Text.IndexOf` | app.py:15 | Finds the first occurrence of a pattern, and reports none exactly when the pattern does not occur. |
| `Config.DatabaseUrl` | app.py:11-15 | Unset or empty gives `sqlite:///webread.db`. A `postgres://` URL has only that prefix replaced by `postgresql://`. Any other URL is unchanged. The result never starts with `postgres://`. |
| `Config.DatabaseUrlIdempotent` | app.py:11-15 | Normalising an already normalised URL changes nothing. |
| `Board.LikeCount` | app.py:84 | `likes or 0`: a null counter reads as 0, a stored one as its value. |
| `Board.Valid` | app.py:22-37 | The store invariant: every row sits under its own key, content is non-empty and stripped, optional fields are null or non-empty stripped text, and every comment's `postId` names an existing post. The empty board satisfies it, and a valid board with no posts has no comments. |
| `Board.CodeMatches` | app.py:91-94 | The item has a non-empty delete code and the cleaned submitted code is non-empty and equal to it. Only a submitted field can match, and only a stripped, non-empty stored code can be matched. |
| `Board.AdminMatches` | app.py:92-94 | An admin token is configured and non-empty, and the cleaned submitted token equals it exactly. The configured token is not cleaned, so only a stripped, non-empty token can match. |
| `Board.Authorized` | app.py:94 | Deletion is allowed exactly when the code path or the admin path matches. Either way it needs a secret (an item code or an admin token) and a submitted field. |
| `Board.NoCodeNeedsAdmin` | app.py:94 | An item without a delete code is deletable exactly when the admin path matches. |
| `Board.NoSecretNoDelete` | app.py:123 | With no delete code and no admin token configured, nothing authorises deletion. |
| `Board.PaddedAdminTokenNeverMatches` | app.py:92-94 | Only the submission is cleaned, so a configured admin token with surrounding whitespace never matches. Deletion then depends on the code path alone. |
| `Board.PaddedCodeNeverMatches` | app.py:91-94 | A stored code with surrounding whitespace can never be matched by a submitted code. |
| `Board.OwnCodeAuthorizes` | app.py:120-123 | Submitting the item's own code, even padded with whitespace, authorises deletion. |
| `Board.FreshId` | app.py:23 | A new primary key is positive and not currently in use. |
| `Board.Write` | app.py:61-72 | Blank content gives `ValidationError` and changes nothing. Otherwise exactly one post is added, under a key not currently in use, and all other rows are unchanged. The new post has the cleaned content, null-if-blank author and delete code, `likes == 0`, and the current time. The invariant is kept. |
| `Board.LikePost` | app.py:81-86 | An unknown id gives `NotFound` and changes nothing. Otherwise exactly that post's counter goes from `likes or 0` to one more, and every other field and row is unchanged. |
| `Board.WithoutCommentsOf` | app.py:29 | After the cascade no surviving comment points at the deleted post, and the survivors are a sub-map of the old comments, none of them edited, and every comment of another post survives. |
| `Board.CascadeKeepsIntegrity` | app.py:29 | If every comment pointed into a set of live posts, then after the cascade every survivor points into that set minus the deleted post. No foreign key is left dangling. |
| `Board.DeletePost` | app.py:88-101 | An unknown id gives `NotFound` and an unauthorised request gives `AuthError`, both with no change. An authorised request removes the post and exactly its comments and leaves every other row intact. The invariant is kept. |
| `Board.AddComment` | app.py:103-115 | A missing parent gives `NotFound` and blank content gives `ValidationError`, both with no change. Otherwise exactly one comment is added under a fresh key, with that parent, the cleaned content and null-if-blank fields. The invariant is kept. |
| `Board.DeleteComment` | app.py:117-131 | An unknown id gives `NotFound` and an unauthorised request gives `AuthError`, both with no change. Otherwise only that comment is removed and the outcome names its parent post. The invariant is kept. |
| `Requests.Apply` | app.py:59-131 | Every request keeps the invariant, and a rejected request changes nothing. Existing posts change only in their like counter, which never decreases. New posts start at 0 likes. Surviving comments are unchanged. |
| `Requests.RunPreservesValid` | app.py:22-131 | Any sequence of requests keeps the store invariant `Valid`. Content is non-null by the schema (app.py:25, 35) and non-blank because the handlers reject blank content (app.py:65, 109). Comment foreign keys name existing posts because of the parent check (app.py:105) and the `delete-orphan` cascade (app.py:29); the database itself need not enforce them. |
| `Requests.LikeManyCounts` | app.py:83-84 | `n` likes raise the counter by exactly `n` and touch nothing else. |
| `Requests.WriteThenLike` | app.py:84 | A freshly written post liked `n` times has `likes == n`. |
| `Requests.WriteExample` | app.py:62-68 | Writing author "Ann" with content "Hello" stores exactly those, with a null delete code and 0 likes. |
| `Requests.DeletedPostIsGone` | app.py:95-96 | After an authorised post deletion, liking or commenting on that id is a 404, and no comment refers to it. |
| `Text.ContainsIgnoreCase` | app.py:53-54 | The `ILIKE '%q%'` test, with ASCII case folding: the empty pattern matches any text, and a pattern longer than the text never matches. |
| `Listing.Matches` | app.py:53-54 | `author ILIKE '%q%' OR content ILIKE '%q%'`: a null author never matches. The empty query matches every post, and a query longer than both author and content matches none. |
| `Listing.Selected` | app.py:50-54 | An empty query selects every post. Otherwise a post is selected exactly when its non-null author or its content contains the query, ignoring case. |
| `Listing.CountByPost` | app.py:56 | Each post with comments has an entry equal to its number of comments. Posts without comments have no entry. |
| `Listing.Index` | app.py:48-57 | The echoed query is the cleaned query. The listing is a permutation of the selected posts, each exactly once, ordered newest first. The counts are those of `CountByPost`. |
| `Listing.Detail` | app.py:75-79 | An unknown post gives a 404. Otherwise the result is the post and a permutation of its comments, ordered oldest first. |
| `Listing.BlankQueryListsAll` | app.py:50-52 | A missing or whitespace-only query lists every post. |
| `Listing.SearchIgnoresQueryCase` | app.py:53-54 | Searching for `q` or for its lower-cased form selects the same posts. |
| `Listing.AuthorSearchExample` | app.py:53-54 | The query "ann" matches a post whose author is "Ann". |
| `Listing.CountsOnlyExistingPosts` | app.py:56 | In a valid store every counted post id names an existing post. |
| `Sorting.SortDesc` | app.py:55 | The result is a permutation of the input, with keys non-increasing from left to right. |

## Left out

- HTTP routing, templates, flashed messages and redirects are not modelled. Each handler's response is reduced to an `Outcome`. `Ok` carries the post id the handler acted on or redirects to.
- SQLAlchemy sessions and commits, `ensure_db`/`create_all` with its start-up print, `SECRET_KEY`, and `app.run` with its `PORT` setting are left out. They are I/O and calls into foreign libraries.
- Environment reads are not modelled; `DATABASE_URL` and `ADMIN_TOKEN` are parameters.
- Real timestamps from `datetime.utcnow` are replaced by a caller-supplied natural-number clock. The order among rows with equal timestamps is not promised.
- Listing.Matches: the search uses ASCII lower-casing and plain substring matching. SQL `ILIKE` differs in three ways. First, `%` and `_` in the query act as unescaped wildcards. Second, case folding beyond ASCII depends on the database. Third, on PostgreSQL a backslash is the default escape character, so a `\` in the query escapes the next character: the query `a\b` matches text containing `ab`, not `a\b`. On SQLite the condition is emitted as `lower(x) LIKE lower(y)` with no escape character.
- The column length limits `String(80)` and `String(32)` are not checked by the code, and the model does not assume them. A database that enforces them would reject long input.
- Integer widths of ids and the like counter are not modelled; both are unbounded naturals.
- Concurrency is not modelled: requests are served one after another. The like handler is a read-modify-write: it loads the row, computes `(likes or 0) + 1` in Python, and writes that value back on commit. Two concurrent likes can therefore both read the same count and both write the same new value, losing one increment (for example under PostgreSQL's default READ COMMITTED isolation). The sequential model cannot show this.
- Board.FreshId: the contract promises only that a new id is not currently in use. The body picks one past the largest key, as SQLite does, so ids freed by a delete may be reused. Other databases hand out ids differently.
- Listing.Index: returns the ordered post ids. The rows shown are `st.posts[id]`.
