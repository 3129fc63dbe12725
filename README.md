# Masterblog API — a verified model of the post store

Masterblog is a small blog backend. A `Post` is a row of the `posts` table with six columns:
- `id`, an auto-incremented primary key;
- `title`, `content` and `author`, non-null strings;
- `created`, a date defaulting to today;
- `updated`, a nullable date.

A `BlogManager` owns the database session. It lists posts, with an optional sort column and direction. It also adds, fetches, updates and deletes posts by id. It searches posts with case-insensitive substring filters. Its `validate_data` checks the required fields of a new post.

This project models that core in Dafny and proves what it promises.

- `wrappers.dfy` defines `Option` and `Result`.
- `text.dfy` (module `Text`) covers ASCII case mapping, `str.capitalize`, substring search, `", ".join`, code-point string order and decimal rendering.
- `dates.dfy` (module `Dates`) covers calendar dates in the range `datetime.date` accepts. It defines their ISO 8601 calendar-date text (`YYYY-MM-DD`, section 5.2.1.1 of ISO 8601:2004, which `date.isoformat` produces) and the parser that reads it back. It proves two things:
  - the text round-trips;
  - the text order is chronological order.
- `values.dfy` (module `Values`) holds the dynamically typed values the model lets a Post attribute or a request field hold: null, booleans, integers, text and dates. It also gives the order in which the store compares them, taking the database to be SQLite: storage classes, BINARY collation, dates stored as ISO text.
- `storage.dfy` (module `Storage`) holds the column table, the `Record` of a Post's attributes, `to_dict`, and the class `Post`:
  - its constructor `Post(**kwargs)`;
  - `SetAttr`;
  - `Update`, the imperative loop of `Post.update`, proved against the function `Patched`.
- `query.dfy` (module `Query`) models what the store does for a query:
  - a full scan that lists every key once;
  - `ORDER BY`, an insertion sort proved to yield an ordered permutation;
  - the conjunction of `ilike('%value%')` filters.
- `manager.dfy` (module `Manager`) holds the class `BlogManager`. Its state is a table from primary key to `Post` object plus the next key to hand out. Its invariant `Valid` says:
  - every post's `id` is its key;
  - every row fits the schema;
  - every key is below the counter.

  Each operation states its result and the whole new table, through `Rows()`.

The session's `commit` makes no difference to the in-memory table. `date.today()` becomes the parameter `today`.

## Model

| member | source | states |
|---|---|---|
| Storage.Post.constructor | backend/storage/post.py:29-34 | `Post(**kwargs)` sets exactly the columns given and leaves the others `None` (the loop over the columns from a blank record) |
| Storage.OverwriteBlank | backend/blogmanager.py:63-64 | building a Post from keyword arguments takes each column from the arguments when present and `None` otherwise |
| Storage.Post.SetAttr | backend/storage/post.py:66 | `setattr` changes the one named column and keeps the other five |
| Storage.FieldOfSetField | backend/storage/post.py:66 | reading a column after `setattr` gives the new value for that column and the old value for every other column |
| Storage.OverwriteField | backend/storage/post.py:64-66 | after the column loop, a column holds `data`'s value if and only if the loop visited it and `data` has it; otherwise it keeps its old value |
| Storage.Post.Update | backend/storage/post.py:55-67 | the loop over the columns followed by the `updated` stamp leaves the post equal to `Patched(old, data, today)`, with `updated == today` |
| Storage.UpdateOverwritesExactly | backend/storage/post.py:64-67 | `update` overwrites a column if and only if its name is a key of `data`, `id` included; every other column is kept; `updated` is today even when `data` has its own `updated` |
| Storage.UpdateIgnoresUnknownKeys | backend/storage/post.py:64-66 | keys of `data` that name no column make no difference to the update |
| Storage.UpdateWithNoData | backend/storage/post.py:67 | an update with empty data changes nothing but `updated`, which becomes today |
| Storage.ToDictShape | backend/storage/post.py:45-53 | `to_dict` has exactly the six column names as keys; a date column becomes ten-character `YYYY-MM-DD` text that parses back to the date; any other value, `None` included, passes through unchanged |
| Storage.ToDictRoundTrip | backend/storage/post.py:36-53 | `to_dict` loses nothing: reading the dictionary back gives the stored row |
| Storage.DateReadsBack | backend/storage/post.py:49-50 | a date column, or a null `updated`, reads back from its serialised form |
| Storage.ToDictInjective | backend/storage/post.py:45-53 | two stored rows with the same `to_dict` are the same row |
| Dates.PadReadsBack | backend/storage/post.py:50 | zero padding writes exactly `width` digits, which denote the padded number |
| Dates.IsoRoundTrip | backend/storage/post.py:49-50 | `isoformat` text has `-` at indices 4 and 7 and digits elsewhere, and it parses back to the same date |
| Dates.IsoInjective | backend/storage/post.py:49-50 | distinct dates never share an ISO text |
| Dates.IsoOrderIsChronological | backend/blogmanager.py:44-48 | comparing ISO texts character by character is comparing the dates chronologically |
| Values.DateValuesChronological | backend/blogmanager.py:44-48 | the store orders two date values, and their serialised texts, exactly as the calendar does |
| Values.ValueLeTotal | backend/blogmanager.py:44-48 | any two stored values are comparable under the store's `ORDER BY` order |
| Values.ValueLeTransitive | backend/blogmanager.py:44-48 | the store's `ORDER BY` order is transitive |
| Text.ContainsIff | backend/blogmanager.py:130 | the substring scan succeeds if and only if the pattern occurs at some position |
| Text.JoinContainsEach | backend/blogmanager.py:38 | every item of a `", ".join` can be found in the joined text |
| Text.ContainsInContext | backend/blogmanager.py:38 | text found in the joined list is still found once the list is embedded in the message |
| Query.Scan | backend/blogmanager.py:42-50 | `query(Post).all()` lists every stored key exactly once |
| Query.EnumeratedMembers | backend/blogmanager.py:50 | every key a query lists is a stored key |
| Query.SerialisedRows | backend/blogmanager.py:51 | serialising the listed keys gives, in listed order, each row's `to_dict` |
| Query.InsertPermutes | backend/blogmanager.py:44-48 | one insertion step adds exactly the inserted key |
| Query.InsertKeepsOrder | backend/blogmanager.py:44-48 | inserting into a list ordered by the sort column keeps it ordered |
| Query.SortOrdersPermutation | backend/blogmanager.py:44-50 | `order_by(col)` / `order_by(col.desc())` yields a permutation of the rows, non-decreasing (or non-increasing) in the sort column |
| Query.PermutedEnumeration | backend/blogmanager.py:42-50 | reordering a full listing keeps it a full listing: every post once |
| Query.Filter | backend/blogmanager.py:128-131 | `filter(*filters)` keeps each listed key whose row satisfies every filter, as often as it was listed, and drops every other key |
| Query.MatchIsCaseInsensitiveSubstring | backend/blogmanager.py:130 | `ilike('%value%')` holds exactly when the lower-cased value occurs somewhere in the lower-cased text of the column |
| Manager.InvalidSortMessageListsColumns | backend/blogmanager.py:34-38 | the invalid-sort message names every column |
| Manager.ValidateFromPassesIffSupplied | backend/blogmanager.py:145-154 | from any column on, the validation loop reports nothing if and only if every required column after that point is present and truthy |
| Manager.ValidateFromReportsFirstMissing | backend/blogmanager.py:145-152 | when the loop reports, the message names the first required column that is missing or falsy |
| Manager.UnknownFieldMessageNamesField | backend/blogmanager.py:129-130 | the failure for a search field that is not a column names that field |
| Manager.BlogManager.ValidateData | backend/blogmanager.py:134-154 | `validate_data` returns `None` if and only if every required column is supplied; otherwise it returns the message for the first one missing |
| Manager.ValidationOrder | backend/blogmanager.py:145-154 | the required columns are `title`, `content` and `author`, checked in that order; `id` (primary key), `created` (default) and `updated` (nullable) are never required |
| Manager.RequiredMessageOfLowerName | backend/blogmanager.py:152 | the message for a lower-case column name is that name with its first letter upper-cased, followed by ` is required.` |
| Manager.InsertedRowFromData | backend/blogmanager.py:63-64 | a new post keeps the given title, content and author and gets the assigned key; `created` is today unless a date was given; `updated` is `None` unless one was given; the row fits the schema |
| Manager.UpdatedRowStorable | backend/blogmanager.py:97-98 | an accepted update of a stored row yields a row that fits the schema, under a key that is its own or free |
| Manager.AsWrittenSerialisationFails | backend/blogmanager.py:51 | as written, a Post instance has no attribute `Post`, so serialising any non-empty list of posts fails |
| Manager.BlogManager.constructor | backend/blogmanager.py:11-21 | a manager opened on an empty database holds no posts and satisfies its invariant |
| Manager.BlogManager.GetAllPosts | backend/blogmanager.py:23-51 | it checks the sort field first, then the direction, and returns the matching error messages; it succeeds if and only if both are valid; then it returns every stored post once, as its `to_dict`, ordered by the sort column (descending for `desc`) when one is given; the table is untouched |
| Manager.BlogManager.AddPost | backend/blogmanager.py:53-68 | it stores exactly one new row, built from `data`'s column entries under a key not in use; every other row is unchanged; it returns that row's `to_dict` |
| Manager.BlogManager.NewPost | backend/blogmanager.py:63-64 | the new Post object, once the INSERT completes it, is the row `InsertedRow` describes |
| Manager.BlogManager.Attach | backend/blogmanager.py:66-67 | adding a keyed post adds its row under its key and changes nothing else |
| Manager.BlogManager.GetPostById | backend/blogmanager.py:70-81 | it returns the post stored under the id, or null when there is none |
| Manager.BlogManager.UpdatePost | backend/blogmanager.py:83-99 | for a missing id it returns `None` and leaves the table unchanged; otherwise only that row changes, as `Post.update` says (moving to the new key when `data` rewrites `id`), and it returns the row's `to_dict` |
| Manager.BlogManager.Rekey | backend/blogmanager.py:98 | flushing an updated post keeps the other rows and files the updated row under its (possibly new) id |
| Manager.BlogManager.DeletePost | backend/blogmanager.py:101-116 | it returns `true` if and only if the id was stored; afterwards the id is gone and every other row is unchanged |
| Manager.BlogManager.SearchPosts | backend/blogmanager.py:118-132 | it returns every post, each once, for which each `(field, value)` of the query names a column whose text contains the value, ignoring ASCII case; a field that is not a column is an error; an empty query returns every post |

## Left out

- The HTTP routes (`backend/backend_app.py`) and the browser script (`frontend/static/main.js`) are not part of this model. They only forward to the manager or render its results.
- Engine creation, schema creation and the session (backend/blogmanager.py:18-21) become an in-memory table. `commit` makes no difference to it, and the `database_url` is not modelled.
- The wall clock: `date.today()` is the parameter `today` of the operations that read it.
- `ILIKE` is modelled as ASCII lower-casing plus a plain substring test. `%` and `_` inside the search value are not wildcards in the model. Collation and Unicode case folding are not modelled.
- Search on a non-text column compares the text SQLite reads from the value (decimal for integers, ISO text for dates). The database's own coercion rules are not modelled beyond that.
- Concurrency and several sessions sharing one database are not modelled.
- Primary keys are handed out from a counter above every key ever stored. The database's own autoincrement policy is not modelled beyond "a key not in use".
- Floats, arrays and objects in request data are not modelled. (`validate_data` would treat `0.0`, `[]` and `{}` as falsy.)
- The database is assumed to be SQLite, for storage-class order, BINARY collation and ASCII `lower()`. The database URL comes from a module that is not part of this model.
- SQLite's conversion of numbers and booleans to text, when they are stored in a text column, is not modelled.
- Manager.BlogManager.AddPost: the precondition `Insertable` restricts the model to validated, type-correct data:
  - validation passed, which is stronger than `NOT NULL`: an empty title would be accepted by the database;
  - text columns hold text;
  - dates are dates;
  - an explicit `id` is a free integer.

  What the database does with other data (coercion to text, integrity errors) is not modelled.
- Manager.BlogManager.UpdatePost: the precondition `Updatable` restricts the model to type-correct data: text stays text, `created` stays a date, and a new `id` is a free integer. What the database does with other data is not modelled.
- Manager.BlogManager.SearchPosts: a field that names no column returns an explicit `Failure` whose message names the field. The source raises `AttributeError` instead. It comes from `getattr` when the name is no attribute of the class. It comes from `.ilike` when the name is a class attribute that is not a column, such as `to_dict` or `metadata`. The exception text is not modelled.
- Manager.BlogManager.GetAllPosts: the order among rows with equal sort values is left unconstrained, as SQL leaves it. A null `updated` sorts first in ascending order, following SQLite's convention that NULL comes before every other value.
- Manager.ValidationOrder: states the messages as `RequiredMessage("title")` and so on. `RequiredMessageOfLowerName` spells out that such a message is the capitalised name followed by ` is required.`.

## Findings

| source | as written | input that shows it | evidently intended | confidence | as-written member | corrected member |
|---|---|---|---|---|---|---|
| backend/blogmanager.py:51 (also :68, :97, :99, :132) | `post.Post.to_dict()` looks up an attribute `Post` on a Post instance, and an instance has no such attribute; `post.Post.update(data)` at :97 fails the same way | `get_all_posts()` or `search_posts({})` with one stored post; `add_post` after its commit; `update_post` on a stored id | `post.to_dict()` (and `post.update(data)`): serialise the row, which reads back to it | high; not executed | Manager.AsWrittenSerialisationFails | Storage.ToDictRoundTrip |
