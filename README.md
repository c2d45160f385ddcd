# Contact manager (CRMOS) — a verified model

CRMOS is a small Flask web application that keeps an address book in SQLite.
This project models two of its versions in Dafny:

- **Version 2** (`version2/crmos2.py`) has per-user contacts with e-mail and
  category columns, per-user categories, paging on the listing, and a CSV export.
- **Version 1** (`version1/crmos.py`) has a single contacts table shared by every
  signed-in user, with no e-mail and no paging.

The model keeps these representations:

- **Tables.** A SQLite table is a sequence of rows in rowid order. An `AUTOINCREMENT`
  column is a counter field that only grows.
- **Handlers.** Each request handler is a method of an `App` class whose fields are
  the tables, the counters and the session cookie. The message a handler flashes,
  and the redirect it answers with, become an `Outcome` value.
- **Pages.** A rendered page becomes the values it is rendered with.

The pure parts live in modules of their own:

- `Text`: Python's `str.strip()`.
- `Forms`: reading a form field with a default.
- `Validation`: the three validators with their regular expressions, including
  `$` matching before one final newline.
- `SqlLike`: SQLite's `LIKE` with `%`, `_` and ASCII case folding.
- `Ordering`: `ORDER BY`.
- `Tables`: `WHERE` / `DELETE ... WHERE`.
- `Pagination`: `LIMIT ? OFFSET ?` and the page arithmetic.
- `CsvExport`: the export document.
- `Accounts`: the users table and login.
- `ContactsV1` / `ContactsV2`: rows, form handling and row-level effects of the writes.

`AppV1` and `AppV2` hold the handlers themselves.

Each handler method states its whole effect:

- the outcome for every branch, in the source's order of checks;
- the new table contents, as a function of the old ones;
- that the table invariant `Valid()` is preserved. The invariant says ids are strictly
  increasing and below the next AUTOINCREMENT value.

Lemmas relate those functions to what the application promises:

- an update or delete touches only the row owned by the signed-in user;
- reading back after a write gives the written values;
- the listing's WHERE clause means "owned, matching the search, in the category";
- the LIKE test with `%search%` is a case-insensitive substring test;
- the pages concatenate to the whole ordered result;
- the export has one line per contact.

A failed edit re-renders the stored row, not the submitted values
(`version2/crmos2.py:339-349`, `version1/crmos.py:188-193`); `Edit` returns that
stored row.

Python's `sqlite3` binds an integer parameter as a signed 64-bit value and raises
`OverflowError` for one outside that range. No handler catches it (they catch
`sqlite3.Error` only), so the request ends in the 500 error page. The model calls
that outcome `ServerError`; it is reached by an `<int:id>` route given an id outside
64 bits and by a listing page whose offset `(page-1)*10` is outside 64 bits.

## Model

| member | source | states |
|---|---|---|
| Text.Strip | version2/crmos2.py:144-145 | `str.strip()`: the result has no whitespace at either end and is no longer than the input |
| Text.StripInfix | version2/crmos2.py:278-283 | stripping only removes whitespace: the result is a contiguous piece of the input with nothing but whitespace before and after it |
| Text.StripEmpty | version2/crmos2.py:405-410 | a stripped field is empty exactly when the submitted text is all whitespace, so `if not name` rejects blank names |
| Text.StripIdempotent | version2/crmos2.py:278-283 | stripping an already stripped value changes nothing |
| Forms.FormValue | version2/crmos2.py:278-283 | `request.form.get(key, default).strip()`: stripped; the default when the key is absent; empty iff the submitted text is all whitespace |
| Validation.ValidateName | version2/crmos2.py:107-108 | a name is valid iff its stripped length is at least 2; shorter inputs always fail (version1/crmos.py has the same validator) |
| Validation.StrippedName | version2/crmos2.py:285-287 | for the already stripped form value the check is plain `len >= 2` |
| Validation.ValidatePhone | version2/crmos2.py:110-114 | empty is valid; otherwise `^[\d\s\-\+\(\)]{7,20}$` holds: 7–20 allowed characters, or 20 of them and one final newline (version1/crmos.py has the same check) |
| Validation.PhoneMatchShape | version2/crmos2.py:113-114 | `re.match` with `$` accepts exactly the 7–20 character class strings and those followed by a single `\n` |
| Validation.StrippedPhone | version2/crmos2.py:289-291 | for a stripped phone value: valid iff empty or 7–20 characters of the class |
| Validation.PhoneExamples | version2/crmos2.py:110-114 | `"12"` is rejected, `"+1 (555) 123-4567"` and `""` are accepted |
| Validation.ValidateEmail | version2/crmos2.py:116-120 | the empty address is valid; an accepted non-empty one is at least six characters long, starts with a local-part character and contains `@` |
| Validation.EmailParts | version2/crmos2.py:116-120 | an accepted non-empty address has exactly one `@` after a non-empty local part, a non-empty domain, a `.` and at least two letters, then at most one newline |
| Validation.EmailAccepted | version2/crmos2.py:116-120 | conversely every `local@domain.tld` built from the allowed classes with a TLD of two or more letters is accepted |
| Validation.EmailNeedsAt | version2/crmos2.py:116-120 | a non-empty address without `@` is rejected |
| Validation.StrippedEmailEnds | version2/crmos2.py:293-295 | a stripped accepted address ends in its letter-only TLD of length at least 2 |
| SqlLike.Like | version2/crmos2.py:230-233 | SQLite `LIKE`; for a pattern without `%` or `_` it holds iff the value has the pattern's length and equals it character by character ignoring ASCII case |
| SqlLike.SearchPattern | version2/crmos2.py:232 | `f"%{search}%"`: the search text wrapped in one `%` at each end |
| SqlLike.LikeAnything | version2/crmos2.py:232 | the pattern `%` matches every string |
| SqlLike.LikePrefix | version2/crmos2.py:232 | for a wildcard-free `t`, `s LIKE t%` iff `t` matches case-insensitively at the start of `s` |
| SqlLike.LikeSuffix | version2/crmos2.py:232 | `s LIKE %q` iff some suffix of `s` is LIKE `q` |
| SqlLike.SearchIsSubstring | version2/crmos2.py:230-233 | for a search text without `%`/`_`, `LIKE '%search%'` holds iff the text occurs in the value ignoring ASCII case |
| Ordering.NameLeTotal | version2/crmos2.py:239 | the BINARY collation used by `ORDER BY name` compares any two names |
| Ordering.NameLeTransitive | version2/crmos2.py:239 | the collation is transitive |
| Ordering.NameLeAntisymmetric | version2/crmos2.py:239 | two names each ordered before the other are equal |
| Ordering.SortBy | version2/crmos2.py:239 | `ORDER BY` returns a permutation (same multiset) of the selected rows |
| Ordering.SortBySorted | version2/crmos2.py:239 | the result of `ORDER BY` is ordered by the key |
| Ordering.SortByMembersAll | version2/crmos2.py:476-479 | for every value at once: the ordered rows are exactly the selected rows |
| Ordering.SortByMembers | version2/crmos2.py:239 | ordering neither adds nor drops a row |
| Tables.Filter | version2/crmos2.py:227-242 | `WHERE p`: the rows kept are exactly the table's rows satisfying `p`, never more rows than the table |
| Tables.FilterIdempotent | version2/crmos2.py:227-242 | repeating a WHERE condition changes nothing |
| Tables.FilterAppend | version2/crmos2.py:227-242 | WHERE distributes over rows appended to the table |
| Tables.Find | version2/crmos2.py:316-323 | `fetchone()` on a WHERE: a row satisfying the condition (the key is unique at every use), `None` iff no row does |
| Tables.FindAfterMisses | version2/crmos2.py:298-301 | rows that fail the condition ahead of the appended ones do not change what `fetchone()` finds |
| Tables.FilterIncreasing | version2/crmos2.py:370-373 | deleting rows keeps the remaining ids in increasing order |
| Tables.FilterIdsBelow | version2/crmos2.py:370-373 | deleting rows keeps ids increasing and below the AUTOINCREMENT counter |
| Pagination.GetPagination | version2/crmos2.py:123-124 | `(page-1)*per_page, per_page`: the limit is the page size and the offset is non-negative from page 1 on |
| Pagination.Window | version2/crmos2.py:239-242 | `LIMIT ? OFFSET ?`: a negative offset acts as 0; the result is the `limit` rows (or fewer, at the end) starting at the offset |
| Pagination.Page | version2/crmos2.py:239-242 | page `page` of the ordered rows: at most 10 rows, the k-th of them the row at `(page-1)*10 + k`, and exactly 10 when the table reaches past the page's end |
| Pagination.TotalPages | version2/crmos2.py:259 | `(total + per_page - 1) // per_page` is the ceiling: 0 for no rows, otherwise the least `n` with `n*per_page >= total` |
| Pagination.PagesPrefix | version2/crmos2.py:239-259 | pages 1..n together are the first `n*10` rows |
| Pagination.PagesPartition | version2/crmos2.py:239-259 | pages 1..total_pages concatenated are exactly the ordered result: every row shown once |
| Pagination.PageBeyondLast | version2/crmos2.py:239-259 | a page number past total_pages shows no rows |
| Pagination.PageBelowFirst | version2/crmos2.py:123-124 | a page number below 1 shows what page 1 shows, since the negative offset is ignored |
| Accounts.FindUser | version2/crmos2.py:190 | `SELECT ... WHERE username=? fetchone()`: a row with that username, `None` iff there is none |
| Accounts.RegisterValid | version2/crmos2.py:156-158 | inserting an unused username under the next id keeps usernames unique and ids increasing below the counter |
| Accounts.LoginSession | version2/crmos2.py:189-194 | a session is created iff the user exists and the password checks against its hash; it names that user's id and username |
| CsvExport.FieldText | version2/crmos2.py:484 | `value or ""`: NULL becomes the empty field |
| CsvExport.Fields | version2/crmos2.py:484 | six fields, the first of them the name (`CsvExport.CsvLineLayout` states the order of all six) |
| CsvExport.CsvLine | version2/crmos2.py:484 | a contact's line opens with its quoted name and closes with a quote and the newline |
| CsvExport.CsvDocument | version2/crmos2.py:482-484 | the document starts with the header line, and is the header alone iff there are no contacts |
| CsvExport.HeaderText | version2/crmos2.py:482 | the header is the line `Name,Phone,Email,Address,Notes,Category` and a newline |
| CsvExport.CsvLineLayout | version2/crmos2.py:484 | a line is the f-string of the source: name, phone, e-mail, address, notes and category, in that order, each in double quotes (NULL as empty), separated by commas, then a newline |
| CsvExport.DocumentAppend | version2/crmos2.py:483-484 | `csv_content += ...`: one more row appends its line to the end of the document |
| CsvExport.BuildCsv | version2/crmos2.py:482-484 | the loop builds the header followed by one line per row, in order; the document starts with the header |
| CsvExport.HeaderLines | version2/crmos2.py:482 | the header is a single line |
| CsvExport.LineCount | version2/crmos2.py:484 | a line holds its fields' characters plus 12 quotes, 5 commas and one newline |
| CsvExport.DocumentLines | version2/crmos2.py:482-484 | with no newline inside any value the document has exactly `1 + rows` lines |
| CsvExport.QuotesNotEscaped | version2/crmos2.py:484 | quotes are not doubled: a line has exactly 12 quotes iff none of its values contains one |
| ContactsV2.ReadForm | version2/crmos2.py:278-283 | each submitted field becomes its stripped value; a missing name, phone, e-mail, address or notes reads as `""` and a missing category as `"General"`; a blank category reads as `""` |
| ContactsV2.CheckFields | version2/crmos2.py:285-295 | name, then phone, then e-mail: the first failing check is reported, success iff all three pass |
| ContactsV2.FindOwned | version2/crmos2.py:316-323 | `WHERE id = ? AND user_id = ?`: a row with that id owned by the user, `None` iff there is none |
| ContactsV2.UpdateOwned | version2/crmos2.py:351-355 | `UPDATE ... WHERE id = ? AND user_id = ?`: every row of the result is an untouched row of another id or owner, or the new values under that id and owner; every such untouched row stays; the new values are present whenever the user owned a row with that id |
| ContactsV2.UpdateOwnedEffect | version2/crmos2.py:351-355 | the UPDATE rewrites the six columns of the user's row with that id and leaves every other row, and every id and owner, unchanged |
| ContactsV2.UpdateOwnedNoMatch | version2/crmos2.py:351-355 | an UPDATE that matches no owned row leaves the table unchanged |
| ContactsV2.UpdateOwnedReadBack | version2/crmos2.py:351-355 | after an update the owned row reads back with the submitted values |
| ContactsV2.UpdateOwnedValid | version2/crmos2.py:351-355 | an update keeps ids increasing and below the counter |
| ContactsV2.RemoveOwned | version2/crmos2.py:370-373 | `DELETE ... WHERE id=? AND user_id=?` keeps exactly the rows not owned under that id |
| ContactsV2.RemoveOwnedNoMatch | version2/crmos2.py:370-376 | `rowcount == 0` iff no owned row had the id; then the table is unchanged |
| ContactsV2.RemoveOwnedIdempotent | version2/crmos2.py:370-373 | deleting twice is deleting once |
| ContactsV2.RemoveOwnedGone | version2/crmos2.py:370-373 | after the delete no owned row with that id remains |
| ContactsV2.RemoveOwnedAtMostOne | version2/crmos2.py:370-373 | with AUTOINCREMENT ids a delete removes at most one row |
| ContactsV2.RemoveOwnedValid | version2/crmos2.py:370-373 | a delete keeps ids increasing and below the counter |
| ContactsV2.AddReadBack | version2/crmos2.py:298-301 | the inserted row is found under its new id and owner, and the table invariant holds with the counter advanced |
| ContactsV2.ListingWhere | version2/crmos2.py:227-237 | the clauses the listing builds: the owner clause first, the LIKE clause iff a search is given, the category clause iff a category filter is given, and nothing else |
| ContactsV2.Select | version2/crmos2.py:227-242 | the rows selected are exactly those satisfying every clause of the WHERE |
| ContactsV2.ListingWhereMeaning | version2/crmos2.py:227-237 | the clauses the listing builds hold iff the row is the user's, matches the search when one is given, and has the filtered category when one is given |
| ContactsV2.SearchMeaning | version2/crmos2.py:230-233 | with a wildcard-free search, the four-column LIKE test holds iff the text occurs in name, phone, e-mail or notes, ignoring case |
| ContactsV2.ListingPageRows | version2/crmos2.py:239-242 | a page of the ordered selection is itself ordered by name, and contains only rows of the table that satisfy the WHERE |
| ContactsV2.DefaultCategories | version2/crmos2.py:162-172 | four rows General, Family, Work, Friends for the new user, with consecutive ids |
| ContactsV2.OwnCategories | version2/crmos2.py:221-224 | `WHERE user_id = ?` on categories: exactly the user's categories |
| ContactsV2.CategoryNameOf | version2/crmos2.py:444-447 | the name of the user's category with that id, `None` iff there is none |
| ContactsV2.UsingCategory | version2/crmos2.py:433-436 | the user's contacts whose category is that name; none when the id names no category of the user's (the subquery is NULL) |
| ContactsV2.RemoveOwnedCategory | version2/crmos2.py:454-457 | keeps exactly the categories not owned under that id |
| ContactsV2.RemoveOwnedCategoryNoMatch | version2/crmos2.py:454-460 | `rowcount == 0` iff the user has no category with that id; then nothing changes |
| ContactsV2.RemoveOwnedCategoryValid | version2/crmos2.py:454-457 | a category delete keeps category ids increasing and below the counter |
| ContactsV2.ExportRowOf | version2/crmos2.py:477 | the six exported columns of a contact, in query order |
| ContactsV2.ExportRows | version2/crmos2.py:476-479 | one exported row per contact, in order |
| ContactsV2.ExportedContacts | version2/crmos2.py:476-479 | the export query returns exactly the user's contacts |
| ContactsV2.ExportLineCount | version2/crmos2.py:476-484 | with newline-free values the export has one line per contact of the user plus the header |
| AppV2.App.constructor | version2/crmos2.py:18-49 | a fresh database: empty tables, no session, and every AUTOINCREMENT counter at 1 |
| AppV2.App.Register | version2/crmos2.py:141-181 | short username, then short password, then taken username are refused and write nothing; otherwise the user and its four default categories are appended |
| AppV2.App.Login | version2/crmos2.py:183-200 | on good credentials the session names the user; otherwise `Invalid credentials` and the session is unchanged |
| AppV2.App.Logout | version2/crmos2.py:202-206 | the session is cleared |
| AppV2.App.Index | version2/crmos2.py:209-273 | without a session: not logged in. A page whose offset is outside 64 bits: `ServerError` and no view. Otherwise: the requested page of the user's matching contacts in name order, the total and page count of all matches, the user's categories by name; every row shown is the user's and matches the filters |
| AppV2.App.Add | version2/crmos2.py:275-308 | the validation outcome of the read form; on success exactly one row owned by the user is appended and reads back; otherwise nothing changes |
| AppV2.App.Edit | version2/crmos2.py:310-362 | an id outside 64 bits is `ServerError` and changes nothing; a missing or foreign row is not found; a GET shows the stored row; a failed check shows the stored row and writes nothing; success updates only the user's row, which reads back |
| AppV2.App.Delete | version2/crmos2.py:364-384 | an id outside 64 bits is `ServerError` and changes nothing; otherwise deletes only the user's row with that id; not found iff no such row; on success exactly one row fewer and none left with that id |
| AppV2.App.Categories | version2/crmos2.py:387-400 | the user's categories, ordered by name, and no others |
| AppV2.App.AddCategory | version2/crmos2.py:402-425 | without a session nothing changes, the counter included; a blank name is refused; otherwise one category of the user is appended with the stripped name and colour (default `#3B82F6`) |
| AppV2.App.DeleteCategory | version2/crmos2.py:427-468 | an id outside 64 bits is `ServerError` and changes nothing; otherwise in use, then default name, then not found are refused and change nothing; otherwise the user's category with that id is removed |
| AppV2.App.Export | version2/crmos2.py:470-495 | the CSV document of the user's contacts in name order |
| ContactsV1.ReadForm | version1/crmos.py:148-151 | each submitted field (name, phone, address, notes) becomes its stripped value; a missing one reads as `""` |
| ContactsV1.CheckFields | version1/crmos.py:153-158 | name, then phone: the first failing check is reported, success iff both pass |
| ContactsV1.FindById | version1/crmos.py:178-181 | `WHERE id = ?`: the row with that id, `None` iff there is none |
| ContactsV1.UpdateById | version1/crmos.py:195-198 | `UPDATE ... WHERE id = ?`: every row of the result is an untouched row of another id or the new values under that id; every row of another id stays; the new values are present whenever a row had that id |
| ContactsV1.UpdateByIdEffect | version1/crmos.py:195-198 | the UPDATE rewrites the row with that id, whoever added it, and no other |
| ContactsV1.UpdateByIdReadBack | version1/crmos.py:195-198 | after the update the row reads back with the submitted values |
| ContactsV1.UpdateByIdValid | version1/crmos.py:195-198 | an update keeps ids increasing and below the counter |
| ContactsV1.RemoveById | version1/crmos.py:212 | `DELETE ... WHERE id=?` keeps exactly the rows with another id |
| ContactsV1.RemoveByIdEffect | version1/crmos.py:212 | no row with that id remains; with no such row the table is unchanged |
| ContactsV1.RemoveByIdValid | version1/crmos.py:212 | a delete keeps ids increasing and below the counter |
| ContactsV1.AddReadBack | version1/crmos.py:162-165 | the inserted row is found under its new id, and the table invariant holds with the counter advanced |
| ContactsV1.Matching | version1/crmos.py:133-139 | every row for an empty search, otherwise exactly the rows whose name, phone or notes is LIKE `%search%` |
| ContactsV1.SearchMeaning | version1/crmos.py:134-137 | with a wildcard-free search the LIKE test holds iff the text occurs in name, phone or notes, ignoring case |
| AppV1.App.constructor | version1/crmos.py:14-48 | a fresh database: empty tables, no session, and both AUTOINCREMENT counters at 1 |
| AppV1.App.Register | version1/crmos.py:85-102 | one combined length check, then taken username, are refused and write nothing; otherwise the user is appended |
| AppV1.App.Login | version1/crmos.py:104-118 | on good credentials the session names the user; otherwise the session is unchanged |
| AppV1.App.Logout | version1/crmos.py:120-124 | the session is cleared |
| AppV1.App.Index | version1/crmos.py:127-143 | without a session: not logged in. Otherwise all matching contacts of every user, in name order and unpaged; membership iff the row matches |
| AppV1.App.Add | version1/crmos.py:145-171 | the validation outcome of the read form; on success one row is appended and reads back; otherwise nothing changes |
| AppV1.App.Edit | version1/crmos.py:173-205 | an id outside 64 bits is `ServerError` and changes nothing; otherwise the row is looked up by id alone; GET or a failed check shows it unchanged; success updates the row with that id, which reads back |
| AppV1.App.Delete | version1/crmos.py:207-217 | an id outside 64 bits is `ServerError` and changes nothing; otherwise removes the row with that id and reports success; nothing changes when there is no such row |

## Left out

- Flask plumbing is not modelled: HTML templates, flashed message texts, redirects, the CSRF error handler and the 404/500 error pages. Each handler's result is its `Outcome` and the values a page would show.
- The `sqlite3.Error` branches are not modelled: "Database error occurred", "Failed to add contact", and so on. The model's database never fails.
- Password hashing is not modelled. `generate_password_hash` is the `passwordHash` parameter of `Register`, and `check_password_hash` is the `checkHash` parameter of `Login`.
- Timestamps are not modelled. This covers the `created_at` / `updated_at` columns and the trigger that refreshes `updated_at`.
- The indexes on `contacts` are left out because they do not change results.
- `init_db` seeding four categories for user id 1 in a new database is not modelled. Both constructors start from empty tables.
- The `ON DELETE CASCADE` foreign keys are left out because no handler deletes a user.
- Only ASCII is covered by `str.strip()`, `\d`, `\s` and `LIKE` case folding. Python's Unicode whitespace and digits are not modelled.
- `request.form["username"]` on a request without that key makes Flask answer 400. `Register` and `Login` take both fields as present strings.
- `request.args.get('page', 1, type=int)` falls back to 1 for a non-integer argument. `Index` takes the page as an integer.
- The session holds only the user id and username.
- Ids are unbounded integers. Exhausting SQLite's 64-bit AUTOINCREMENT counter (`SQLITE_FULL`) is not modelled; binding an out-of-range integer parameter is (`ServerError`).
- AppV2.App.Index, AppV2.App.Export, AppV1.App.Index: SQLite does not fix the order of rows with equal names. The model uses a stable sort, so equal names keep table order, a choice the source does not promise.
- AppV2.App.Edit: the edit page's list of the user's categories, version2/crmos2.py:326-329, is not returned. It is the same query as AppV2.App.Categories.
- AppV2.App.AddCategory: the `IntegrityError` branch ("Category already exists") is not modelled. The `categories` table has no UNIQUE constraint, so that branch is unreachable and duplicate names are accepted.
- The CSV document is a plain concatenation, not RFC 4180: RFC 4180 section 2 rule 7 requires embedded quotes to be doubled, and the export does not double them. `CsvExport.QuotesNotEscaped` states the consequence, and no parsing round trip is claimed.
- `barebone/crmos.py` is not part of this model.
