# BookMgr core in Dafny

BookMgr is a small library system. It has a Go backend, a Node backend over the same three
tables (books with a `residue` copy count, users, borrow history records) and a Vue client.
This project models the behaviour of:

- the Go user handlers: summary, book listing, my-borrowed listing, borrow, return and the borrow id;
- the Go admin handlers: dashboard counts, user listing and history listing;
- the Go login and registration;
- the Node admin handlers: add, edit and delete a book, and the book, user and history listings;
- the Node login and registration;
- the client's navigation guard.

How the model is built:

- **Tables.** The tables are sequences in primary-key order, held in the `Store.Db` class.
  Soft deletion is the explicit field `deletedAt`. Every query states whether it sees deleted rows.
- **Transactions.** Each transaction is one atomic step. A handler computes the new tables and
  assigns them only after every statement has succeeded.
- **Failures.** Datastore failures are an input. Mutating handlers take
  `fault: Option<Step>`, naming the statement that fails. Read-only handlers take `dbOk`.
- **Outcomes.** A handler's reported code is a `Code`. A value or a failure code is a `Result`.

Modules:

- `Records`: the row types and the generic `Filter`/`Count` that every report is built from.
- `Paging`: page-count arithmetic and the OFFSET/LIMIT window, for Go int64 and for JavaScript numbers.
- `Ordering`: ORDER BY as a stable sort, with NULL first and text keys in code-point order. Ties keep table order, which is one of the orders the database may return.
- `Text`: LIKE as substring containment, and decimal rendering.
- `Inventory`: the residue/history transitions, and the ledger `Balance = residue + outstanding records`.
- `Reports`: the parts shared by both backends' listings and summaries.
- One module per handler file: `GoUser`, `GoAdmin`, `GoAuth`, `NodeAdmin`, `NodeAuth`, `Router`.

Source coverage notes:

- `HandleGetAllBooks_Admin` (book-mgr-backend/handler/admin/fetch.go:56-128) is the same code as
  `HandleGetAllBooks_User`. `GoUser.ListBooks` models both.
- Node's `getAdminSummaryAdmin` (book-mgr-nodejs/src/handler/admin.js:138-162) counts the same
  three live totals as the Go summary. `Reports.AdminSummary` models both.
- The Node users-listing loop (book-mgr-nodejs/src/handler/admin.js:218-233) is the same
  projection as Go's. `Reports.BuildUserRows` models both.

Where the code and its description differ, the model follows the code:

- Go's history listing joins raw tables. It therefore includes soft-deleted records, users and
  books.
- Node's book total is counted with the search filter. Go's is counted without it.
- Go's login answers NotFound for any lookup error, not only a missing user.

## Model

| member | source | states |
|---|---|---|
| Records.FindBook | book-mgr-backend/handler/user/fetch.go:269-276 | the first row with the key (live only unless deleted rows are included); None exactly when no row qualifies |
| Records.FindByEmail | book-mgr-backend/handler/univer/auth.go:27 | the first live user with the email; None exactly when there is none |
| Store.Db.InsertBook | book-mgr-nodejs/src/handler/admin.js:19-29 | the row is appended with the next auto-increment key; other tables and counters unchanged; keys stay unique |
| Store.Db.InsertUser | book-mgr-backend/handler/univer/auth.go:104 | the user is appended with the next key; nothing else changes |
| Store.Db.InsertHistory | book-mgr-backend/handler/user/fetch.go:297-315 | the record is appended with the next key; nothing else changes |
| Store.Db.UpdateBooks | book-mgr-backend/handler/user/fetch.go:287 | an UPDATE that keeps every key replaces the books table and nothing else |
| Store.Db.UpdateHistories | book-mgr-backend/handler/user/fetch.go:359-368 | an UPDATE that keeps every key replaces the history table and nothing else |
| Paging.GoPageCount | book-mgr-backend/handler/user/fetch.go:120 | `(total+size-1)/size` on int64 panics exactly at size 0; for size > 0 it is the ceiling of total/size |
| Paging.JsPageCount | book-mgr-nodejs/src/handler/admin.js:176 | `Math.ceil(total/size)` is Infinity or NaN at size 0 and the ceiling for size > 0 |
| Paging.PageCountsAgree | book-mgr-backend/handler/admin/fetch.go:201 | the Go and JavaScript page counts agree for every size > 0 |
| Paging.PageCountZeroIffEmpty | book-mgr-backend/handler/admin/fetch.go:261 | the page count is 0 exactly when there are no rows |
| Paging.Window | book-mgr-backend/handler/user/fetch.go:124-126 | OFFSET/LIMIT as GORM issues it: at most `limit` rows, a contiguous run of the input starting at the clamped offset |
| Paging.NodeWindow | book-mgr-nodejs/src/handler/admin.js:178-183 | a negative offset or limit is a query error; otherwise the same window |
| Paging.PageBeyondLastIsEmpty | book-mgr-backend/handler/user/fetch.go:120-126 | a page number past the page count returns no rows |
| Paging.FirstPagesArePrefix | book-mgr-backend/handler/user/fetch.go:124-126 | pages 1..n together are the first n*size rows |
| Paging.PagesCoverAllRows | book-mgr-backend/handler/user/fetch.go:120-126 | pages 1..page_count, computed from any total at least the row count, together are exactly all rows |
| Ordering.SortBy | book-mgr-backend/handler/admin/fetch.go:265 | ORDER BY returns a permutation of its input |
| Ordering.SortBySorted | book-mgr-backend/handler/user/fetch.go:205 | the result of ORDER BY is ordered by the key in the requested direction (text by code point) |
| Reports.OrderBooks | book-mgr-backend/handler/user/fetch.go:133-136 | a permutation of the rows, ordered by the search_by column when a valid sort is given (text by code point) |
| Reports.EmptySearchListsAllLive | book-mgr-backend/handler/admin/fetch.go:145-147 | an empty email pattern selects exactly the live users |
| Reports.BuildUserRows | book-mgr-backend/handler/admin/fetch.go:169-187 | one row per listed user with its id, role, email and timestamps, no password, and borrowed_nums = that user's live records with is_back false |
| Reports.AdminSummary | book-mgr-backend/handler/admin/fetch.go:14-54 | the live counts of books, users and history records (returned or not) and nothing else; a datastore error answers 500 |
| Reports.UnreturnedWithinBorrowed | book-mgr-backend/handler/user/fetch.go:41-61 | unreturned <= borrowed_nums <= total history count |
| Inventory.SetResidue | book-mgr-backend/handler/user/fetch.go:287 | only live rows with that key get the new residue; every key is kept |
| Inventory.BumpResidue | book-mgr-backend/handler/user/fetch.go:370-373 | only live rows with that key get `residue + 1` (NULL stays NULL); every key is kept |
| Inventory.MarkReturned | book-mgr-backend/handler/user/fetch.go:359-366 | exactly the live records matching borrow_id, user_id and book_id get is_back = true; the others are untouched |
| Inventory.BorrowKeepsBalance | book-mgr-backend/handler/user/fetch.go:277-315 | a successful borrow keeps residue + outstanding records constant for every book |
| Inventory.BorrowDecrementsOnlyThatBook | book-mgr-backend/handler/user/fetch.go:277-287 | a successful borrow lowers that book's residue by exactly one, leaves it >= 0 and leaves every other row as it was |
| Inventory.OutstandingAfterMark | book-mgr-backend/handler/user/fetch.go:359-366 | marking returned removes exactly the matching outstanding records from that book's outstanding count and no other book's |
| Inventory.ReturnShiftsBalance | book-mgr-backend/handler/user/fetch.go:359-380 | the return as written changes the book's balance by 1 - (number of outstanding records matched): it is kept only when exactly one record matched |
| Inventory.BorrowThenReturnRestoresResidue | book-mgr-backend/handler/user/fetch.go:287-373 | a borrow followed by a return of the same book restores every book's residue |
| Inventory.FirstOutstandingMatch | book-mgr-backend/handler/user/fetch.go:359-366 | the first live, not yet returned record the request names; None exactly when no record is one |
| Inventory.NoMatchIffNoneOutstanding | book-mgr-backend/handler/user/fetch.go:359-366 | no record is found exactly when a count of the outstanding records the request names is 0 |
| Inventory.CloseRecord | book-mgr-backend/handler/user/fetch.go:359-366 | closes exactly one record and keeps the rest |
| Inventory.OutstandingAfterClose | book-mgr-backend/handler/user/fetch.go:359-366 | closing one outstanding record lowers its own book's outstanding count by one and no other |
| Inventory.CheckedReturnKeepsBalance | book-mgr-backend/handler/user/fetch.go:359-380 | the corrected return keeps every live book's balance |
| GoUser.SecondsOfDay | book-mgr-backend/handler/user/fetch.go:398-401 | `unix % 86400` lies in [0, 86399] |
| GoUser.CreateBorrowId | book-mgr-backend/handler/user/fetch.go:397-400 | the borrow id is the date followed directly by the decimal user id, the decimal book id and the decimal second of the day (`unix % 86400`), with no separator |
| GoUser.BorrowIdShape | book-mgr-backend/handler/user/fetch.go:398-401 | the borrow id is the date followed by at least three decimal digits and nothing else |
| GoUser.BorrowIdsCollide | book-mgr-backend/handler/user/fetch.go:398-401 | without separators (user 1, book 23) and (user 12, book 3) get the same id at the same second |
| GoUser.BorrowIdDeterminesSecond | book-mgr-backend/handler/user/fetch.go:398-401 | for a fixed user and book, equal ids mean the same second of the day |
| GoUser.GetSummary | book-mgr-backend/handler/user/fetch.go:16-82 | user_id <= 0 is 400; a failing count is 500; otherwise the user's unreturned, live and total counts, ordered |
| GoUser.ListBooks | book-mgr-backend/handler/user/fetch.go:84-156 | fails (500) exactly on a datastore error, size 0, an unknown column with content, or a sort without a valid column and direction; the total counts all live books unfiltered and the page count is its ceiling; the page is the OFFSET (page-1)*size, LIMIT size window of the live matching books in the requested order, so at most size live rows that match the filter |
| GoUser.PageOfBooks | book-mgr-backend/handler/user/fetch.go:124-136 | the page query returns at most size live rows of the table, each satisfying the LIKE |
| GoUser.ListBooksTotalIgnoresSearch | book-mgr-backend/handler/user/fetch.go:108-120 | the total and the page count are the same whatever the search, column or sort |
| GoUser.ListBooksSorted | book-mgr-backend/handler/user/fetch.go:133-136 | a requested sort orders the page by the search_by column (text by code point) |
| GoUser.ListBooksPagesCoverMatches | book-mgr-backend/handler/user/fetch.go:108-136 | for one fixed order of tied and unordered rows (table order), pages 1..page_count together hold every matching book; page_count × size is at least the number of matches whatever the order |
| GoUser.MyRecords | book-mgr-backend/handler/user/fetch.go:189-208 | exactly the user's live records with the book-name filter, newest first |
| GoUser.MyPageIsMine | book-mgr-backend/handler/user/fetch.go:199-208 | each page holds only the user's live records passing the name filter, newest first |
| GoUser.MyPagesCoverRecords | book-mgr-backend/handler/user/fetch.go:189-234 | the count uses the same filter as the page; for one fixed order of records with equal created_at (table order), pages 1..page_count hold every matching record exactly once |
| GoUser.BorrowedRows | book-mgr-backend/handler/user/fetch.go:211-231 | one row per record, in order, from the record and its preloaded book, exactly when every record has a borrow time |
| GoUser.MyBorrowed | book-mgr-backend/handler/user/fetch.go:170-242 | user_id 0 is 400; a failing page query, a NULL borrowed_at or size 0 is 500; a failing count query is ignored and leaves the total at 0 (page_count 0 for size > 0); otherwise one row per record of the page with the preloaded book's name and isbn, and the page count of the filtered total |
| GoUser.BorrowVerdict | book-mgr-backend/handler/user/fetch.go:269-318 | the borrow succeeds exactly when a live book exists with residue > 0 and no statement fails; residue <= 0 is 422 |
| GoUser.Borrow | book-mgr-backend/handler/user/fetch.go:244-331 | as written: invalid ids report 400 and the handler goes on; on success the residue drops by one and one outstanding record of the request's user and book is appended; otherwise no table changes |
| GoUser.InvalidUserStillBorrows | book-mgr-backend/handler/user/fetch.go:258-263 | user 0 gets [400, 200] and a borrow record is stored for user 0 |
| GoUser.CommitBorrow | book-mgr-backend/handler/user/fetch.go:287-324 | the committed transaction: the found live book's residue is lowered by one, and one record with a fresh key, the borrow id, the user, the book and the borrow time is appended; users and the other counters are unchanged |
| GoUser.BorrowChecked | book-mgr-backend/handler/user/fetch.go:258-263 | corrected: invalid ids answer 400 and change nothing |
| GoUser.Return | book-mgr-backend/handler/user/fetch.go:333-395 | invalid input is 400 and changes nothing; otherwise the matching records are marked returned and the residue goes up by one, whether or not anything matched |
| GoUser.DoubleReturnInflatesResidue | book-mgr-backend/handler/user/fetch.go:359-380 | borrow then return twice answers [200, 200, 200] and leaves residue 2 from 1 |
| GoUser.ReturnChecked | book-mgr-backend/handler/user/fetch.go:359-380 | corrected: 404 unless an outstanding record matches; then exactly that record is closed and the residue goes up by one |
| GoUser.DoubleReturnChecked | book-mgr-backend/handler/user/fetch.go:359-380 | with the check, the second return is 404 and residue is back to 1 |
| GoAdmin.BorrowCountsOneMore | book-mgr-backend/handler/admin/fetch.go:22-46 | after a borrow the dashboard shows one more borrow record and the same book and user counts |
| GoAdmin.ReturnKeepsCounts | book-mgr-backend/handler/admin/fetch.go:22-46 | after a return all three dashboard counts are unchanged |
| GoAdmin.ListedUsers | book-mgr-backend/handler/admin/fetch.go:142-150 | at most size live users whose email contains the search |
| GoAdmin.ListUsers | book-mgr-backend/handler/admin/fetch.go:130-203 | 500 exactly on a datastore error or size 0; rows project the listed users with their outstanding counts; page count over all live users, ignoring the filter |
| GoAdmin.JoinAll | book-mgr-backend/handler/admin/fetch.go:233-236 | inner join: exactly one row per record whose user and book rows exist (deleted rows included), in table order, and no other; each row carries that user's email and that book's name and isbn |
| GoAdmin.JoinAllComplete | book-mgr-backend/handler/admin/fetch.go:233-236 | every record whose user and book rows exist, deleted or not, appears in the join |
| GoAdmin.HistoryFilter | book-mgr-backend/handler/admin/fetch.go:239-248 | an empty target or an unknown search_type keeps every row; otherwise a LIKE on the email, the book name or the isbn, where a NULL isbn never matches |
| GoAdmin.SelectedHistories | book-mgr-backend/handler/admin/fetch.go:239-265 | the joined records passing the filter, newest first |
| GoAdmin.UnknownTypeFiltersNothing | book-mgr-backend/handler/admin/fetch.go:239-248 | an empty target or an unknown type selects every joined record |
| GoAdmin.HistoryPageJoined | book-mgr-backend/handler/admin/fetch.go:233-268 | every row of a page has an existing user and book and passes the filter; the page is newest first |
| GoAdmin.ProjectHistories | book-mgr-backend/handler/admin/fetch.go:277-288 | one response row per result row, field by field, NULL isbn as "" |
| GoAdmin.ListHistories | book-mgr-backend/handler/admin/fetch.go:215-297 | 500 exactly on a datastore error or size 0; the page count is over the same filtered join as the page |
| GoAuth.Login | book-mgr-backend/handler/univer/auth.go:11-62 | NotFound when the lookup fails, else Forbidden on a role mismatch, else Unauthorized on a password mismatch, else the user with the password blanked |
| GoAuth.RoleCheckedBeforePassword | book-mgr-backend/handler/univer/auth.go:37-53 | a wrong role is Forbidden even when the password is wrong too |
| GoAuth.LoginHidesPassword | book-mgr-backend/handler/univer/auth.go:55-61 | a successful login returns the requested user with an empty password |
| GoAuth.RegisteredUserCanLogIn | book-mgr-backend/handler/univer/auth.go:78-82 | a newly stored user logs in with its password and role "user" |
| GoAuth.RegisterVerdict | book-mgr-backend/handler/univer/auth.go:83-112 | 409 exactly when a live user has the email; 500 on a lookup or insert failure; otherwise 200 |
| GoAuth.Register | book-mgr-backend/handler/univer/auth.go:64-121 | as written: on 200 one user with the email, password and role "user" is added, unless the commit failed, in which case nothing is stored |
| GoAuth.CommitFailureReportsSuccess | book-mgr-backend/handler/univer/auth.go:114-120 | a failed commit answers 200 with no user stored |
| GoAuth.RegisterChecked | book-mgr-backend/handler/univer/auth.go:114 | corrected: a failed commit answers 500, and 200 holds exactly when one user was added |
| GoAuth.SecondRegistrationConflicts | book-mgr-backend/handler/univer/auth.go:84-93 | registering the same email again is a Conflict |
| NodeAdmin.AddBookVerdict | book-mgr-nodejs/src/handler/admin.js:10-16 | a falsy name or publisher is 400; otherwise a failing insert is 500 and anything else 200 |
| NodeAdmin.AddBook | book-mgr-nodejs/src/handler/admin.js:5-44 | on 400 or 500 nothing is created; on 200 one live row holding exactly the nine supplied fields is appended and returned |
| NodeAdmin.AddedBookIsFound | book-mgr-nodejs/src/handler/admin.js:19-29 | the new book is found by its new key |
| NodeAdmin.Merged | book-mgr-nodejs/src/handler/admin.js:70-78 | the merge never touches the key, timestamps or deletion mark |
| NodeAdmin.MergeNeverClears | book-mgr-nodejs/src/handler/admin.js:70-78 | no field can be set to "" or 0 by an edit: a residue of 0 after an edit was 0 before |
| NodeAdmin.MergeTakesTruthy | book-mgr-nodejs/src/handler/admin.js:70-78 | for each of the nine fields, a truthy value replaces the old one and a falsy one keeps it |
| NodeAdmin.MergeIdempotent | book-mgr-nodejs/src/handler/admin.js:70-78 | applying the same edit twice equals applying it once |
| NodeAdmin.EmptyEditKeepsRow | book-mgr-nodejs/src/handler/admin.js:70-78 | an edit with nothing truthy leaves the row as it was |
| NodeAdmin.Saved | book-mgr-nodejs/src/handler/admin.js:81 | save refreshes updated_at exactly when a field changed |
| NodeAdmin.UpdateBook | book-mgr-nodejs/src/handler/admin.js:46-96 | a falsy book_id is 400 and an unknown one 404, neither changing any book; it succeeds exactly when the live book is found and either the save succeeds or the merge changes nothing; then the found row is replaced by its saved merge |
| NodeAdmin.SoftDelete | book-mgr-nodejs/src/handler/admin.js:112-114 | the paranoid destroy keeps the row count and every key |
| NodeAdmin.SoftDeleteCounts | book-mgr-nodejs/src/handler/admin.js:112-114 | the destroyed rows drop out of the live count, and only they do |
| NodeAdmin.SoftDeleteHidesOnlyThatBook | book-mgr-nodejs/src/handler/admin.js:112-114 | the deleted book is no longer found; other books are unchanged |
| NodeAdmin.DeleteRemovesAtMostOne | book-mgr-nodejs/src/handler/admin.js:112-122 | with unique keys the destroy affects 0 or 1 rows |
| NodeAdmin.DeleteBook | book-mgr-nodejs/src/handler/admin.js:98-136 | a missing id is 400; a failing destroy 500; no live row with the id 404 with nothing changed; 200 exactly when the destroy succeeds and a live row has the id, and then that row is soft-deleted |
| NodeAdmin.NodePageOfBooks | book-mgr-nodejs/src/handler/admin.js:178-183 | the page holds at most size live rows, each matching the filter |
| NodeAdmin.ListBooks | book-mgr-nodejs/src/handler/admin.js:164-199 | 500 exactly on a datastore error, an unknown column, a bad direction with a column, or a negative offset or size; the total counts the filtered rows and page_count is its ceiling; the page is the OFFSET/LIMIT window of the filtered rows ordered by search_by |
| NodeAdmin.ListBooksPagesCoverMatches | book-mgr-nodejs/src/handler/admin.js:175-183 | for one fixed order of tied rows (table order), pages 1..page_count hold exactly the matching books |
| NodeAdmin.ListBooksSorted | book-mgr-nodejs/src/handler/admin.js:182 | a search_by column orders the page, ASC unless DESC is asked for (text by code point) |
| NodeAdmin.NodeTotalWithinLiveTotal | book-mgr-nodejs/src/handler/admin.js:171-175 | the filtered total never exceeds the live total and equals it without a search |
| NodeAdmin.ListUsers | book-mgr-nodejs/src/handler/admin.js:201-250 | 500 exactly on a datastore error or a negative offset or size; rows are the listed live users with their outstanding counts; page_count over all live users |
| NodeAdmin.UserOf | book-mgr-nodejs/src/handler/admin.js:262 | the joined user is a live user with that key, or none |
| NodeAdmin.BookOf | book-mgr-nodejs/src/handler/admin.js:263 | the joined book is a live book with that key, or none |
| NodeAdmin.LeftJoin | book-mgr-nodejs/src/handler/admin.js:259-264 | one joined row per live history record, in table order |
| NodeAdmin.NodeHistoryFilter | book-mgr-nodejs/src/handler/admin.js:270-282 | an empty target or an unknown search_type keeps every row; otherwise a LIKE on the user's email, the book's name or the book's isbn, and a missing user or book (or a NULL isbn) never matches |
| NodeAdmin.NodeSelected | book-mgr-nodejs/src/handler/admin.js:267-283 | the filtered join, newest first |
| NodeAdmin.FlattenAll | book-mgr-nodejs/src/handler/admin.js:288-296 | each joined record becomes one response row with its id, borrow_id, created_at and is_back; the email comes from the user and is absent without one; the book name and isbn come from the book and are absent without one |
| NodeAdmin.ListHistories | book-mgr-nodejs/src/handler/admin.js:252-311 | 500 exactly on a datastore error or a negative offset or size; page_count over the same filtered join; rows flattened to id, borrow_id, email, book name and isbn, created_at and is_back, absent when the user or book is missing |
| NodeAdmin.UnfilteredCountsEveryLiveRecord | book-mgr-nodejs/src/handler/admin.js:270-283 | with an empty target or unknown type every live record is counted |
| NodeAdmin.HistoryPageNewestFirst | book-mgr-nodejs/src/handler/admin.js:265-286 | the page holds live records passing the filter, newest first |
| NodeAuth.Login | book-mgr-nodejs/src/handler/auth.js:3-62 | 400 exactly when a field is empty; 500 on a datastore error; a success returns the matching user without the password |
| NodeAuth.MissingFieldRejectedBeforeLookup | book-mgr-nodejs/src/handler/auth.js:7-13 | the 400 does not depend on the table or on the datastore |
| NodeAuth.LoginAgreesWithGo | book-mgr-nodejs/src/handler/auth.js:17-43 | with all fields given, the same 404/403/401/200 decision as the Go login, and the same user |
| NodeAuth.RegisterVerdict | book-mgr-nodejs/src/handler/auth.js:64-118 | 400 for an empty email or password; 409 when a live user has the email; 200 only when the email is valid and not held by any user, deleted or not, and no statement fails |
| NodeAuth.DeletedEmailCannotBeReused | book-mgr-nodejs/src/handler/auth.js:86-93 | the email of a deleted user cannot be registered again (500) |
| NodeAuth.Register | book-mgr-nodejs/src/handler/auth.js:75-109 | on 200 exactly one user with role "user" is added and returned; otherwise the table is unchanged |
| NodeAuth.RegisteredUserCanLogIn | book-mgr-nodejs/src/handler/auth.js:86-92 | a new user logs in as a plain user straight away |
| Router.Guard | book-mgr/src/router/index.ts:84-100 | navigation is allowed exactly when the visitor is signed in or the page is /login or /register, and the path does not start with /admin or the role is admin |
| Router.SignedOutGoesToLogin | book-mgr/src/router/index.ts:88-90 | a signed-out visitor is sent to /login from every other page |
| Router.OpenPagesAlwaysAllowed | book-mgr/src/router/index.ts:88-99 | /login and /register open in every state |
| Router.NonAdminKeptOutOfAdmin | book-mgr/src/router/index.ts:93-96 | a signed-in non-admin is sent to /user/summary from every path starting with /admin |
| Router.AdministratorIsAnAdminPage | book-mgr/src/router/index.ts:94 | "/administrator" counts as an admin page |
| Router.AdminNeverRedirected | book-mgr/src/router/index.ts:94-99 | a signed-in admin is never redirected |
| Router.NoRedirectLoops | book-mgr/src/router/index.ts:89-95 | every redirect target is allowed in the same state |

## Left out

- Ordering.SortBySorted: it proves the rows sorted by `KeyLe`, which orders text keys by code
  point, not by the database's case-insensitive collation; for text columns the order proved is
  code-point order.
- Reports.OrderBooks: its ordered-by-column ensures uses code-point order for text columns, not
  the database's collation.
- GoUser.ListBooksSorted: the page is sorted in code-point order when the sort column is text,
  not in the database's collation order.
- NodeAdmin.ListBooksSorted: the page is sorted in code-point order when the sort column is text,
  not in the database's collation order.
- Order of tied and unordered rows: SQL fixes neither the order of rows with equal ORDER BY keys nor the order of a query without ORDER BY (Go ListBooks without a sort, both ListUsers), and MySQL may pick a different one for each LIMIT/OFFSET request. The model always uses table order, a stable sort. The exact-page ensures of GoUser.ListBooks, NodeAdmin.ListBooks, GoAdmin.ListUsers, NodeAdmin.ListUsers, both ListHistories and GoUser.MyBorrowed, and the page-cover lemmas GoUser.ListBooksPagesCoverMatches, GoUser.MyPagesCoverRecords and NodeAdmin.ListBooksPagesCoverMatches, hold for that one order. On the real system a tied row can appear on two pages and be missing from all others. The page-count bound (page_count × size at least the number of rows, from the contract of Paging.GoPageCount) does not depend on the order.
- HTTP and JSON plumbing is not modelled. This covers request binding (`ShouldBind`, `Atoi`,
  `parseInt` giving NaN) and the response layout. Parameters arrive as parsed values, and
  outcomes are `Code`s.
- `GetPage2SizeFormQueryParams` is not part of this model. The book listings take the page and
  size it returns.
- The Go `model.Book` and `model.User` files are not part of this model. The Go models are taken
  to carry the standard soft-delete column, as `model.History` does.
- Node module wiring is not modelled; the model follows the intended decision logic. The wiring
  problems are:
  - `Op` and `sequelize` are never imported;
  - the model files export the model itself, while the handlers destructure `{ Book }`;
  - `getAllHistoriesAdmin` is not exported;
  - no `History`–`User` association is declared.
- Concurrency is not modelled. This includes the Go borrow's read-then-write of residue with no
  row lock: a sequential model cannot express races.
- Floating point is not modelled: `RankingPercent` and the `price` column. Price is an integer,
  of which only zero versus non-zero matters.
- Wall-clock time, the "keep" duration and date formatting are not modelled. Time is an integer
  `now`. The borrow id takes the date string as input.
- SQL specifics are not modelled:
  - LIKE collation and case folding (LIKE is plain containment);
  - ORDER BY collation for text columns: text keys compare by code point, while MySQL's default
    collation ignores case (and, in MySQL 8, accents), so "Banana" sorts before "apple" here and
    after it in MySQL. This affects the exact-page ensures of GoUser.ListBooks and
    NodeAdmin.ListBooks when the sort column is a text column;
  - search_by naming a timestamp column;
  - injection through the raw ORDER BY text (search_by is a column enum, and a bad direction is a
    query error).
- Base64 encoding, the generated `components.d.ts` and the client's user store are not modelled.
  They hold no logic of this repository.
- The Node `isEmail` validator belongs to a library that is not shown. Its verdict is the
  `emailValid` parameter of `NodeAuth.Register`.
- Go int64 overflow of ids, counts and the page arithmetic is not modelled. Integers are unbounded.
- Go `ShouldBind` only fails on malformed input, so Go registration accepts an empty email or
  password. The model has no 400 path for Go registration.
- NodeAdmin.UpdateBook: it does not model JavaScript truthiness for values of the wrong type
  (for example the string "0"). Fields are typed, and falsy means absent, "" or 0.

## Findings

| source | as written | input that shows it | evidently intended | confidence | as-written member | corrected member |
|---|---|---|---|---|---|---|
| book-mgr-backend/handler/user/fetch.go:359-380 | Return marks the matching records and adds one to residue whether or not an outstanding record matched | borrow book 1 (residue 1), then return it twice with the same borrow id: both returns answer 200 and residue becomes 2 | a return closes one outstanding record and is refused (404) otherwise, so residue + outstanding records stays constant | not executed | GoUser.DoubleReturnInflatesResidue | GoUser.ReturnChecked |
| book-mgr-backend/handler/user/fetch.go:258-263 | Borrow sends 400 for a non-positive user or book id but does not return, so the borrow goes ahead | user_id 0, book 1 with residue 1: responses [400, 200] and a record for user 0 is stored | stop after the 400 | not executed | GoUser.InvalidUserStillBorrows | GoUser.BorrowChecked |
| book-mgr-backend/handler/univer/auth.go:114 | the error of `tx.Commit()` is ignored | a commit that fails: the answer is 200 "registered" and no user exists | answer 500 when the commit fails | not executed | GoAuth.CommitFailureReportsSuccess | GoAuth.RegisterChecked |
