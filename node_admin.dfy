/** The Node backend's admin handlers (book-mgr-nodejs/src/handler/admin.js): adding, editing
    and soft-deleting books, and the book, user and history listings. Every model is paranoid,
    so every query sees live rows only; a bad column, a bad direction or a negative
    OFFSET/LIMIT is a query error, answered with 500. The dashboard counts are the same
    three live counts as the Go backend's (Reports.AdminSummary). */
module NodeAdmin {
  import opened Records
  import opened Text
  import opened Ordering
  import opened Paging
  import opened Reports
  import opened Store

  // ---------------------------------------------------------------- add

  /** The nine book fields of a request body; None is a field the body leaves out. */
  datatype BookFields = BookFields(
    name: Option<string>,
    publisher: Option<string>,
    year: Option<int>,
    remark: Option<string>,
    author: Option<string>,
    isbn: Option<string>,
    price: Option<int>,
    residue: Option<int>,
    coverUrl: Option<string>)

  /** JavaScript truthiness of a string field: present and not "". */
  predicate TruthyText(v: Option<string>) {
    v.Some? && v.value != ""
  }

  /** JavaScript truthiness of a number field: present and not 0. */
  predicate TruthyNum(v: Option<int>) {
    v.Some? && v.value != 0
  }

  /** handleAddBookAdmin's outcome: a falsy name or publisher is rejected before anything
      is written; otherwise the single INSERT decides. */
  function AddBookVerdict(f: BookFields, fault: Option<Step>): (c: Code)
    ensures c == BadRequest <==> !TruthyText(f.name) || !TruthyText(f.publisher)
    ensures c == ServerError <==> TruthyText(f.name) && TruthyText(f.publisher) && fault == Some(WriteBook)
    ensures c == Ok <==> TruthyText(f.name) && TruthyText(f.publisher) && fault != Some(WriteBook)
  {
    if !TruthyText(f.name) || !TruthyText(f.publisher) then BadRequest
    else if fault == Some(WriteBook) then ServerError
    else Ok
  }

  /** `Book.create({...})`: the row holds the nine supplied fields as given (absent ones
      NULL), both timestamps are the time of the insert, and it is live. */
  method AddBook(db: Db, f: BookFields, now: int, fault: Option<Step>) returns (r: Result<Book>)
    requires db.Valid()
    modifies db
    ensures db.Valid()
    ensures r.Failed? <==> AddBookVerdict(f, fault) != Ok
    ensures r.Failed? ==> r.code == AddBookVerdict(f, fault) && db.books == old(db.books)
                          && db.nextBookId == old(db.nextBookId)
    ensures r.Done? ==> && db.books == old(db.books) + [r.value]
                        && r.value.id == old(db.nextBookId) && db.nextBookId == old(db.nextBookId) + 1
                        && Some(r.value.name) == f.name && r.value.publisher == f.publisher
                        && r.value.year == f.year && r.value.remark == f.remark
                        && r.value.author == f.author && r.value.isbn == f.isbn
                        && r.value.price == f.price && r.value.residue == f.residue
                        && r.value.coverUrl == f.coverUrl
                        && r.value.createdAt == now && r.value.updatedAt == now
                        && r.value.deletedAt.None?
    ensures db.users == old(db.users) && db.histories == old(db.histories)
  {
    var verdict := AddBookVerdict(f, fault);
    if verdict != Ok {
      return Failed(verdict);
    }
    var row := Book(0, f.name.value, f.publisher, f.year, f.remark, f.author, f.isbn, f.price,
                    f.residue, f.coverUrl, now, now, None);
    var id := db.InsertBook(row);
    r := Done(row.(id := id));
  }

  /** The added book is the live book with its new key: a later lookup finds it. */
  lemma AddedBookIsFound(bs: seq<Book>, b: Book)
    requires forall i :: 0 <= i < |bs| ==> bs[i].id != b.id
    requires b.deletedAt.None?
    ensures FindBook(bs + [b], b.id, false) == Some(|bs|)
  {
    var all := bs + [b];
    var r := FindBook(all, b.id, false);
    assert all[|bs|] == b;
    assert r.Some?;
    assert all[r.value].id == b.id;
  }

  // ---------------------------------------------------------------- update

  function MergeText(v: Option<string>, before: Option<string>): Option<string> {
    if TruthyText(v) then v else before
  }

  function MergeNum(v: Option<int>, before: Option<int>): Option<int> {
    if TruthyNum(v) then v else before
  }

  /** The nine assignments `book.field = field || book.field`. */
  function Merged(b: Book, f: BookFields): (r: Book)
    ensures r.id == b.id && r.createdAt == b.createdAt && r.updatedAt == b.updatedAt
    ensures r.deletedAt == b.deletedAt
  {
    b.(name := if TruthyText(f.name) then f.name.value else b.name,
       publisher := MergeText(f.publisher, b.publisher),
       year := MergeNum(f.year, b.year),
       remark := MergeText(f.remark, b.remark),
       author := MergeText(f.author, b.author),
       isbn := MergeText(f.isbn, b.isbn),
       price := MergeNum(f.price, b.price),
       residue := MergeNum(f.residue, b.residue),
       coverUrl := MergeText(f.coverUrl, b.coverUrl))
  }

  /** A falsy value never overwrites: no field can be cleared to "" or set to 0 by an edit,
      so a residue of 0 can only be kept, never entered. */
  lemma MergeNeverClears(b: Book, f: BookFields)
    ensures Merged(b, f).name == "" ==> b.name == ""
    ensures Merged(b, f).residue == Some(0) ==> b.residue == Some(0)
    ensures Merged(b, f).year == Some(0) ==> b.year == Some(0)
    ensures Merged(b, f).price == Some(0) ==> b.price == Some(0)
    ensures Merged(b, f).publisher == Some("") ==> b.publisher == Some("")
    ensures Merged(b, f).remark == Some("") ==> b.remark == Some("")
    ensures Merged(b, f).author == Some("") ==> b.author == Some("")
    ensures Merged(b, f).isbn == Some("") ==> b.isbn == Some("")
    ensures Merged(b, f).coverUrl == Some("") ==> b.coverUrl == Some("")
  {
  }

  /** Every truthy field is taken from the request; every other field keeps its value. */
  lemma MergeTakesTruthy(b: Book, f: BookFields)
    ensures TruthyText(f.name) ==> Merged(b, f).name == f.name.value
    ensures !TruthyText(f.name) ==> Merged(b, f).name == b.name
    ensures TruthyNum(f.residue) ==> Merged(b, f).residue == f.residue
    ensures !TruthyNum(f.residue) ==> Merged(b, f).residue == b.residue
    ensures TruthyText(f.publisher) ==> Merged(b, f).publisher == f.publisher
    ensures !TruthyText(f.publisher) ==> Merged(b, f).publisher == b.publisher
    ensures TruthyNum(f.year) ==> Merged(b, f).year == f.year
    ensures !TruthyNum(f.year) ==> Merged(b, f).year == b.year
    ensures TruthyText(f.remark) ==> Merged(b, f).remark == f.remark
    ensures !TruthyText(f.remark) ==> Merged(b, f).remark == b.remark
    ensures TruthyText(f.author) ==> Merged(b, f).author == f.author
    ensures !TruthyText(f.author) ==> Merged(b, f).author == b.author
    ensures TruthyText(f.isbn) ==> Merged(b, f).isbn == f.isbn
    ensures !TruthyText(f.isbn) ==> Merged(b, f).isbn == b.isbn
    ensures TruthyNum(f.price) ==> Merged(b, f).price == f.price
    ensures !TruthyNum(f.price) ==> Merged(b, f).price == b.price
    ensures TruthyText(f.coverUrl) ==> Merged(b, f).coverUrl == f.coverUrl
    ensures !TruthyText(f.coverUrl) ==> Merged(b, f).coverUrl == b.coverUrl
  {
  }

  /** Sending the same edit twice changes nothing the second time. */
  lemma MergeIdempotent(b: Book, f: BookFields)
    ensures Merged(Merged(b, f), f) == Merged(b, f)
  {
  }

  /** An edit with nothing truthy in it leaves the row as it was. */
  lemma EmptyEditKeepsRow(b: Book, f: BookFields)
    requires !TruthyText(f.name) && !TruthyText(f.publisher) && !TruthyNum(f.year)
    requires !TruthyText(f.remark) && !TruthyText(f.author) && !TruthyText(f.isbn)
    requires !TruthyNum(f.price) && !TruthyNum(f.residue) && !TruthyText(f.coverUrl)
    ensures Merged(b, f) == b
  {
  }

  /** `save()` writes only when a field changed, and then refreshes updated_at. */
  function Saved(before: Book, after: Book, now: int): (r: Book)
    ensures r.updatedAt == if after == before then before.updatedAt else now
    ensures r.(updatedAt := after.updatedAt) == after
  {
    if after == before then after else after.(updatedAt := now)
  }

  /** handleUpdateBookAdmin: a falsy book_id is rejected, then the live book is looked up
      (404 when there is none), merged and saved. */
  method UpdateBook(db: Db, bookId: Option<int>, f: BookFields, now: int, fault: Option<Step>)
    returns (r: Result<Book>)
    requires db.Valid()
    modifies db
    ensures db.Valid()
    ensures r == Failed(BadRequest) <==> bookId.None? || bookId == Some(0)
    ensures r == Failed(NotFound) <==> && bookId.Some? && bookId != Some(0) && fault != Some(Read)
                                       && FindBook(old(db.books), bookId.value, false).None?
    ensures r.Done? <==> && bookId.Some? && bookId != Some(0) && fault != Some(Read)
                         && FindBook(old(db.books), bookId.value, false).Some?
                         && var k := FindBook(old(db.books), bookId.value, false).value;
                            fault != Some(WriteBook) || Merged(old(db.books)[k], f) == old(db.books)[k]
    ensures r.Failed? ==> r.code in {BadRequest, NotFound, ServerError}
    ensures r.Failed? ==> db.books == old(db.books)
    ensures r.Done? ==> && bookId.Some? && FindBook(old(db.books), bookId.value, false).Some?
                        && var k := FindBook(old(db.books), bookId.value, false).value;
                           && r.value == Saved(old(db.books)[k], Merged(old(db.books)[k], f), now)
                           && db.books == old(db.books)[k := r.value]
    ensures db.users == old(db.users) && db.histories == old(db.histories)
    ensures db.nextBookId == old(db.nextBookId)
  {
    if bookId.None? || bookId.value == 0 {
      return Failed(BadRequest);
    }
    if fault == Some(Read) {
      return Failed(ServerError);
    }
    var found := FindBook(db.books, bookId.value, false);
    if found.None? {
      return Failed(NotFound);
    }
    var k := found.value;
    var before := db.books[k];
    var after := Merged(before, f);
    if after == before {
      return Done(Saved(before, after, now));
    }
    if fault == Some(WriteBook) {
      return Failed(ServerError);
    }
    var saved := Saved(before, after, now);
    db.UpdateBooks(db.books[k := saved]);
    r := Done(saved);
  }

  // ---------------------------------------------------------------- delete

  /** A live row with the given key: what `destroy({ where: { id } })` affects. */
  function IsLiveBookWithId(id: int): Book -> bool {
    (b: Book) => b.id == id && b.deletedAt.None?
  }

  /** The paranoid destroy: stamps deleted_at on the live rows with that key. */
  function SoftDelete(bs: seq<Book>, id: int, now: int): (r: seq<Book>)
    ensures |r| == |bs| && forall i :: 0 <= i < |bs| ==> r[i].id == bs[i].id
  {
    seq(|bs|, i requires 0 <= i < |bs| =>
      if IsLiveBookWithId(id)(bs[i]) then bs[i].(deletedAt := Some(now)) else bs[i])
  }

  /** The destroyed rows drop out of every live count, and only they do. */
  lemma {:induction false} SoftDeleteCounts(bs: seq<Book>, id: int, now: int)
    ensures Count(SoftDelete(bs, id, now), IsLiveBook()) == Count(bs, IsLiveBook()) - Count(bs, IsLiveBookWithId(id))
    ensures Count(SoftDelete(bs, id, now), IsLiveBookWithId(id)) == 0
  {
    if bs != [] {
      var r := SoftDelete(bs, id, now);
      assert r[1..] == SoftDelete(bs[1..], id, now);
      SoftDeleteCounts(bs[1..], id, now);
      CountHead(r, IsLiveBook());
      CountHead(r, IsLiveBookWithId(id));
      CountHead(bs, IsLiveBook());
      CountHead(bs, IsLiveBookWithId(id));
    }
  }

  /** After a delete the book can no longer be found, and the other books are untouched. */
  lemma SoftDeleteHidesOnlyThatBook(bs: seq<Book>, id: int, now: int)
    ensures FindBook(SoftDelete(bs, id, now), id, false).None?
    ensures forall i :: 0 <= i < |bs| && bs[i].id != id ==> SoftDelete(bs, id, now)[i] == bs[i]
  {
    var r := SoftDelete(bs, id, now);
    forall i | 0 <= i < |bs|
      ensures r[i] == if IsLiveBookWithId(id)(bs[i]) then bs[i].(deletedAt := Some(now)) else bs[i]
    {
    }
  }

  /** With unique keys, a delete removes at most one book. */
  lemma {:induction false} DeleteRemovesAtMostOne(bs: seq<Book>, id: int)
    requires UniqueBookIds(bs)
    ensures Count(bs, IsLiveBookWithId(id)) <= 1
  {
    if bs != [] {
      var tail := bs[1..];
      assert UniqueBookIds(tail) by {
        forall a, b | 0 <= a < b < |tail| ensures tail[a].id != tail[b].id {
          assert tail[a] == bs[a + 1] && tail[b] == bs[b + 1];
        }
      }
      DeleteRemovesAtMostOne(tail, id);
      if IsLiveBookWithId(id)(bs[0]) {
        forall k | 0 <= k < |tail| ensures !IsLiveBookWithId(id)(tail[k]) {
          assert tail[k] == bs[k + 1];
        }
        FilterNone(tail, IsLiveBookWithId(id));
      }
    }
  }

  /** handleDeleteBookAdmin: a missing id is rejected; a destroy that affects no row answers
      404. The id comes from the query string, where "0" is truthy and reaches the destroy. */
  method DeleteBook(db: Db, id: Option<int>, now: int, fault: Option<Step>) returns (code: Code)
    requires db.Valid()
    modifies db
    ensures db.Valid()
    ensures code == BadRequest <==> id.None?
    ensures code == ServerError <==> id.Some? && fault == Some(WriteBook)
    ensures code == NotFound <==> id.Some? && fault != Some(WriteBook) && Count(old(db.books), IsLiveBookWithId(id.value)) == 0
    ensures code == Ok <==> id.Some? && fault != Some(WriteBook) && Count(old(db.books), IsLiveBookWithId(id.value)) > 0
    ensures code in {BadRequest, ServerError, NotFound, Ok}
    ensures code == Ok ==> db.books == SoftDelete(old(db.books), id.value, now)
    ensures code != Ok ==> db.books == old(db.books)
    ensures db.users == old(db.users) && db.histories == old(db.histories)
  {
    if id.None? {
      return BadRequest;
    }
    if fault == Some(WriteBook) {
      return ServerError;
    }
    if Count(db.books, IsLiveBookWithId(id.value)) == 0 {
      return NotFound;
    }
    db.UpdateBooks(SoftDelete(db.books, id.value, now));
    code := Ok;
  }

  // ---------------------------------------------------------------- book listing

  datatype NodeBookPage = NodeBookPage(books: seq<Book>, pageCount: JsNumber, totalBooks: nat)

  /** The page query: filtered, ordered by search_by when given, then OFFSET/LIMIT. */
  function NodePageOfBooks(bs: seq<Book>, page: int, size: int, searchBy: SearchBy, content: string,
                           sort: Direction): (w: seq<Book>)
    ensures size >= 0 ==> |w| <= size
    ensures forall i :: 0 <= i < |w| ==>
              && w[i] in bs && w[i].deletedAt.None?
              && (Filtered(searchBy, content) ==> ColumnLike(w[i], searchBy.c, content))
  {
    var ordered := OrderBooks(Filter(bs, BookFilter(searchBy, content)), searchBy, Some(sort));
    WindowOfFiltered(bs, BookFilter(searchBy, content), ordered, Offset(page, size), size);
    Window(ordered, Offset(page, size), size)
  }

  /** handleGetAllBooksAdmin: unlike the Go handler, the total is counted with the same
      filter as the page. Any search_by is used for ordering (ASC unless a direction is
      given), so a name that is not a column fails even without search content. A zero
      size answers 200 with an empty page and an infinite (or NaN) page count. */
  function ListBooks(bs: seq<Book>, page: int, size: int, searchBy: SearchBy, content: string,
                     sort: Direction, dbOk: bool): (r: Result<NodeBookPage>)
    ensures r.Failed? ==> r.code == ServerError
    ensures r.Failed? <==> || !dbOk || searchBy.BadColumn? || (searchBy.Col? && sort == BadDirection)
                           || Offset(page, size) < 0 || size < 0
    ensures r.Done? ==> r.value.totalBooks == Count(bs, BookFilter(searchBy, content))
    ensures r.Done? ==> r.value.pageCount == JsPageCount(r.value.totalBooks, size)
    ensures r.Done? ==> r.value.books == Window(OrderBooks(Filter(bs, BookFilter(searchBy, content)), searchBy, Some(sort)),
                                                Offset(page, size), size)
    ensures r.Done? ==> |r.value.books| <= size
    ensures r.Done? ==> forall i :: 0 <= i < |r.value.books| ==>
              && r.value.books[i] in bs && r.value.books[i].deletedAt.None?
              && (Filtered(searchBy, content) ==> ColumnLike(r.value.books[i], searchBy.c, content))
  {
    if !dbOk || searchBy.BadColumn? || (searchBy.Col? && sort == BadDirection) then Failed(ServerError)
    else
      var total := Count(bs, BookFilter(searchBy, content));
      if Offset(page, size) < 0 || size < 0 then Failed(ServerError)
      else Done(NodeBookPage(NodePageOfBooks(bs, page, size, searchBy, content, sort),
                             JsPageCount(total, size), total))
  }

  /** Pages 1 .. page_count (as ListBooks computes it from the filtered total) hold exactly
      the matching books, in order. */
  lemma ListBooksPagesCoverMatches(bs: seq<Book>, size: int, searchBy: SearchBy, content: string, sort: Direction)
    requires size > 0
    ensures var ordered := OrderBooks(Filter(bs, BookFilter(searchBy, content)), searchBy, Some(sort));
            FirstPages(ordered, size, JsPageCount(Count(bs, BookFilter(searchBy, content)), size).n) == ordered
  {
    var rows := Filter(bs, BookFilter(searchBy, content));
    var ordered := OrderBooks(rows, searchBy, Some(sort));
    assert |ordered| == |rows| by {
      assert |multiset(ordered)| == |multiset(rows)|;
    }
    PageCountsAgree(|rows|, size);
    PagesCoverAllRows(ordered, size, |rows|);
  }

  /** With a column given, the page is in that column's order, ascending by default. */
  lemma ListBooksSorted(bs: seq<Book>, page: int, size: int, c: Column, content: string, sort: Direction)
    requires ListBooks(bs, page, size, Col(c), content, sort, true).Done?
    ensures sort != BadDirection
    ensures SortedBy(ListBooks(bs, page, size, Col(c), content, sort, true).value.books, ColumnKey(c), sort == Desc)
  {
    var ordered := OrderBooks(Filter(bs, BookFilter(Col(c), content)), Col(c), Some(sort));
    SortedWindow(ordered, ColumnKey(c), sort == Desc, Offset(page, size), size);
  }

  /** Without a search the two backends report the same total; with one, the Node total
      counts only the matches and never exceeds it. */
  lemma NodeTotalWithinLiveTotal(bs: seq<Book>, page: int, size: int, searchBy: SearchBy, content: string,
                                 sort: Direction)
    requires ListBooks(bs, page, size, searchBy, content, sort, true).Done?
    ensures ListBooks(bs, page, size, searchBy, content, sort, true).value.totalBooks <= Count(bs, IsLiveBook())
    ensures !Filtered(searchBy, content) ==>
              ListBooks(bs, page, size, searchBy, content, sort, true).value.totalBooks == Count(bs, IsLiveBook())
  {
    CountMonotone(bs, BookFilter(searchBy, content), IsLiveBook());
  }

  // ---------------------------------------------------------------- users

  datatype NodeUserPage = NodeUserPage(users: seq<UserRow>, pageCount: JsNumber)

  /** handleGetAllUsersAdmin: live users, filtered by email when search_email is non-empty,
      one row each with the user's live outstanding records and no password; page_count is
      over every live user. */
  method ListUsers(db: Db, page: int, size: int, searchEmail: string, dbOk: bool) returns (r: Result<NodeUserPage>)
    ensures r.Failed? <==> !dbOk || Offset(page, size) < 0 || size < 0
    ensures r.Failed? ==> r.code == ServerError
    ensures r.Done? ==> r.value.pageCount == JsPageCount(Count(db.users, IsLiveUser()), size)
    ensures r.Done? ==> var listed := Window(Filter(db.users, IsLiveUserLike(searchEmail)), Offset(page, size), size);
            && |r.value.users| == |listed|
            && forall k :: 0 <= k < |listed| ==>
                 && r.value.users[k].id == listed[k].id && r.value.users[k].role == listed[k].role
                 && r.value.users[k].email == listed[k].email
                 && r.value.users[k].createdAt == listed[k].createdAt
                 && r.value.users[k].updatedAt == listed[k].updatedAt
                 && r.value.users[k].borrowedNums == Count(db.histories, IsUnreturnedBy(listed[k].id))
  {
    if !dbOk {
      return Failed(ServerError);
    }
    var window := NodeWindow(Filter(db.users, IsLiveUserLike(searchEmail)), Offset(page, size), size);
    if window.None? {
      return Failed(ServerError);
    }
    var rows := BuildUserRows(window.value, db.histories);
    r := Done(NodeUserPage(rows, JsPageCount(Count(db.users, IsLiveUser()), size)));
  }

  // ---------------------------------------------------------------- histories

  /** A live history record with its live user and live book, if they exist (the includes
      are LEFT joins on paranoid models). */
  datatype NodeJoined = NodeJoined(h: History, user: Option<User>, book: Option<Book>)

  function UserOf(us: seq<User>, id: int): (r: Option<User>)
    ensures r.Some? ==> r.value in us && r.value.id == id && r.value.deletedAt.None?
    ensures r.None? <==> FindUser(us, id, false).None?
  {
    match FindUser(us, id, false)
    case None => None
    case Some(k) => Some(us[k])
  }

  function BookOf(bs: seq<Book>, id: int): (r: Option<Book>)
    ensures r.Some? ==> r.value in bs && r.value.id == id && r.value.deletedAt.None?
    ensures r.None? <==> FindBook(bs, id, false).None?
  {
    match FindBook(bs, id, false)
    case None => None
    case Some(k) => Some(bs[k])
  }

  /** One joined row per live record, in table order. */
  function LeftJoin(hs: seq<History>, us: seq<User>, bs: seq<Book>): (r: seq<NodeJoined>)
    ensures |r| == Count(hs, IsLiveHistory())
    ensures forall i :: 0 <= i < |r| ==> r[i].h == Filter(hs, IsLiveHistory())[i]
  {
    var live := Filter(hs, IsLiveHistory());
    seq(|live|, i requires 0 <= i < |live| =>
      NodeJoined(live[i], UserOf(us, live[i].userId), BookOf(bs, live[i].bookId)))
  }

  /** The search switch: a `where` on an include makes it an INNER join, so a record whose
      user (or book) is missing drops out as well; an empty target or any other type adds
      nothing. */
  function NodeHistoryFilter(t: SearchType, target: string): (f: NodeJoined -> bool)
    ensures target == "" || t == OtherType ==> forall j :: f(j)
    ensures target != "" && t == ByEmail ==>
              forall j :: f(j) == (j.user.Some? && Contains(j.user.value.email, target))
    ensures target != "" && t == ByName ==>
              forall j :: f(j) == (j.book.Some? && Contains(j.book.value.name, target))
    ensures target != "" && t == ByIsbn ==>
              forall j :: f(j) == (j.book.Some? && j.book.value.isbn.Some? && Contains(j.book.value.isbn.value, target))
  {
    if target == "" then (j: NodeJoined) => true
    else match t
      case ByEmail => (j: NodeJoined) => j.user.Some? && Contains(j.user.value.email, target)
      case ByName => (j: NodeJoined) => j.book.Some? && Contains(j.book.value.name, target)
      case ByIsbn => (j: NodeJoined) => j.book.Some? && j.book.value.isbn.Some? && Contains(j.book.value.isbn.value, target)
      case OtherType => (j: NodeJoined) => true
  }

  function NodeJoinedCreated(): NodeJoined -> Key {
    (j: NodeJoined) => Num(j.h.createdAt)
  }

  /** The rows the count and the page query select, newest first. */
  function NodeSelected(hs: seq<History>, us: seq<User>, bs: seq<Book>, t: SearchType, target: string)
    : (r: seq<NodeJoined>)
    ensures multiset(r) == multiset(Filter(LeftJoin(hs, us, bs), NodeHistoryFilter(t, target)))
    ensures SortedBy(r, NodeJoinedCreated(), true)
  {
    var rows := Filter(LeftJoin(hs, us, bs), NodeHistoryFilter(t, target));
    SortBySorted(rows, NodeJoinedCreated(), true);
    SortBy(rows, NodeJoinedCreated(), true)
  }

  /** A flattened history row; a field is None when the user or book is missing, or the isbn is NULL. */
  datatype NodeHistoryRow = NodeHistoryRow(id: int, borrowId: string, email: Option<string>,
                                           bookName: Option<string>, bookIsbn: Option<string>,
                                           createdAt: int, isBack: bool)

  function Flatten(j: NodeJoined): NodeHistoryRow {
    NodeHistoryRow(j.h.id, j.h.borrowId,
                   if j.user.Some? then Some(j.user.value.email) else None,
                   if j.book.Some? then Some(j.book.value.name) else None,
                   if j.book.Some? then j.book.value.isbn else None,
                   j.h.createdAt, j.h.isBack)
  }

  /** The response's `map` over the page: one flat row per joined row, field by field. */
  function FlattenAll(p: seq<NodeJoined>): (r: seq<NodeHistoryRow>)
    ensures |r| == |p|
    ensures forall k :: 0 <= k < |p| ==>
              && r[k].id == p[k].h.id && r[k].borrowId == p[k].h.borrowId
              && r[k].createdAt == p[k].h.createdAt && r[k].isBack == p[k].h.isBack
              && (p[k].user.Some? <==> r[k].email.Some?)
              && (p[k].user.Some? ==> r[k].email == Some(p[k].user.value.email))
              && (p[k].book.Some? <==> r[k].bookName.Some?)
              && (p[k].book.Some? ==> r[k].bookName == Some(p[k].book.value.name))
              && (p[k].book.Some? ==> r[k].bookIsbn == p[k].book.value.isbn)
              && (p[k].book.None? ==> r[k].bookIsbn.None?)
  {
    seq(|p|, k requires 0 <= k < |p| => Flatten(p[k]))
  }

  datatype NodeHistoryPage = NodeHistoryPage(histories: seq<NodeHistoryRow>, pageCount: JsNumber)

  /** getAllHistoriesAdmin: the count and the page share one query; the page is newest
      first and flattened with `map`. */
  function ListHistories(hs: seq<History>, us: seq<User>, bs: seq<Book>, page: int, size: int,
                         t: SearchType, target: string, dbOk: bool): (r: Result<NodeHistoryPage>)
    ensures r.Failed? <==> !dbOk || Offset(page, size) < 0 || size < 0
    ensures r.Failed? ==> r.code == ServerError
    ensures r.Done? ==> r.value.pageCount
                        == JsPageCount(|Filter(LeftJoin(hs, us, bs), NodeHistoryFilter(t, target))|, size)
    ensures r.Done? ==> r.value.histories == FlattenAll(Window(NodeSelected(hs, us, bs, t, target), Offset(page, size), size))
  {
    if !dbOk then Failed(ServerError)
    else
      var total := |Filter(LeftJoin(hs, us, bs), NodeHistoryFilter(t, target))|;
      match NodeWindow(NodeSelected(hs, us, bs, t, target), Offset(page, size), size)
      case None => Failed(ServerError)
      case Some(p) =>
        Done(NodeHistoryPage(FlattenAll(p), JsPageCount(total, size)))
  }

  /** With no usable filter every live record is counted, including those whose user or book
      is gone. */
  lemma UnfilteredCountsEveryLiveRecord(hs: seq<History>, us: seq<User>, bs: seq<Book>, t: SearchType, target: string)
    requires target == "" || t == OtherType
    ensures |Filter(LeftJoin(hs, us, bs), NodeHistoryFilter(t, target))| == Count(hs, IsLiveHistory())
  {
    FilterAll(LeftJoin(hs, us, bs), NodeHistoryFilter(t, target));
  }

  /** Every record on the page is live, passes the filter, and the page is newest first. */
  lemma HistoryPageNewestFirst(hs: seq<History>, us: seq<User>, bs: seq<Book>, t: SearchType, target: string,
                               page: int, size: int)
    ensures var p := Window(NodeSelected(hs, us, bs, t, target), Offset(page, size), size);
            && SortedBy(p, NodeJoinedCreated(), true)
            && forall k :: 0 <= k < |p| ==> p[k].h in hs && p[k].h.deletedAt.None? && NodeHistoryFilter(t, target)(p[k])
  {
    var sel := NodeSelected(hs, us, bs, t, target);
    var joined := LeftJoin(hs, us, bs);
    SortedWindow(sel, NodeJoinedCreated(), true, Offset(page, size), size);
    WindowOfFiltered(joined, NodeHistoryFilter(t, target), sel, Offset(page, size), size);
    var p := Window(sel, Offset(page, size), size);
    forall k | 0 <= k < |p| ensures p[k].h in hs && p[k].h.deletedAt.None? {
      JoinedRecordIsLive(hs, us, bs, p[k]);
    }
  }

  lemma JoinedRecordIsLive(hs: seq<History>, us: seq<User>, bs: seq<Book>, x: NodeJoined)
    requires x in LeftJoin(hs, us, bs)
    ensures x.h in hs && x.h.deletedAt.None?
  {
    var joined := LeftJoin(hs, us, bs);
    var live := Filter(hs, IsLiveHistory());
    var i :| 0 <= i < |joined| && joined[i] == x;
    assert x.h == live[i];
  }
}
