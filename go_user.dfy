/** The Go backend's user handlers (book-mgr-backend/handler/user/fetch.go): the personal
    summary, the book listing (the admin listing runs the same code), the "my borrowed" page,
    borrowing and returning a book, and the borrow id. Each database statement may fail
    (`fault`, `dbOk`); a failed transaction leaves every table as it was. */
module GoUser {
  import opened Records
  import opened Numbers
  import opened Text
  import opened Ordering
  import opened Paging
  import opened Inventory
  import opened Reports
  import opened Store

  // ---------------------------------------------------------------- borrow id

  /** `unix % 86400` on int64: the second of the (UTC) day for a time after 1970. */
  function SecondsOfDay(unix: int): (s: int)
    ensures unix >= 0 ==> 0 <= s < 86400
    ensures unix >= 0 ==> s == unix % 86400
  {
    TruncRem(unix, 86400)
  }

  /** `<date><user id><book id><second of day>` with no separators. */
  function CreateBorrowId(date: string, userId: int, bookId: int, unix: int): (r: string)
    ensures |r| >= |date| + 3 && r[..|date|] == date
    ensures r[|date|..] == DecInt(userId) + DecInt(bookId) + DecInt(SecondsOfDay(unix))
  {
    var r := date + DecInt(userId) + DecInt(bookId) + DecInt(SecondsOfDay(unix));
    assert r == date + (DecInt(userId) + DecInt(bookId) + DecInt(SecondsOfDay(unix)));
    r
  }

  /** The id starts with the date and, for non-negative ids and times, the rest is digits
      only: nothing marks where one number ends and the next begins. */
  lemma BorrowIdShape(date: string, userId: int, bookId: int, unix: int)
    requires userId >= 0 && bookId >= 0 && unix >= 0
    ensures var r := CreateBorrowId(date, userId, bookId, unix);
            |r| >= |date| + 3 && r[..|date|] == date && AllDigits(r[|date|..])
  {
    var u, b, s := DecInt(userId), DecInt(bookId), DecInt(SecondsOfDay(unix));
    AllDigitsAppend(u, b);
    AllDigitsAppend(u + b, s);
    assert date + u + b + s == date + (u + b + s);
    assert (date + (u + b + s))[|date|..] == u + b + s;
  }

  /** Without separators the id is not injective: user 1 borrowing book 23 and user 12
      borrowing book 3 in the same second get the same id. */
  lemma BorrowIdsCollide(date: string, unix: int)
    ensures CreateBorrowId(date, 1, 23, unix) == CreateBorrowId(date, 12, 3, unix)
  {
    assert DecInt(1) == "1" && DecInt(3) == "3";
    assert DecInt(12) == DecNat(1) + [Digit(2)] == "12";
    assert DecInt(23) == DecNat(2) + [Digit(3)] == "23";
    var s := DecInt(SecondsOfDay(unix));
    assert CreateBorrowId(date, 1, 23, unix) == date + "123" + s;
    assert CreateBorrowId(date, 12, 3, unix) == date + "123" + s;
  }

  /** For one user, book and date, the id does tell the second of the day apart. */
  lemma {:induction false} BorrowIdDeterminesSecond(date: string, userId: int, bookId: int, t1: int, t2: int)
    requires t1 >= 0 && t2 >= 0
    requires CreateBorrowId(date, userId, bookId, t1) == CreateBorrowId(date, userId, bookId, t2)
    ensures SecondsOfDay(t1) == SecondsOfDay(t2)
  {
    var p := date + DecInt(userId) + DecInt(bookId);
    var s1, s2 := SecondsOfDay(t1), SecondsOfDay(t2);
    assert CreateBorrowId(date, userId, bookId, t1) == p + DecNat(s1);
    assert CreateBorrowId(date, userId, bookId, t2) == p + DecNat(s2);
    DecSuffixInjective(p, s1, s2);
  }

  lemma DecSuffixInjective(p: string, a: nat, b: nat)
    requires p + DecNat(a) == p + DecNat(b)
    ensures a == b
  {
    assert DecNat(a) == (p + DecNat(a))[|p|..];
    assert DecNat(b) == (p + DecNat(b))[|p|..];
    ParseDecNat(a);
    ParseDecNat(b);
  }

  // ---------------------------------------------------------------- summary

  datatype UserSummary = UserSummary(unreturned: nat, borrowedNums: nat, totalBorrowed: nat)

  /** HandleGetSummary_User, integer counts only: a non-positive id is a bad request, a
      failed count a server error; otherwise unreturned <= borrowed <= all records. */
  function GetSummary(hs: seq<History>, userId: int, dbOk: bool): (r: Result<UserSummary>)
    ensures userId <= 0 ==> r == Failed(BadRequest)
    ensures userId > 0 && !dbOk ==> r == Failed(ServerError)
    ensures r.Done? <==> userId > 0 && dbOk
    ensures r.Done? ==> r.value.unreturned <= r.value.borrowedNums <= r.value.totalBorrowed <= |hs|
    ensures r.Done? ==> && r.value.unreturned == Count(hs, IsUnreturnedBy(userId))
                        && r.value.borrowedNums == Count(hs, IsBorrowedBy(userId))
                        && r.value.totalBorrowed == Count(hs, IsLiveHistory())
  {
    if userId <= 0 then Failed(BadRequest)
    else if !dbOk then Failed(ServerError)
    else
      UnreturnedWithinBorrowed(hs, userId);
      Done(UserSummary(Count(hs, IsUnreturnedBy(userId)), Count(hs, IsBorrowedBy(userId)),
                       Count(hs, IsLiveHistory())))
  }

  // ---------------------------------------------------------------- book listing

  datatype BookPage = BookPage(books: seq<Book>, pageCount: int, totalBooks: nat)

  /** HandleGetAllBooks_User (and HandleGetAllBooks_Admin, the same code): the total and the
      page count are over every live book, while the page is filtered and ordered. A zero
      size panics in the page-count division; an unknown search_by column, or a sort without
      a column or with a direction other than ASC/DESC, is a query error. */
  function ListBooks(bs: seq<Book>, page: int, size: int, searchBy: SearchBy, content: string,
                     sort: Option<Direction>, dbOk: bool): (r: Result<BookPage>)
    ensures r.Failed? ==> r.code == ServerError
    ensures r.Failed? <==> || !dbOk || size == 0 || (searchBy.BadColumn? && content != "")
                           || (sort.Some? && (!searchBy.Col? || sort.value == BadDirection))
    ensures r.Done? ==> r.value.totalBooks == Count(bs, IsLiveBook())
    ensures r.Done? ==> Some(r.value.pageCount) == GoPageCount(r.value.totalBooks, size)
    ensures r.Done? ==> r.value.books == Window(OrderBooks(Filter(bs, BookFilter(searchBy, content)), searchBy, sort),
                                                Offset(page, size), size)
    ensures r.Done? && size > 0 ==> |r.value.books| <= size
    ensures r.Done? ==> forall i :: 0 <= i < |r.value.books| ==>
              && r.value.books[i] in bs && r.value.books[i].deletedAt.None?
              && (Filtered(searchBy, content) ==> ColumnLike(r.value.books[i], searchBy.c, content))
  {
    if !dbOk then Failed(ServerError)
    else
      var total := Count(bs, IsLiveBook());
      var pc := GoPageCount(total, size);
      if pc.None? then Failed(ServerError)
      else if searchBy.BadColumn? && content != "" then Failed(ServerError)
      else if sort.Some? && (!searchBy.Col? || sort.value == BadDirection) then Failed(ServerError)
      else
        Done(BookPage(PageOfBooks(bs, page, size, searchBy, content, sort), pc.value, total))
  }

  /** The page query: filtered, ordered, then OFFSET/LIMIT. */
  function PageOfBooks(bs: seq<Book>, page: int, size: int, searchBy: SearchBy, content: string,
                       sort: Option<Direction>): (w: seq<Book>)
    ensures size >= 0 ==> |w| <= size
    ensures forall i :: 0 <= i < |w| ==>
              && w[i] in bs && w[i].deletedAt.None?
              && (Filtered(searchBy, content) ==> ColumnLike(w[i], searchBy.c, content))
  {
    var ordered := OrderBooks(Filter(bs, BookFilter(searchBy, content)), searchBy, sort);
    WindowOfFiltered(bs, BookFilter(searchBy, content), ordered, Offset(page, size), size);
    Window(ordered, Offset(page, size), size)
  }

  /** The total and the page count do not depend on the search: they can promise more pages
      than the filtered rows fill. */
  lemma ListBooksTotalIgnoresSearch(bs: seq<Book>, page1: int, page2: int, size: int,
                                    by1: SearchBy, by2: SearchBy, c1: string, c2: string,
                                    s1: Option<Direction>, s2: Option<Direction>)
    requires ListBooks(bs, page1, size, by1, c1, s1, true).Done?
    requires ListBooks(bs, page2, size, by2, c2, s2, true).Done?
    ensures ListBooks(bs, page1, size, by1, c1, s1, true).value.totalBooks
            == ListBooks(bs, page2, size, by2, c2, s2, true).value.totalBooks
    ensures ListBooks(bs, page1, size, by1, c1, s1, true).value.pageCount
            == ListBooks(bs, page2, size, by2, c2, s2, true).value.pageCount
  {
  }

  /** With a sort requested, the page is in that column's order. */
  lemma ListBooksSorted(bs: seq<Book>, page: int, size: int, searchBy: SearchBy, content: string,
                        sort: Option<Direction>)
    requires ListBooks(bs, page, size, searchBy, content, sort, true).Done?
    requires sort.Some? && sort.value != BadDirection
    ensures searchBy.Col?
    ensures SortedBy(ListBooks(bs, page, size, searchBy, content, sort, true).value.books,
                     ColumnKey(searchBy.c), sort.value == Desc)
  {
    var ordered := OrderBooks(Filter(bs, BookFilter(searchBy, content)), searchBy, sort);
    SortedWindow(ordered, ColumnKey(searchBy.c), sort.value == Desc, Offset(page, size), size);
  }

  /** Requesting pages 1 .. page_count returns every matching book: the unfiltered page count
      is never too small. */
  lemma ListBooksPagesCoverMatches(bs: seq<Book>, size: int, searchBy: SearchBy, content: string,
                                   sort: Option<Direction>)
    requires size > 0
    requires ListBooks(bs, 1, size, searchBy, content, sort, true).Done?
    ensures var ordered := OrderBooks(Filter(bs, BookFilter(searchBy, content)), searchBy, sort);
            FirstPages(ordered, size, ListBooks(bs, 1, size, searchBy, content, sort, true).value.pageCount)
            == ordered
  {
    var r := ListBooks(bs, 1, size, searchBy, content, sort, true).value;
    var rows := Filter(bs, BookFilter(searchBy, content));
    var ordered := OrderBooks(rows, searchBy, sort);
    CountMonotone(bs, BookFilter(searchBy, content), IsLiveBook());
    assert |ordered| == |rows| by {
      assert |multiset(ordered)| == |multiset(rows)|;
    }
    PagesCoverAllRows(ordered, size, r.totalBooks);
  }

  // ---------------------------------------------------------------- my borrowed

  /** `JOIN t_books ON t_books.id = t_history.book_id WHERE t_books.name LIKE '%name%'`: a raw
      join, so a deleted book row matches too. */
  predicate BookNameLike(bs: seq<Book>, bookId: int, name: string) {
    var k := FindBook(bs, bookId, true);
    k.Some? && Contains(bs[k.value].name, name)
  }

  /** One of the user's live records, passing the optional book-name filter. */
  function IsMineNamed(bs: seq<Book>, userId: int, name: string): History -> bool {
    (h: History) => h.userId == userId && h.deletedAt.None? && (name != "" ==> BookNameLike(bs, h.bookId, name))
  }

  /** The records both the count and the page query select, newest first. */
  function MyRecords(hs: seq<History>, bs: seq<Book>, userId: int, name: string): (r: seq<History>)
    ensures multiset(r) == multiset(Filter(hs, IsMineNamed(bs, userId, name)))
    ensures SortedBy(r, HistoryCreated(), true)
  {
    SortBySorted(Filter(hs, IsMineNamed(bs, userId, name)), HistoryCreated(), true);
    SortBy(Filter(hs, IsMineNamed(bs, userId, name)), HistoryCreated(), true)
  }

  function MyPage(hs: seq<History>, bs: seq<Book>, userId: int, name: string, page: int, size: int): seq<History> {
    Window(MyRecords(hs, bs, userId, name), Offset(page, size), size)
  }

  /** The page holds only the user's own live records that pass the filter, newest first. */
  lemma MyPageIsMine(hs: seq<History>, bs: seq<Book>, userId: int, name: string, page: int, size: int)
    ensures var p := MyPage(hs, bs, userId, name, page, size);
            && SortedBy(p, HistoryCreated(), true)
            && forall k :: 0 <= k < |p| ==>
                 p[k] in hs && p[k].userId == userId && p[k].deletedAt.None?
                 && (name != "" ==> BookNameLike(bs, p[k].bookId, name))
  {
    var recs := MyRecords(hs, bs, userId, name);
    var p := MyPage(hs, bs, userId, name, page, size);
    SortedWindow(recs, HistoryCreated(), true, Offset(page, size), size);
    WindowOfFiltered(hs, IsMineNamed(bs, userId, name), recs, Offset(page, size), size);
  }

  /** The count and the page use the same filter: pages 1 .. page_count list every selected
      record exactly once, in order. */
  lemma MyPagesCoverRecords(hs: seq<History>, bs: seq<Book>, userId: int, name: string, size: int)
    requires size > 0
    ensures var recs := MyRecords(hs, bs, userId, name);
            FirstPages(recs, size, GoPageCount(|Filter(hs, IsMineNamed(bs, userId, name))|, size).value) == recs
  {
    var recs := MyRecords(hs, bs, userId, name);
    assert |recs| == |Filter(hs, IsMineNamed(bs, userId, name))| by {
      assert |multiset(recs)| == |recs|;
    }
    PagesCoverAllRows(recs, size, |recs|);
  }

  /** A row of the my-borrowed response. The book comes from a preload, which skips deleted
      books and leaves Go's zero values (empty name and isbn). */
  datatype BorrowedRow = BorrowedRow(id: int, userId: int, bookId: int, borrowId: string,
                                     borrowedAt: int, isBack: bool, name: string, isbn: string)

  datatype BorrowedPage = BorrowedPage(rows: seq<BorrowedRow>, pageCount: int)

  function RowOf(h: History, bs: seq<Book>): BorrowedRow
    requires h.borrowedAt.Some?
  {
    var k := FindBook(bs, h.bookId, false);
    var name := if k.Some? then bs[k.value].name else "";
    var isbn := if k.Some? then bs[k.value].isbn.GetOr("") else "";
    BorrowedRow(h.id, h.userId, h.bookId, h.borrowId, h.borrowedAt.value, h.isBack, name, isbn)
  }

  /** The response loop: one row per record, in order; a record without a borrow time
      dereferences a nil pointer and stops the handler. */
  method BorrowedRows(recs: seq<History>, bs: seq<Book>) returns (rows: Option<seq<BorrowedRow>>)
    ensures rows.Some? <==> forall k :: 0 <= k < |recs| ==> recs[k].borrowedAt.Some?
    ensures rows.Some? ==> && |rows.value| == |recs|
                           && forall k :: 0 <= k < |recs| ==>
                                recs[k].borrowedAt.Some? && rows.value[k] == RowOf(recs[k], bs)
  {
    var acc: seq<BorrowedRow> := [];
    var i := 0;
    while i < |recs|
      invariant 0 <= i <= |recs| && |acc| == i
      invariant forall k :: 0 <= k < i ==> recs[k].borrowedAt.Some? && acc[k] == RowOf(recs[k], bs)
    {
      if recs[i].borrowedAt.None? {
        return None;
      }
      acc := acc + [RowOf(recs[i], bs)];
      i := i + 1;
    }
    rows := Some(acc);
  }

  /** HandleGetAllMyBorrowed_User: user id 0 is a bad request; the count query's error is
      never looked at, so a failing count leaves the total at 0 and the handler goes on; a
      failing page query is 500; the response is built record by record, and a record
      without a borrow time panics (500); a zero size panics in the final page-count
      division. `countOk` and `dbOk` are the outcomes of the count and the page query. */
  method MyBorrowed(db: Db, page: int, size: int, name: string, userId: int, countOk: bool, dbOk: bool)
    returns (r: Result<BorrowedPage>)
    ensures userId == 0 ==> r == Failed(BadRequest)
    ensures userId != 0 && !dbOk ==> r == Failed(ServerError)
    ensures r.Failed? ==> r.code == BadRequest || r.code == ServerError
    ensures var recs := MyPage(db.histories, db.books, userId, name, page, size);
            r.Done? <==> userId != 0 && dbOk && size != 0
                         && forall k :: 0 <= k < |recs| ==> recs[k].borrowedAt.Some?
    ensures r.Done? ==> var recs := MyPage(db.histories, db.books, userId, name, page, size);
            && |r.value.rows| == |recs|
            && forall k :: 0 <= k < |recs| ==>
                 && r.value.rows[k].userId == userId && r.value.rows[k].id == recs[k].id
                 && recs[k].borrowedAt.Some? && r.value.rows[k] == RowOf(recs[k], db.books)
    ensures r.Done? ==>
              Some(r.value.pageCount)
              == GoPageCount(if countOk then |Filter(db.histories, IsMineNamed(db.books, userId, name))| else 0, size)
    ensures r.Done? && !countOk && size > 0 ==> r.value.pageCount == 0
  {
    if userId == 0 {
      return Failed(BadRequest);
    }
    var total := if countOk then |Filter(db.histories, IsMineNamed(db.books, userId, name))| else 0;
    if !dbOk {
      return Failed(ServerError);
    }
    var recs := MyPage(db.histories, db.books, userId, name, page, size);
    MyPageIsMine(db.histories, db.books, userId, name, page, size);
    var built := BorrowedRows(recs, db.books);
    if built.None? {
      return Failed(ServerError);
    }
    var rows := built.value;
    var pc := GoPageCount(total, size);
    if pc.None? {
      return Failed(ServerError);
    }
    if !countOk && size > 0 {
      PageCountZeroIffEmpty(0, size);
    }
    r := Done(BorrowedPage(rows, pc.value));
  }

  // ---------------------------------------------------------------- borrow

  /** The outcome of the borrow transaction: the book must be a live row with a positive
      residue (a NULL residue reads as 0); any failing statement is a server error. A fault
      on the user table does not concern this transaction. */
  function BorrowVerdict(bs: seq<Book>, bookId: int, fault: Option<Step>): (c: Code)
    ensures c == Ok || c == Unprocessable || c == ServerError
    ensures c == Ok <==> && (fault.None? || fault == Some(WriteUser))
                         && FindBook(bs, bookId, false).Some?
                         && ResidueValue(bs[FindBook(bs, bookId, false).value]) > 0
    ensures c == Unprocessable <==> && fault != Some(Read) && FindBook(bs, bookId, false).Some?
                                    && ResidueValue(bs[FindBook(bs, bookId, false).value]) <= 0
  {
    if fault == Some(Read) then ServerError
    else match FindBook(bs, bookId, false)
         case None => ServerError
         case Some(k) =>
           if ResidueValue(bs[k]) <= 0 then Unprocessable
           else if fault.Some? && fault.value != WriteUser then ServerError
           else Ok
  }

  /** The tables after a borrow of a live book commits: its residue drops by one and one
      outstanding record of the user and the book is appended under the next key. */
  ghost predicate Committed(books: seq<Book>, histories: seq<History>, nextId: int,
                            books': seq<Book>, histories': seq<History>, nextId': int,
                            userId: int, bookId: int, date: string, now: int)
  {
    && FindBook(books, bookId, false).Some?
    && var k := FindBook(books, bookId, false).value;
    && books' == SetResidue(books, bookId, ResidueValue(books[k]) - 1, now)
    && histories' == histories + [NewRecord(nextId, CreateBorrowId(date, userId, bookId, now), userId, bookId, now)]
    && nextId' == nextId + 1
  }

  /** HandleBorrowBookById_User as written: the invalid-id branch reports 400 but does not
      return, so the transaction still runs and a second answer follows. */
  method Borrow(db: Db, userId: int, bookId: int, date: string, now: int, fault: Option<Step>)
    returns (codes: seq<Code>)
    requires db.Valid()
    modifies db
    ensures db.Valid()
    ensures codes == (if userId <= 0 || bookId <= 0 then [BadRequest] else [])
                     + [BorrowVerdict(old(db.books), bookId, fault)]
    ensures BorrowVerdict(old(db.books), bookId, fault) == Ok ==>
              Committed(old(db.books), old(db.histories), old(db.nextHistoryId),
                        db.books, db.histories, db.nextHistoryId, userId, bookId, date, now)
    ensures BorrowVerdict(old(db.books), bookId, fault) != Ok ==>
              db.books == old(db.books) && db.histories == old(db.histories)
              && db.nextHistoryId == old(db.nextHistoryId)
    ensures db.users == old(db.users) && db.nextUserId == old(db.nextUserId)
    ensures db.nextBookId == old(db.nextBookId)
  {
    codes := if userId <= 0 || bookId <= 0 then [BadRequest] else [];
    // The lookup, the residue check and the write faults decide the transaction's outcome;
    // only a transaction that commits touches the tables.
    var verdict := BorrowVerdict(db.books, bookId, fault);
    codes := codes + [verdict];
    if verdict == Ok {
      CommitBorrow(db, userId, bookId, date, now);
    }
  }

  /** The two writes of a borrow that commits: the book's residue drops by one, then the
      record is appended. */
  method CommitBorrow(db: Db, userId: int, bookId: int, date: string, now: int)
    requires db.Valid() && FindBook(db.books, bookId, false).Some?
    modifies db
    ensures db.Valid()
    ensures Committed(old(db.books), old(db.histories), old(db.nextHistoryId),
                      db.books, db.histories, db.nextHistoryId, userId, bookId, date, now)
    ensures db.users == old(db.users) && db.nextUserId == old(db.nextUserId)
    ensures db.nextBookId == old(db.nextBookId)
  {
    var k := FindBook(db.books, bookId, false).value;
    var books := SetResidue(db.books, bookId, ResidueValue(db.books[k]) - 1, now);
    var record := NewRecord(db.nextHistoryId, CreateBorrowId(date, userId, bookId, now), userId, bookId, now);
    db.UpdateBooks(books);
    var _ := db.InsertHistory(record);
    assert record.(id := old(db.nextHistoryId)) == record;
  }

  /** Borrow with the intended early return: invalid ids are answered once and change
      nothing. */
  method BorrowChecked(db: Db, userId: int, bookId: int, date: string, now: int, fault: Option<Step>)
    returns (code: Code)
    requires db.Valid()
    modifies db
    ensures db.Valid()
    ensures userId <= 0 || bookId <= 0 ==> code == BadRequest
    ensures userId > 0 && bookId > 0 ==> code == BorrowVerdict(old(db.books), bookId, fault)
    ensures code == Ok ==>
              Committed(old(db.books), old(db.histories), old(db.nextHistoryId),
                        db.books, db.histories, db.nextHistoryId, userId, bookId, date, now)
    ensures code != Ok ==>
              db.books == old(db.books) && db.histories == old(db.histories)
              && db.nextHistoryId == old(db.nextHistoryId)
    ensures db.users == old(db.users) && db.nextUserId == old(db.nextUserId)
    ensures db.nextBookId == old(db.nextBookId)
  {
    if userId <= 0 || bookId <= 0 {
      return BadRequest;
    }
    var codes := Borrow(db, userId, bookId, date, now, fault);
    code := codes[0];
  }

  /** The one live book the scenarios below start from: a single copy on the shelf. */
  const OneCopy: Book := Book(1, "Dune", None, None, None, None, None, None, Some(1), None, 0, 0, None)

  /** The updates of a borrow and a return on a table holding one live book. */
  lemma OneBookUpdates(b: Book, v: int, t: int)
    requires b.deletedAt.None?
    ensures FindBook([b], b.id, false) == Some(0)
    ensures SetResidue([b], b.id, v, t) == [b.(residue := Some(v), updatedAt := t)]
    ensures BumpResidue([b], b.id, t) == [b.(residue := Incremented(b.residue), updatedAt := t)]
  {
  }

  /** The updates of a return on a history holding one record. */
  lemma OneRecordUpdates(h: History, t: int)
    requires h.deletedAt.None?
    ensures MarkReturned([h], h.borrowId, h.userId, h.bookId, t) == [h.(isBack := true, updatedAt := t)]
    ensures !h.isBack ==> FirstOutstandingMatch([h], h.borrowId, h.userId, h.bookId) == Some(0)
    ensures h.isBack ==> FirstOutstandingMatch([h], h.borrowId, h.userId, h.bookId) == None
    ensures CloseRecord([h], 0, t) == [h.(isBack := true, updatedAt := t)]
  {
  }

  /** A table holding exactly one live book with one copy. */
  method OneCopyDb() returns (db: Db)
    ensures fresh(db) && db.Valid()
    ensures db.books == [OneCopy] && db.histories == [] && db.nextHistoryId == 1
  {
    db := new Db();
    var _ := db.InsertBook(OneCopy.(id := 0));
  }

  /** User 7 borrows the only copy, at 3600 seconds, through the handler as written or with
      the early return. */
  method LendOneCopy(checked: bool) returns (db: Db, code: Code)
    ensures fresh(db) && db.Valid() && code == Ok
    ensures db.books == [OneCopy.(residue := Some(0), updatedAt := 3600)] && |db.histories| == 1
    ensures && db.histories[0].deletedAt.None? && !db.histories[0].isBack
            && db.histories[0].userId == 7 && db.histories[0].bookId == 1
            && db.histories[0].borrowId != ""
  {
    db := OneCopyDb();
    OneBookUpdates(OneCopy, 0, 3600);
    if checked {
      code := BorrowChecked(db, 7, 1, "20240101", 3600, None);
    } else {
      var codes := Borrow(db, 7, 1, "20240101", 3600, None);
      code := codes[0];
    }
  }

  /** A request with user id 0 is answered 400 and then 200, and the record is written for
      user 0. */
  method InvalidUserStillBorrows() returns (codes: seq<Code>, recorded: History)
    ensures codes == [BadRequest, Ok]
    ensures recorded.userId == 0 && recorded.bookId == 1 && !recorded.isBack
  {
    var db := OneCopyDb();
    OneBookUpdates(OneCopy, 0, 3600);
    codes := Borrow(db, 0, 1, "20240101", 3600, None);
    assert |db.histories| == 1;
    recorded := db.histories[0];
  }

  // ---------------------------------------------------------------- return

  /** HandleReturnBookById_User as written: after the parameter check it marks every matching
      live record returned and adds one to the book's residue, whether or not any record
      matched and whether or not it was already returned. */
  method Return(db: Db, borrowId: string, userId: int, bookId: int, now: int, fault: Option<Step>)
    returns (code: Code)
    requires db.Valid()
    modifies db
    ensures db.Valid()
    ensures userId <= 0 || bookId <= 0 || borrowId == "" ==> code == BadRequest
    ensures userId > 0 && bookId > 0 && borrowId != "" ==>
              code == (if fault == Some(WriteHistory) || fault == Some(WriteBook) || fault == Some(Commit)
                       then ServerError else Ok)
    ensures code == Ok ==> && db.histories == MarkReturned(old(db.histories), borrowId, userId, bookId, now)
                           && db.books == BumpResidue(old(db.books), bookId, now)
    ensures code != Ok ==> db.histories == old(db.histories) && db.books == old(db.books)
    ensures db.users == old(db.users) && db.nextUserId == old(db.nextUserId)
    ensures db.nextBookId == old(db.nextBookId) && db.nextHistoryId == old(db.nextHistoryId)
  {
    if userId <= 0 || bookId <= 0 || borrowId == "" {
      return BadRequest;
    }
    var histories := MarkReturned(db.histories, borrowId, userId, bookId, now);
    if fault == Some(WriteHistory) {
      return ServerError;
    }
    var books := BumpResidue(db.books, bookId, now);
    if fault == Some(WriteBook) || fault == Some(Commit) {
      return ServerError;
    }
    db.UpdateHistories(histories);
    db.UpdateBooks(books);
    code := Ok;
  }

  /** Borrowing the only copy and returning it twice leaves two copies on the shelf. */
  method DoubleReturnInflatesResidue() returns (codes: seq<Code>, residue: Option<int>)
    ensures codes == [Ok, Ok, Ok]
    ensures residue == Some(2)
  {
    var db, borrowed := LendOneCopy(false);
    var out, rec := db.books[0], db.histories[0];
    OneBookUpdates(out, 0, 3700);
    OneRecordUpdates(rec, 3700);
    var first := Return(db, rec.borrowId, 7, 1, 3700, None);
    var back := out.(residue := Some(1), updatedAt := 3700);
    var closed := rec.(isBack := true, updatedAt := 3700);
    assert db.books == [back] && db.histories == [closed];
    OneBookUpdates(back, 0, 3800);
    OneRecordUpdates(closed, 3800);
    var second := Return(db, rec.borrowId, 7, 1, 3800, None);
    codes := [borrowed, first, second];
    residue := db.books[0].residue;
  }

  /** The intended return: it closes one outstanding record the request names and only then
      gives the copy back; no such record is answered 404 and changes nothing. */
  method ReturnChecked(db: Db, borrowId: string, userId: int, bookId: int, now: int, fault: Option<Step>)
    returns (code: Code)
    requires db.Valid()
    modifies db
    ensures db.Valid()
    ensures userId <= 0 || bookId <= 0 || borrowId == "" ==> code == BadRequest
    ensures userId > 0 && bookId > 0 && borrowId != "" ==>
              var j := FirstOutstandingMatch(old(db.histories), borrowId, userId, bookId);
              code == (if fault == Some(Read) then ServerError
                       else if j.None? then NotFound
                       else if fault == Some(WriteHistory) || fault == Some(WriteBook) || fault == Some(Commit)
                       then ServerError else Ok)
    ensures code == Ok ==>
              var j := FirstOutstandingMatch(old(db.histories), borrowId, userId, bookId);
              && j.Some?
              && db.histories == CloseRecord(old(db.histories), j.value, now)
              && db.books == BumpResidue(old(db.books), bookId, now)
    ensures code != Ok ==> db.histories == old(db.histories) && db.books == old(db.books)
    ensures db.users == old(db.users) && db.nextUserId == old(db.nextUserId)
    ensures db.nextBookId == old(db.nextBookId) && db.nextHistoryId == old(db.nextHistoryId)
  {
    if userId <= 0 || bookId <= 0 || borrowId == "" {
      return BadRequest;
    }
    if fault == Some(Read) {
      return ServerError;
    }
    var j := FirstOutstandingMatch(db.histories, borrowId, userId, bookId);
    if j.None? {
      return NotFound;
    }
    var histories := CloseRecord(db.histories, j.value, now);
    if fault == Some(WriteHistory) {
      return ServerError;
    }
    var books := BumpResidue(db.books, bookId, now);
    if fault == Some(WriteBook) || fault == Some(Commit) {
      return ServerError;
    }
    db.UpdateHistories(histories);
    db.UpdateBooks(books);
    code := Ok;
  }

  /** With the intended return, the second return of the same borrow is refused and the
      residue goes back to exactly one copy. */
  method DoubleReturnChecked() returns (codes: seq<Code>, residue: Option<int>)
    ensures codes == [Ok, Ok, NotFound]
    ensures residue == Some(1)
  {
    var db, borrowed := LendOneCopy(true);
    var out, rec := db.books[0], db.histories[0];
    OneBookUpdates(out, 0, 3700);
    OneRecordUpdates(rec, 3700);
    var first := ReturnChecked(db, rec.borrowId, 7, 1, 3700, None);
    var closed := rec.(isBack := true, updatedAt := 3700);
    assert db.histories == [closed];
    OneRecordUpdates(closed, 3800);
    var second := ReturnChecked(db, rec.borrowId, 7, 1, 3800, None);
    codes := [borrowed, first, second];
    residue := db.books[0].residue;
  }
}
