/** The Go backend's admin handlers (book-mgr-backend/handler/admin/fetch.go): the dashboard
    summary, the user listing with per-user outstanding counts, and the borrow history
    listing joined with users and books. The admin book listing is the same code as the
    user one (GoUser.ListBooks). */
module GoAdmin {
  import opened Records
  import opened Text
  import opened Ordering
  import opened Paging
  import opened Inventory
  import opened Reports
  import opened Store

  // ---------------------------------------------------------------- summary

  /** A successful borrow raises the borrowed count by one and leaves the other two counts. */
  lemma BorrowCountsOneMore(bs: seq<Book>, us: seq<User>, hs: seq<History>, k: int, rec: History, now: int)
    requires 0 <= k < |bs| && rec.deletedAt.None?
    ensures var before := AdminSummary(bs, us, hs, true).value;
            var after := AdminSummary(SetResidue(bs, bs[k].id, ResidueValue(bs[k]) - 1, now), us, hs + [rec], true).value;
            && after.bookCount == before.bookCount && after.userCount == before.userCount
            && after.borrowedCount == before.borrowedCount + 1
  {
    var bs' := SetResidue(bs, bs[k].id, ResidueValue(bs[k]) - 1, now);
    CountPointwise(bs, bs', IsLiveBook());
    CountAppend(hs, [rec], IsLiveHistory());
    assert Count([rec], IsLiveHistory()) == 1;
  }

  /** A return changes no count: returned records stay in the borrowed count. */
  lemma ReturnKeepsCounts(bs: seq<Book>, us: seq<User>, hs: seq<History>, borrowId: string,
                          userId: int, bookId: int, now: int)
    ensures AdminSummary(BumpResidue(bs, bookId, now), us, MarkReturned(hs, borrowId, userId, bookId, now), true)
            == AdminSummary(bs, us, hs, true)
  {
    CountPointwise(bs, BumpResidue(bs, bookId, now), IsLiveBook());
    CountPointwise(hs, MarkReturned(hs, borrowId, userId, bookId, now), IsLiveHistory());
  }

  // ---------------------------------------------------------------- users

  datatype UserPage = UserPage(users: seq<UserRow>, pageCount: int)

  /** `WHERE deleted_at IS NULL [AND email LIKE '%e%'] OFFSET (page-1)*size LIMIT size`. */
  function ListedUsers(us: seq<User>, page: int, size: int, searchEmail: string): (r: seq<User>)
    ensures size >= 0 ==> |r| <= size
    ensures forall k :: 0 <= k < |r| ==> r[k] in us && r[k].deletedAt.None? && Contains(r[k].email, searchEmail)
  {
    WindowOfFiltered(us, IsLiveUserLike(searchEmail), Filter(us, IsLiveUserLike(searchEmail)), Offset(page, size), size);
    Window(Filter(us, IsLiveUserLike(searchEmail)), Offset(page, size), size)
  }

  /** HandleGetAllUsers_Admin: one row per listed user with the number of that user's live
      records still out, no password; the page count is over all live users, ignoring the
      email filter, and a zero size panics in its division. */
  method ListUsers(db: Db, page: int, size: int, searchEmail: string, dbOk: bool) returns (r: Result<UserPage>)
    ensures r.Failed? <==> !dbOk || size == 0
    ensures r.Failed? ==> r.code == ServerError
    ensures r.Done? ==> var listed := ListedUsers(db.users, page, size, searchEmail);
            && |r.value.users| == |listed|
            && forall k :: 0 <= k < |listed| ==>
                 && r.value.users[k].id == listed[k].id && r.value.users[k].role == listed[k].role
                 && r.value.users[k].email == listed[k].email
                 && r.value.users[k].createdAt == listed[k].createdAt
                 && r.value.users[k].updatedAt == listed[k].updatedAt
                 && r.value.users[k].borrowedNums == Count(db.histories, IsUnreturnedBy(listed[k].id))
    ensures r.Done? ==> Some(r.value.pageCount) == GoPageCount(Count(db.users, IsLiveUser()), size)
  {
    if !dbOk {
      return Failed(ServerError);
    }
    var listed := ListedUsers(db.users, page, size, searchEmail);
    var rows := BuildUserRows(listed, db.histories);
    var total := Count(db.users, IsLiveUser());
    var pc := GoPageCount(total, size);
    if pc.None? {
      return Failed(ServerError);
    }
    r := Done(UserPage(rows, pc.value));
  }

  // ---------------------------------------------------------------- histories

  /** A history record joined with its user's email and its book's name and isbn. */
  datatype Joined = Joined(h: History, email: string, bookName: string, bookIsbn: Option<string>)

  /** A joined row built from a record of `hs` and the rows of its user and its book. */
  predicate JoinedFrom(x: Joined, hs: seq<History>, us: seq<User>, bs: seq<Book>) {
    && x.h in hs
    && FindUser(us, x.h.userId, true).Some? && FindBook(bs, x.h.bookId, true).Some?
    && x.email == us[FindUser(us, x.h.userId, true).value].email
    && x.bookName == bs[FindBook(bs, x.h.bookId, true).value].name
    && x.bookIsbn == bs[FindBook(bs, x.h.bookId, true).value].isbn
  }

  /** A record whose user row and book row both exist, deleted or not. */
  function HasUserAndBook(us: seq<User>, bs: seq<Book>): History -> bool {
    (h: History) => FindUser(us, h.userId, true).Some? && FindBook(bs, h.bookId, true).Some?
  }

  /** `t_history JOIN t_user JOIN t_books`: a raw-table query with no soft-delete condition,
      so deleted records, users and books take part. Keys are unique, so each record whose
      user and book rows exist joins exactly once, and the others not at all. */
  function JoinAll(hs: seq<History>, us: seq<User>, bs: seq<Book>): (r: seq<Joined>)
    ensures |r| == |Filter(hs, HasUserAndBook(us, bs))| <= |hs|
    ensures forall i :: 0 <= i < |r| ==> r[i].h == Filter(hs, HasUserAndBook(us, bs))[i]
    ensures forall i :: 0 <= i < |r| ==> JoinedFrom(r[i], hs, us, bs)
  {
    var sel := Filter(hs, HasUserAndBook(us, bs));
    seq(|sel|, i requires 0 <= i < |sel| =>
      var u := FindUser(us, sel[i].userId, true).value;
      var b := FindBook(bs, sel[i].bookId, true).value;
      Joined(sel[i], us[u].email, bs[b].name, bs[b].isbn))
  }

  /** Every record whose user and book rows exist, deleted or not, appears in the join. */
  lemma JoinAllComplete(hs: seq<History>, us: seq<User>, bs: seq<Book>, i: int)
    returns (j: int)
    requires 0 <= i < |hs| && FindUser(us, hs[i].userId, true).Some? && FindBook(bs, hs[i].bookId, true).Some?
    ensures 0 <= j < |JoinAll(hs, us, bs)| && JoinAll(hs, us, bs)[j].h == hs[i]
  {
    var sel := Filter(hs, HasUserAndBook(us, bs));
    assert HasUserAndBook(us, bs)(hs[i]);
    assert hs[i] in sel;
    j :| 0 <= j < |sel| && sel[j] == hs[i];
  }

  /** The search switch: a LIKE on the email, the book name or the isbn (NULL never
      matches) when the target is non-empty; any other type filters nothing. */
  function HistoryFilter(t: SearchType, target: string): (f: Joined -> bool)
    ensures target == "" || t == OtherType ==> forall j :: f(j)
    ensures target != "" && t == ByEmail ==> forall j :: f(j) == Contains(j.email, target)
    ensures target != "" && t == ByName ==> forall j :: f(j) == Contains(j.bookName, target)
    ensures target != "" && t == ByIsbn ==>
              forall j :: f(j) == (j.bookIsbn.Some? && Contains(j.bookIsbn.value, target))
  {
    if target == "" then (j: Joined) => true
    else match t
      case ByEmail => (j: Joined) => Contains(j.email, target)
      case ByName => (j: Joined) => Contains(j.bookName, target)
      case ByIsbn => (j: Joined) => j.bookIsbn.Some? && Contains(j.bookIsbn.value, target)
      case OtherType => (j: Joined) => true
  }

  function JoinedCreated(): Joined -> Key {
    (j: Joined) => Num(j.h.createdAt)
  }

  /** The rows the count and the page query select, newest first. */
  function SelectedHistories(hs: seq<History>, us: seq<User>, bs: seq<Book>, t: SearchType, target: string): (r: seq<Joined>)
    ensures multiset(r) == multiset(Filter(JoinAll(hs, us, bs), HistoryFilter(t, target)))
    ensures SortedBy(r, JoinedCreated(), true)
  {
    var rows := Filter(JoinAll(hs, us, bs), HistoryFilter(t, target));
    SortBySorted(rows, JoinedCreated(), true);
    SortBy(rows, JoinedCreated(), true)
  }

  function HistoryPageRows(hs: seq<History>, us: seq<User>, bs: seq<Book>, t: SearchType, target: string,
                           page: int, size: int): seq<Joined> {
    Window(SelectedHistories(hs, us, bs, t, target), Offset(page, size), size)
  }

  /** An empty target or an unknown type selects every joined record. */
  lemma UnknownTypeFiltersNothing(hs: seq<History>, us: seq<User>, bs: seq<Book>, t: SearchType, target: string)
    requires target == "" || t == OtherType
    ensures Filter(JoinAll(hs, us, bs), HistoryFilter(t, target)) == JoinAll(hs, us, bs)
  {
    FilterAll(JoinAll(hs, us, bs), HistoryFilter(t, target));
  }

  /** Every row on the page is a record whose user and book both exist, that passes the
      search filter, and the page is newest first. */
  lemma HistoryPageJoined(hs: seq<History>, us: seq<User>, bs: seq<Book>, t: SearchType, target: string,
                          page: int, size: int)
    ensures var p := HistoryPageRows(hs, us, bs, t, target, page, size);
            && SortedBy(p, JoinedCreated(), true)
            && forall k :: 0 <= k < |p| ==>
                 && p[k].h in hs && HistoryFilter(t, target)(p[k])
                 && FindUser(us, p[k].h.userId, true).Some? && FindBook(bs, p[k].h.bookId, true).Some?
  {
    var sel := SelectedHistories(hs, us, bs, t, target);
    var joined := JoinAll(hs, us, bs);
    SortedWindow(sel, JoinedCreated(), true, Offset(page, size), size);
    WindowOfFiltered(joined, HistoryFilter(t, target), sel, Offset(page, size), size);
    var p := HistoryPageRows(hs, us, bs, t, target, page, size);
    forall k | 0 <= k < |p|
      ensures p[k].h in hs && FindUser(us, p[k].h.userId, true).Some? && FindBook(bs, p[k].h.bookId, true).Some?
    {
      JoinedRowExists(hs, us, bs, p[k]);
    }
  }

  lemma JoinedRowExists(hs: seq<History>, us: seq<User>, bs: seq<Book>, x: Joined)
    requires x in JoinAll(hs, us, bs)
    ensures x.h in hs && FindUser(us, x.h.userId, true).Some? && FindBook(bs, x.h.bookId, true).Some?
  {
    var joined := JoinAll(hs, us, bs);
    var j :| 0 <= j < |joined| && joined[j] == x;
  }

  /** A row of the history listing; a NULL isbn is scanned as the empty string. */
  datatype BorrowHistory = BorrowHistory(id: int, borrowId: string, email: string, bookName: string,
                                         bookIsbn: string, createdAt: int, isBack: bool)

  datatype HistoryPage = HistoryPage(histories: seq<BorrowHistory>, pageCount: int)

  /** The Scan loop: each joined row copied field by field, a NULL isbn as "". */
  method ProjectHistories(p: seq<Joined>) returns (rows: seq<BorrowHistory>)
    ensures |rows| == |p|
    ensures forall k :: 0 <= k < |p| ==>
              && rows[k].id == p[k].h.id && rows[k].borrowId == p[k].h.borrowId
              && rows[k].email == p[k].email && rows[k].bookName == p[k].bookName
              && rows[k].bookIsbn == p[k].bookIsbn.GetOr("")
              && rows[k].createdAt == p[k].h.createdAt && rows[k].isBack == p[k].h.isBack
  {
    rows := [];
    var i := 0;
    while i < |p|
      invariant 0 <= i <= |p| && |rows| == i
      invariant forall k :: 0 <= k < i ==>
                  && rows[k].id == p[k].h.id && rows[k].borrowId == p[k].h.borrowId
                  && rows[k].email == p[k].email && rows[k].bookName == p[k].bookName
                  && rows[k].bookIsbn == p[k].bookIsbn.GetOr("")
                  && rows[k].createdAt == p[k].h.createdAt && rows[k].isBack == p[k].h.isBack
    {
      var j := p[i];
      rows := rows + [BorrowHistory(j.h.id, j.h.borrowId, j.email, j.bookName, j.bookIsbn.GetOr(""),
                                    j.h.createdAt, j.h.isBack)];
      i := i + 1;
    }
  }

  /** GetAllHistories_Admin: the count and the page use the same join and filter; the page is
      newest first (HistoryPageJoined). A zero size panics in the page-count division. */
  method ListHistories(db: Db, page: int, size: int, t: SearchType, target: string, dbOk: bool)
    returns (r: Result<HistoryPage>)
    ensures r.Failed? <==> !dbOk || size == 0
    ensures r.Failed? ==> r.code == ServerError
    ensures r.Done? ==> Some(r.value.pageCount)
                        == GoPageCount(|Filter(JoinAll(db.histories, db.users, db.books), HistoryFilter(t, target))|, size)
    ensures r.Done? ==> var p := HistoryPageRows(db.histories, db.users, db.books, t, target, page, size);
            && |r.value.histories| == |p|
            && forall k :: 0 <= k < |p| ==>
                 && r.value.histories[k].id == p[k].h.id && r.value.histories[k].borrowId == p[k].h.borrowId
                 && r.value.histories[k].email == p[k].email && r.value.histories[k].bookName == p[k].bookName
                 && r.value.histories[k].bookIsbn == p[k].bookIsbn.GetOr("")
                 && r.value.histories[k].createdAt == p[k].h.createdAt
                 && r.value.histories[k].isBack == p[k].h.isBack
  {
    if !dbOk {
      return Failed(ServerError);
    }
    var total := |Filter(JoinAll(db.histories, db.users, db.books), HistoryFilter(t, target))|;
    var pc := GoPageCount(total, size);
    if pc.None? {
      return Failed(ServerError);
    }
    var p := HistoryPageRows(db.histories, db.users, db.books, t, target, page, size);
    var rows := ProjectHistories(p);
    r := Done(HistoryPage(rows, pc.value));
  }
}
