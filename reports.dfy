/** What the listing and summary handlers of both backends have in common: the book columns a
    client may search or sort by, the per-user history counts, the user rows an admin listing
    returns (never with the password), and the three summary counts. */
module Reports {
  import opened Records
  import opened Text
  import opened Ordering
  import opened Paging

  /** The book columns a `search_by` parameter can name. */
  datatype Column = Id | Name | Publisher | Year | Remark | Author | Isbn | Price | Residue | CoverUrl

  /** The `search_by` parameter: absent or empty, a column, or a name that is not a column
      (which the database rejects as soon as the query uses it). */
  datatype SearchBy = NoColumn | Col(c: Column) | BadColumn

  /** An ORDER BY direction; anything other than ASC or DESC is a query error. */
  datatype Direction = Asc | Desc | BadDirection

  /** The column's value as LIKE sees it: numbers in decimal, NULL as None. */
  function ColumnText(b: Book, c: Column): (r: Option<string>)
    ensures r.None? ==> c !in {Id, Name}
  {
    match c
    case Id => Some(DecInt(b.id))
    case Name => Some(b.name)
    case Publisher => b.publisher
    case Year => if b.year.Some? then Some(DecInt(b.year.value)) else None
    case Remark => b.remark
    case Author => b.author
    case Isbn => b.isbn
    case Price => if b.price.Some? then Some(DecInt(b.price.value)) else None
    case Residue => if b.residue.Some? then Some(DecInt(b.residue.value)) else None
    case CoverUrl => b.coverUrl
  }

  /** The column's value as ORDER BY sees it. */
  function ColumnKey(c: Column): Book -> Key {
    (b: Book) =>
      match c
      case Id => Num(b.id)
      case Name => Str(b.name)
      case Publisher => if b.publisher.Some? then Str(b.publisher.value) else Null
      case Year => if b.year.Some? then Num(b.year.value) else Null
      case Remark => if b.remark.Some? then Str(b.remark.value) else Null
      case Author => if b.author.Some? then Str(b.author.value) else Null
      case Isbn => if b.isbn.Some? then Str(b.isbn.value) else Null
      case Price => if b.price.Some? then Num(b.price.value) else Null
      case Residue => if b.residue.Some? then Num(b.residue.value) else Null
      case CoverUrl => if b.coverUrl.Some? then Str(b.coverUrl.value) else Null
  }

  /** `column LIKE '%pat%'`: false on NULL. */
  predicate ColumnLike(b: Book, c: Column, pat: string) {
    var t := ColumnText(b, c);
    t.Some? && Contains(t.value, pat)
  }

  /** A live book whose column contains the pattern. */
  function IsLiveBookLike(c: Column, pat: string): Book -> bool {
    (b: Book) => b.deletedAt.None? && ColumnLike(b, c, pat)
  }

  /** The WHERE of a book listing: a LIKE on the column when both search_by and
      search_content are given, live books only. */
  function BookFilter(searchBy: SearchBy, content: string): Book -> bool {
    if searchBy.Col? && content != "" then IsLiveBookLike(searchBy.c, content) else IsLiveBook()
  }

  predicate Filtered(searchBy: SearchBy, content: string) {
    searchBy.Col? && content != ""
  }

  predicate Sorted(searchBy: SearchBy, sort: Option<Direction>) {
    sort.Some? && searchBy.Col? && sort.value != BadDirection
  }

  /** ORDER BY the search_by column when a sort is requested; otherwise table order. */
  function OrderBooks(rows: seq<Book>, searchBy: SearchBy, sort: Option<Direction>): (r: seq<Book>)
    ensures multiset(r) == multiset(rows)
    ensures Sorted(searchBy, sort) ==> SortedBy(r, ColumnKey(searchBy.c), sort.value == Desc)
  {
    if Sorted(searchBy, sort) then
      SortBySorted(rows, ColumnKey(searchBy.c), sort.value == Desc);
      SortBy(rows, ColumnKey(searchBy.c), sort.value == Desc)
    else rows
  }

  /** A live history record of the user. */
  function IsBorrowedBy(userId: int): History -> bool {
    (h: History) => h.userId == userId && h.deletedAt.None?
  }

  /** A live history record of the user whose copy has not come back. */
  function IsUnreturnedBy(userId: int): History -> bool {
    (h: History) => h.userId == userId && !h.isBack && h.deletedAt.None?
  }

  /** A live user whose email contains the pattern (every live user for an empty pattern). */
  function IsLiveUserLike(pat: string): User -> bool {
    (u: User) => u.deletedAt.None? && Contains(u.email, pat)
  }

  /** An empty search matches every live user: LIKE '%%' and no filter agree. */
  lemma {:induction false} EmptySearchListsAllLive(us: seq<User>)
    ensures Filter(us, IsLiveUserLike("")) == Filter(us, IsLiveUser())
  {
    if us != [] {
      assert IsPrefix("", us[0].email);
      EmptySearchListsAllLive(us[1..]);
    }
  }

  /** `created_at` as an ORDER BY key. */
  function HistoryCreated(): History -> Key {
    (h: History) => Num(h.createdAt)
  }

  /** The `search_type` of a history listing; any other value selects no filter. */
  datatype SearchType = ByEmail | ByName | ByIsbn | OtherType

  /** A slice of a sorted sequence is sorted. */
  lemma SortedWindow<T>(s: seq<T>, key: T -> Key, desc: bool, offset: int, limit: int)
    requires SortedBy(s, key, desc)
    ensures SortedBy(Window(s, offset, limit), key, desc)
  {
    var w := Window(s, offset, limit);
    var k := Start(|s|, offset);
    forall i, j | 0 <= i < j < |w| ensures Before(key(w[i]), key(w[j]), desc) {
      assert w[i] == s[k + i] && w[j] == s[k + j];
    }
  }

  /** Every row of a page cut from a reordering of `Filter(s, p)` is a row of s satisfying p. */
  lemma WindowOfFiltered<T>(s: seq<T>, p: T -> bool, t: seq<T>, offset: int, limit: int)
    requires multiset(t) == multiset(Filter(s, p))
    ensures forall i :: 0 <= i < |Window(t, offset, limit)| ==>
              Window(t, offset, limit)[i] in s && p(Window(t, offset, limit)[i])
  {
    var w := Window(t, offset, limit);
    var f := Filter(s, p);
    forall i | 0 <= i < |w| ensures w[i] in s && p(w[i]) {
      assert w[i] in multiset(t);
      assert w[i] in f;
      var j :| 0 <= j < |f| && f[j] == w[i];
    }
  }

  /** A row of an admin user listing: everything about the user except the password. */
  datatype UserRow = UserRow(id: int, role: string, email: string, borrowedNums: nat,
                             createdAt: int, updatedAt: int)

  /** The loop of both user listings: one row per user, with the number of that user's live
      records whose copy is still out. */
  method BuildUserRows(users: seq<User>, hs: seq<History>) returns (rows: seq<UserRow>)
    ensures |rows| == |users|
    ensures forall k :: 0 <= k < |users| ==>
              && rows[k].id == users[k].id && rows[k].role == users[k].role
              && rows[k].email == users[k].email
              && rows[k].createdAt == users[k].createdAt && rows[k].updatedAt == users[k].updatedAt
              && rows[k].borrowedNums == Count(hs, IsUnreturnedBy(users[k].id))
  {
    rows := [];
    var i := 0;
    while i < |users|
      invariant 0 <= i <= |users| && |rows| == i
      invariant forall k :: 0 <= k < i ==>
                  && rows[k].id == users[k].id && rows[k].role == users[k].role
                  && rows[k].email == users[k].email
                  && rows[k].createdAt == users[k].createdAt && rows[k].updatedAt == users[k].updatedAt
                  && rows[k].borrowedNums == Count(hs, IsUnreturnedBy(users[k].id))
    {
      var u := users[i];
      var borrowed := Count(hs, IsUnreturnedBy(u.id));
      rows := rows + [UserRow(u.id, u.role, u.email, borrowed, u.createdAt, u.updatedAt)];
      i := i + 1;
    }
  }

  /** The admin dashboard's counts. */
  datatype Counts = Counts(userCount: nat, bookCount: nat, borrowedCount: nat)

  /** Three independent counts of live rows; the borrowed count includes returned records.
      A failing count answers 500. */
  function AdminSummary(bs: seq<Book>, us: seq<User>, hs: seq<History>, dbOk: bool): (r: Result<Counts>)
    ensures r.Failed? <==> !dbOk
    ensures r.Failed? ==> r.code == ServerError
    ensures r.Done? ==> r.value.bookCount <= |bs| && r.value.userCount <= |us| && r.value.borrowedCount <= |hs|
    ensures r.Done? ==> r.value.bookCount == Count(bs, IsLiveBook())
                        && r.value.userCount == Count(us, IsLiveUser())
                        && r.value.borrowedCount == Count(hs, IsLiveHistory())
  {
    if !dbOk then Failed(ServerError)
    else Done(Counts(Count(us, IsLiveUser()), Count(bs, IsLiveBook()), Count(hs, IsLiveHistory())))
  }

  /** Every outstanding record of a user is one of the user's records, which is one of the
      live records. */
  lemma UnreturnedWithinBorrowed(hs: seq<History>, userId: int)
    ensures Count(hs, IsUnreturnedBy(userId)) <= Count(hs, IsBorrowedBy(userId)) <= Count(hs, IsLiveHistory())
  {
    CountMonotone(hs, IsUnreturnedBy(userId), IsBorrowedBy(userId));
    CountMonotone(hs, IsBorrowedBy(userId), IsLiveHistory());
  }
}
