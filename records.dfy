/** The three tables of the library (books, users, borrow history), the outcome codes the
    handlers answer with, and the generic filtering/counting every report is built from.
    Soft deletion is an explicit `deletedAt` field; every query below says whether it
    includes deleted rows. Tables are sequences in primary-key (insertion) order. */
module Records {

  datatype Option<T> = None | Some(value: T) {
    function GetOr(default: T): T {
      if Some? then value else default
    }
  }

  /** The `code` a handler reports to its client. */
  datatype Code = Ok | BadRequest | Unauthorized | Forbidden | NotFound | Conflict
                | Unprocessable | ServerError
  {
    function Status(): (n: int)
      ensures 200 <= n < 600
      ensures n == 200 <==> this == Ok
    {
      match this
      case Ok => 200
      case BadRequest => 400
      case Unauthorized => 401
      case Forbidden => 403
      case NotFound => 404
      case Conflict => 409
      case Unprocessable => 422
      case ServerError => 500
    }
  }

  /** A handler's answer: a value, or the failure code it reported. */
  datatype Result<T> = Done(value: T) | Failed(code: Code)

  /** The statement at which the data store reports an error: a read, a write to one of the
      three tables, or the commit of the transaction. */
  datatype Step = Read | WriteBook | WriteUser | WriteHistory | Commit

  /** A book row. Columns other than id, name and the timestamps may be NULL (None). */
  datatype Book = Book(
    id: int,
    name: string,
    publisher: Option<string>,
    year: Option<int>,
    remark: Option<string>,
    author: Option<string>,
    isbn: Option<string>,
    price: Option<int>,    // only whether it is zero matters to the handlers
    residue: Option<int>,  // copies currently available for borrowing
    coverUrl: Option<string>,
    createdAt: int,
    updatedAt: int,
    deletedAt: Option<int>)

  datatype User = User(
    id: int,
    role: string,
    email: string,
    password: string,
    createdAt: int,
    updatedAt: int,
    deletedAt: Option<int>)

  /** A borrow record; `isBack == false` means the copy is still out. */
  datatype History = History(
    id: int,
    borrowId: string,
    userId: int,
    bookId: int,
    borrowedAt: Option<int>,
    isBack: bool,
    createdAt: int,
    updatedAt: int,
    deletedAt: Option<int>)

  const AdminRole: string := "admin"
  const UserRole: string := "user"

  /** The rows of `s` satisfying `p`, in table order. */
  function Filter<T>(s: seq<T>, p: T -> bool): (r: seq<T>)
    ensures |r| <= |s|
    ensures forall i :: 0 <= i < |r| ==> p(r[i]) && r[i] in s
    ensures forall i :: 0 <= i < |s| && p(s[i]) ==> s[i] in r
    ensures multiset(r) <= multiset(s)
  {
    if s == [] then []
    else
      var rest := Filter(s[1..], p);
      var r := if p(s[0]) then [s[0]] + rest else rest;
      FilterStep(s, p, rest, r);
      r
  }

  /** One step of the selection: the head row is kept exactly when it qualifies. */
  lemma FilterStep<T>(s: seq<T>, p: T -> bool, rest: seq<T>, r: seq<T>)
    requires s != [] && r == (if p(s[0]) then [s[0]] + rest else rest)
    requires |rest| <= |s| - 1
    requires forall i :: 0 <= i < |rest| ==> p(rest[i]) && rest[i] in s[1..]
    requires forall i :: 0 <= i < |s| - 1 && p(s[1..][i]) ==> s[1..][i] in rest
    requires multiset(rest) <= multiset(s[1..])
    ensures |r| <= |s|
    ensures forall i :: 0 <= i < |r| ==> p(r[i]) && r[i] in s
    ensures forall i :: 0 <= i < |s| && p(s[i]) ==> s[i] in r
    ensures multiset(r) <= multiset(s)
  {
    assert s == [s[0]] + s[1..];
    forall i | 0 < i < |s| && p(s[i])
      ensures s[i] in r
    {
      assert s[i] == s[1..][i - 1];
    }
  }

  /** SELECT COUNT(*) ... WHERE p */
  function Count<T>(s: seq<T>, p: T -> bool): nat
  {
    |Filter(s, p)|
  }

  /** The first row counts on its own, the rest as a table. */
  lemma CountHead<T>(s: seq<T>, p: T -> bool)
    requires s != []
    ensures Count(s, p) == (if p(s[0]) then 1 else 0) + Count(s[1..], p)
  {
  }

  lemma {:induction false} FilterAppend<T>(a: seq<T>, b: seq<T>, p: T -> bool)
    ensures Filter(a + b, p) == Filter(a, p) + Filter(b, p)
  {
    if a == [] {
      assert a + b == b;
    } else {
      assert (a + b)[1..] == a[1..] + b;
      FilterAppend(a[1..], b, p);
    }
  }

  lemma CountAppend<T>(a: seq<T>, b: seq<T>, p: T -> bool)
    ensures Count(a + b, p) == Count(a, p) + Count(b, p)
  {
    FilterAppend(a, b, p);
  }

  /** A stronger condition never counts more rows. */
  lemma {:induction false} CountMonotone<T>(s: seq<T>, p: T -> bool, q: T -> bool)
    requires forall x :: p(x) ==> q(x)
    ensures Count(s, p) <= Count(s, q)
  {
    if s != [] {
      CountMonotone(s[1..], p, q);
    }
  }

  /** Replacing one row changes the count by what the old and the new row contribute. */
  lemma CountUpdate<T>(s: seq<T>, i: int, y: T, p: T -> bool)
    requires 0 <= i < |s|
    ensures Count(s[i := y], p) == Count(s, p) - (if p(s[i]) then 1 else 0) + (if p(y) then 1 else 0)
  {
    assert s == s[..i] + [s[i]] + s[i + 1..];
    assert s[i := y] == s[..i] + [y] + s[i + 1..];
    CountAppend(s[..i] + [s[i]], s[i + 1..], p);
    CountAppend(s[..i], [s[i]], p);
    CountAppend(s[..i] + [y], s[i + 1..], p);
    CountAppend(s[..i], [y], p);
  }

  /** Two tables whose rows agree on p row by row have the same count. */
  lemma {:induction false} CountPointwise<T>(s: seq<T>, t: seq<T>, p: T -> bool)
    requires |s| == |t| && forall i :: 0 <= i < |s| ==> p(s[i]) == p(t[i])
    ensures Count(s, p) == Count(t, p)
  {
    if s != [] {
      assert forall i :: 0 <= i < |s| - 1 ==> s[1..][i] == s[i + 1] && t[1..][i] == t[i + 1];
      CountPointwise(s[1..], t[1..], p);
    }
  }

  /** A condition every row satisfies keeps the whole table. */
  lemma {:induction false} FilterAll<T>(s: seq<T>, p: T -> bool)
    requires forall i :: 0 <= i < |s| ==> p(s[i])
    ensures Filter(s, p) == s
  {
    if s != [] {
      var t := s[1..];
      assert forall i :: 0 <= i < |t| ==> p(t[i]) by {
        forall i | 0 <= i < |t| ensures p(t[i]) {
          assert t[i] == s[i + 1];
        }
      }
      FilterAll(t, p);
      assert Filter(s, p) == [s[0]] + t;
    }
  }

  /** Nothing is selected when no row qualifies. */
  lemma {:induction false} FilterNone<T>(s: seq<T>, p: T -> bool)
    requires forall i :: 0 <= i < |s| ==> !p(s[i])
    ensures Filter(s, p) == []
  {
    if s != [] {
      FilterNone(s[1..], p);
    }
  }

  /** Filtering twice is filtering by the conjunction. */
  lemma {:induction false} FilterFilter<T>(s: seq<T>, p: T -> bool, q: T -> bool, pq: T -> bool)
    requires forall x :: pq(x) == (p(x) && q(x))
    ensures Filter(Filter(s, p), q) == Filter(s, pq)
  {
    if s != [] {
      FilterFilter(s[1..], p, q, pq);
    }
  }

  function IsLiveBook(): Book -> bool { (b: Book) => b.deletedAt.None? }
  function IsLiveUser(): User -> bool { (u: User) => u.deletedAt.None? }
  function IsLiveHistory(): History -> bool { (h: History) => h.deletedAt.None? }

  /** Primary keys are unique within a table. */
  predicate UniqueBookIds(bs: seq<Book>) {
    forall i, j :: 0 <= i < j < |bs| ==> bs[i].id != bs[j].id
  }
  predicate UniqueUserIds(us: seq<User>) {
    forall i, j :: 0 <= i < j < |us| ==> us[i].id != us[j].id
  }
  predicate UniqueHistoryIds(hs: seq<History>) {
    forall i, j :: 0 <= i < j < |hs| ==> hs[i].id != hs[j].id
  }

  /** Index of the first row with primary key `id`, skipping deleted rows unless
      `withDeleted`. */
  function FindBook(bs: seq<Book>, id: int, withDeleted: bool): (r: Option<nat>)
    ensures r.Some? ==> r.value < |bs| && bs[r.value].id == id
                        && (withDeleted || bs[r.value].deletedAt.None?)
    ensures r.Some? ==> forall j :: 0 <= j < r.value ==>
                          !(bs[j].id == id && (withDeleted || bs[j].deletedAt.None?))
    ensures r.None? <==> forall j :: 0 <= j < |bs| ==>
                          !(bs[j].id == id && (withDeleted || bs[j].deletedAt.None?))
  {
    if bs == [] then None
    else if bs[0].id == id && (withDeleted || bs[0].deletedAt.None?) then Some(0)
    else match FindBook(bs[1..], id, withDeleted)
         case None => None
         case Some(k) => Some(k + 1)
  }

  function FindUser(us: seq<User>, id: int, withDeleted: bool): (r: Option<nat>)
    ensures r.Some? ==> r.value < |us| && us[r.value].id == id
                        && (withDeleted || us[r.value].deletedAt.None?)
    ensures r.None? <==> forall j :: 0 <= j < |us| ==>
                          !(us[j].id == id && (withDeleted || us[j].deletedAt.None?))
  {
    if us == [] then None
    else if us[0].id == id && (withDeleted || us[0].deletedAt.None?) then Some(0)
    else match FindUser(us[1..], id, withDeleted)
         case None => None
         case Some(k) => Some(k + 1)
  }

  /** `WHERE email = ? ... First`: the first live user with that email. */
  function FindByEmail(us: seq<User>, email: string): (r: Option<nat>)
    ensures r.Some? ==> r.value < |us| && us[r.value].email == email && us[r.value].deletedAt.None?
    ensures r.Some? ==> forall j :: 0 <= j < r.value ==>
                          !(us[j].email == email && us[j].deletedAt.None?)
    ensures r.None? <==> forall j :: 0 <= j < |us| ==>
                          !(us[j].email == email && us[j].deletedAt.None?)
  {
    if us == [] then None
    else if us[0].email == email && us[0].deletedAt.None? then Some(0)
    else match FindByEmail(us[1..], email)
         case None => None
         case Some(k) => Some(k + 1)
  }
}
