/** The inventory bookkeeping behind borrowing and returning, as transitions of the book and
    history tables: the statements the handlers issue, and what they do to the balance
    between a book's residue and its outstanding borrow records. */
module Inventory {
  import opened Records

  /** The residue the Go handler reads: a NULL column scans as 0. */
  function ResidueValue(b: Book): int {
    b.residue.GetOr(0)
  }

  /** `UPDATE books SET residue = v WHERE id = ?` (live rows only; updated_at is refreshed). */
  function SetResidue(bs: seq<Book>, id: int, v: int, now: int): (r: seq<Book>)
    ensures |r| == |bs| && forall i :: 0 <= i < |bs| ==> r[i].id == bs[i].id
    ensures forall i :: 0 <= i < |bs| ==>
              r[i] == if bs[i].id == id && bs[i].deletedAt.None?
                      then bs[i].(residue := Some(v), updatedAt := now) else bs[i]
  {
    seq(|bs|, i requires 0 <= i < |bs| =>
      if bs[i].id == id && bs[i].deletedAt.None? then bs[i].(residue := Some(v), updatedAt := now) else bs[i])
  }

  /** SQL `residue + 1`: NULL stays NULL. */
  function Incremented(residue: Option<int>): Option<int> {
    match residue
    case None => None
    case Some(n) => Some(n + 1)
  }

  /** `UPDATE books SET residue = residue + 1 WHERE id = ?` (live rows only). */
  function BumpResidue(bs: seq<Book>, id: int, now: int): (r: seq<Book>)
    ensures |r| == |bs| && forall i :: 0 <= i < |bs| ==> r[i].id == bs[i].id
    ensures forall i :: 0 <= i < |bs| ==>
              r[i] == if bs[i].id == id && bs[i].deletedAt.None?
                      then bs[i].(residue := Incremented(bs[i].residue), updatedAt := now) else bs[i]
  {
    seq(|bs|, i requires 0 <= i < |bs| =>
      if bs[i].id == id && bs[i].deletedAt.None?
      then bs[i].(residue := Incremented(bs[i].residue), updatedAt := now) else bs[i])
  }

  /** The record a successful borrow inserts. */
  function NewRecord(id: int, borrowId: string, userId: int, bookId: int, now: int): (h: History)
  {
    History(id, borrowId, userId, bookId, Some(now), false, now, now, None)
  }

  /** `borrow_id = ? AND user_id = ? AND book_id = ?` on a live record. */
  predicate Matches(h: History, borrowId: string, userId: int, bookId: int) {
    h.borrowId == borrowId && h.userId == userId && h.bookId == bookId && h.deletedAt.None?
  }

  /** `UPDATE history SET is_back = true WHERE borrow_id = ? AND user_id = ? AND book_id = ?`. */
  function MarkReturned(hs: seq<History>, borrowId: string, userId: int, bookId: int, now: int): (r: seq<History>)
    ensures |r| == |hs| && forall i :: 0 <= i < |hs| ==> r[i].id == hs[i].id
    ensures forall i :: 0 <= i < |hs| ==>
              r[i] == if Matches(hs[i], borrowId, userId, bookId)
                      then hs[i].(isBack := true, updatedAt := now) else hs[i]
  {
    seq(|hs|, i requires 0 <= i < |hs| =>
      if Matches(hs[i], borrowId, userId, bookId) then hs[i].(isBack := true, updatedAt := now) else hs[i])
  }

  /** A live record of `bookId` whose copy has not come back. */
  function IsOutstandingOf(bookId: int): History -> bool {
    (h: History) => h.bookId == bookId && !h.isBack && h.deletedAt.None?
  }

  /** A live, outstanding record matching the return request. */
  function IsOutstandingMatch(borrowId: string, userId: int, bookId: int): History -> bool {
    (h: History) => Matches(h, borrowId, userId, bookId) && !h.isBack
  }

  function Outstanding(hs: seq<History>, bookId: int): nat {
    Count(hs, IsOutstandingOf(bookId))
  }

  /** Copies on the shelf plus copies out: what a consistent ledger keeps constant per book. */
  function Balance(bs: seq<Book>, hs: seq<History>, i: int): int
    requires 0 <= i < |bs|
  {
    ResidueValue(bs[i]) + Outstanding(hs, bs[i].id)
  }

  /** A successful borrow (residue decremented, one outstanding record appended) keeps every
      book's balance. */
  lemma BorrowKeepsBalance(bs: seq<Book>, hs: seq<History>, k: int, rec: History, now: int)
    requires UniqueBookIds(bs)
    requires 0 <= k < |bs| && bs[k].deletedAt.None? && ResidueValue(bs[k]) > 0
    requires rec.bookId == bs[k].id && !rec.isBack && rec.deletedAt.None?
    ensures forall i :: 0 <= i < |bs| ==>
              Balance(SetResidue(bs, bs[k].id, ResidueValue(bs[k]) - 1, now), hs + [rec], i) == Balance(bs, hs, i)
  {
    var bs' := SetResidue(bs, bs[k].id, ResidueValue(bs[k]) - 1, now);
    forall i | 0 <= i < |bs|
      ensures Balance(bs', hs + [rec], i) == Balance(bs, hs, i)
    {
      CountAppend(hs, [rec], IsOutstandingOf(bs[i].id));
      assert bs'[i].id == bs[i].id;
      if i == k {
        assert bs[k].residue.Some?;
        assert ResidueValue(bs'[k]) == ResidueValue(bs[k]) - 1;
        assert Count([rec], IsOutstandingOf(bs[i].id)) == 1;
      } else {
        assert bs[i].id != bs[k].id;
        assert bs'[i] == bs[i];
        assert Count([rec], IsOutstandingOf(bs[i].id)) == 0;
      }
    }
  }

  /** A successful borrow lowers the borrowed book's residue by exactly one, never below
      zero, and leaves every other book row as it was. */
  lemma BorrowDecrementsOnlyThatBook(bs: seq<Book>, k: int, now: int)
    requires UniqueBookIds(bs)
    requires 0 <= k < |bs| && bs[k].deletedAt.None? && ResidueValue(bs[k]) > 0
    ensures var after := SetResidue(bs, bs[k].id, ResidueValue(bs[k]) - 1, now);
            && after[k].residue == Some(ResidueValue(bs[k]) - 1)
            && ResidueValue(after[k]) >= 0
            && forall i :: 0 <= i < |bs| && i != k ==> after[i] == bs[i]
  {
    var after := SetResidue(bs, bs[k].id, ResidueValue(bs[k]) - 1, now);
    forall i | 0 <= i < |bs| && i != k ensures after[i] == bs[i] {
      if i < k { assert bs[i].id != bs[k].id; } else { assert bs[k].id != bs[i].id; }
    }
  }

  /** Marking records returned takes exactly the matching outstanding ones off their book's
      outstanding count and leaves other books' counts alone. */
  lemma {:induction false} OutstandingAfterMark(hs: seq<History>, borrowId: string, userId: int, bookId: int,
                                                now: int, b: int)
    ensures Outstanding(MarkReturned(hs, borrowId, userId, bookId, now), b)
            == Outstanding(hs, b) - (if b == bookId then Count(hs, IsOutstandingMatch(borrowId, userId, bookId)) else 0)
  {
    if hs != [] {
      var m := MarkReturned(hs, borrowId, userId, bookId, now);
      assert m[1..] == MarkReturned(hs[1..], borrowId, userId, bookId, now);
      OutstandingAfterMark(hs[1..], borrowId, userId, bookId, now, b);
      CountHead(m, IsOutstandingOf(b));
      CountHead(hs, IsOutstandingOf(b));
      CountHead(hs, IsOutstandingMatch(borrowId, userId, bookId));
    }
  }

  /** The return as issued: residue goes up by one whatever happened to the records, so a
      book's balance rises by one minus the number of outstanding records the request
      matched. It is kept exactly when one outstanding record matched. */
  lemma ReturnShiftsBalance(bs: seq<Book>, hs: seq<History>, borrowId: string, userId: int, bookId: int,
                            now: int, i: int)
    requires 0 <= i < |bs| && bs[i].residue.Some? && bs[i].deletedAt.None?
    ensures var matched := Count(hs, IsOutstandingMatch(borrowId, userId, bookId));
            Balance(BumpResidue(bs, bookId, now), MarkReturned(hs, borrowId, userId, bookId, now), i)
            == Balance(bs, hs, i) + (if bs[i].id == bookId then 1 - matched else 0)
  {
    OutstandingAfterMark(hs, borrowId, userId, bookId, now, bs[i].id);
    var bs' := BumpResidue(bs, bookId, now);
    assert bs'[i].id == bs[i].id;
    if bs[i].id == bookId {
      assert ResidueValue(bs'[i]) == ResidueValue(bs[i]) + 1;
    } else {
      assert bs'[i] == bs[i];
    }
  }

  /** Borrowing then returning the same book hands back exactly the residue it took. */
  lemma BorrowThenReturnRestoresResidue(bs: seq<Book>, k: int, t1: int, t2: int)
    requires UniqueBookIds(bs)
    requires 0 <= k < |bs| && bs[k].deletedAt.None? && ResidueValue(bs[k]) > 0
    ensures var after := BumpResidue(SetResidue(bs, bs[k].id, ResidueValue(bs[k]) - 1, t1), bs[k].id, t2);
            |after| == |bs| && forall i :: 0 <= i < |bs| ==> after[i].residue == bs[i].residue
  {
  }

  /** The first live outstanding record the request names, if any. */
  function FirstOutstandingMatch(hs: seq<History>, borrowId: string, userId: int, bookId: int): (r: Option<nat>)
    ensures r.Some? ==> r.value < |hs| && Matches(hs[r.value], borrowId, userId, bookId) && !hs[r.value].isBack
    ensures r.Some? ==> forall j :: 0 <= j < r.value ==> !(Matches(hs[j], borrowId, userId, bookId) && !hs[j].isBack)
    ensures r.None? <==> forall j :: 0 <= j < |hs| ==> !(Matches(hs[j], borrowId, userId, bookId) && !hs[j].isBack)
  {
    if hs == [] then None
    else if Matches(hs[0], borrowId, userId, bookId) && !hs[0].isBack then Some(0)
    else match FirstOutstandingMatch(hs[1..], borrowId, userId, bookId)
         case None => None
         case Some(k) => Some(k + 1)
  }

  /** No record is found exactly when the query that counts outstanding matches counts none. */
  lemma NoMatchIffNoneOutstanding(hs: seq<History>, borrowId: string, userId: int, bookId: int)
    ensures FirstOutstandingMatch(hs, borrowId, userId, bookId).None?
            <==> Count(hs, IsOutstandingMatch(borrowId, userId, bookId)) == 0
  {
    var p := IsOutstandingMatch(borrowId, userId, bookId);
    var r := FirstOutstandingMatch(hs, borrowId, userId, bookId);
    if r.None? {
      FilterNone(hs, p);
    } else {
      assert p(hs[r.value]);
      assert hs[r.value] in Filter(hs, p);
    }
  }

  /** Closes the one record at index i. */
  function CloseRecord(hs: seq<History>, i: int, now: int): (r: seq<History>)
    requires 0 <= i < |hs|
    ensures |r| == |hs| && r[i].isBack && r[i].id == hs[i].id
    ensures forall j :: 0 <= j < |hs| && j != i ==> r[j] == hs[j]
  {
    hs[i := hs[i].(isBack := true, updatedAt := now)]
  }

  /** Closing one outstanding record takes one off its own book's outstanding count only. */
  lemma OutstandingAfterClose(hs: seq<History>, j: int, now: int, b: int)
    requires 0 <= j < |hs| && !hs[j].isBack && hs[j].deletedAt.None?
    ensures Outstanding(CloseRecord(hs, j, now), b) == Outstanding(hs, b) - (if b == hs[j].bookId then 1 else 0)
  {
    var after := CloseRecord(hs, j, now);
    assert after == hs[j := after[j]];
    CountUpdate(hs, j, after[j], IsOutstandingOf(b));
  }

  /** The corrected return (close one outstanding record that the request names, then give
      the copy back) keeps the balance of every live book whose residue is not NULL. */
  lemma CheckedReturnKeepsBalance(bs: seq<Book>, hs: seq<History>, borrowId: string, userId: int, bookId: int,
                                  now: int, i: int)
    requires FirstOutstandingMatch(hs, borrowId, userId, bookId).Some?
    requires 0 <= i < |bs| && bs[i].residue.Some? && bs[i].deletedAt.None?
    ensures var j := FirstOutstandingMatch(hs, borrowId, userId, bookId).value;
            Balance(BumpResidue(bs, bookId, now), CloseRecord(hs, j, now), i) == Balance(bs, hs, i)
  {
    var j := FirstOutstandingMatch(hs, borrowId, userId, bookId).value;
    assert Matches(hs[j], borrowId, userId, bookId) && !hs[j].isBack;
    OutstandingAfterClose(hs, j, now, bs[i].id);
    var bs' := BumpResidue(bs, bookId, now);
    assert bs'[i].id == bs[i].id;
    if bs[i].id == bookId {
      assert ResidueValue(bs'[i]) == ResidueValue(bs[i]) + 1;
    } else {
      assert bs'[i] == bs[i];
    }
  }
}
