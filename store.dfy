/** The database both backends talk to: three tables (books, users, borrow history) that
    handlers read and replace, and the auto-increment counters that hand out primary keys.
    A transaction is one atomic step: a handler computes the new tables and assigns them
    only once every statement (and the commit) has succeeded. */
module Store {
  import opened Records

  class Db {
    var books: seq<Book>
    var users: seq<User>
    var histories: seq<History>
    var nextBookId: int
    var nextUserId: int
    var nextHistoryId: int

    /** Primary keys are positive, unique, and below the next key to be handed out. */
    ghost predicate Valid()
      reads this
    {
      && UniqueBookIds(books) && UniqueUserIds(users) && UniqueHistoryIds(histories)
      && nextBookId >= 1 && nextUserId >= 1 && nextHistoryId >= 1
      && (forall i :: 0 <= i < |books| ==> 0 < books[i].id < nextBookId)
      && (forall i :: 0 <= i < |users| ==> 0 < users[i].id < nextUserId)
      && (forall i :: 0 <= i < |histories| ==> 0 < histories[i].id < nextHistoryId)
    }

    /** An empty database; the first key of every table is 1. */
    constructor ()
      ensures Valid()
      ensures books == [] && users == [] && histories == []
      ensures nextBookId == 1 && nextUserId == 1 && nextHistoryId == 1
    {
      books, users, histories := [], [], [];
      nextBookId, nextUserId, nextHistoryId := 1, 1, 1;
    }

    /** INSERT INTO books: the row gets the next key; nothing else changes. */
    method InsertBook(b: Book) returns (id: int)
      requires Valid()
      modifies this
      ensures Valid()
      ensures id == old(nextBookId) && nextBookId == id + 1
      ensures books == old(books) + [b.(id := id)]
      ensures users == old(users) && histories == old(histories)
      ensures nextUserId == old(nextUserId) && nextHistoryId == old(nextHistoryId)
    {
      id := nextBookId;
      books := books + [b.(id := id)];
      nextBookId := nextBookId + 1;
    }

    /** INSERT INTO users: the row gets the next key; nothing else changes. */
    method InsertUser(u: User) returns (id: int)
      requires Valid()
      modifies this
      ensures Valid()
      ensures id == old(nextUserId) && nextUserId == id + 1
      ensures users == old(users) + [u.(id := id)]
      ensures books == old(books) && histories == old(histories)
      ensures nextBookId == old(nextBookId) && nextHistoryId == old(nextHistoryId)
    {
      id := nextUserId;
      users := users + [u.(id := id)];
      nextUserId := nextUserId + 1;
    }

    /** INSERT INTO history: the row gets the next key; nothing else changes. */
    method InsertHistory(h: History) returns (id: int)
      requires Valid()
      modifies this
      ensures Valid()
      ensures id == old(nextHistoryId) && nextHistoryId == id + 1
      ensures histories == old(histories) + [h.(id := id)]
      ensures books == old(books) && users == old(users)
      ensures nextBookId == old(nextBookId) && nextUserId == old(nextUserId)
    {
      id := nextHistoryId;
      histories := histories + [h.(id := id)];
      nextHistoryId := nextHistoryId + 1;
    }

    /** An UPDATE of the books table: every row keeps its key. */
    method UpdateBooks(bs: seq<Book>)
      requires Valid()
      requires |bs| == |books| && forall i :: 0 <= i < |bs| ==> bs[i].id == books[i].id
      modifies this
      ensures Valid()
      ensures books == bs
      ensures users == old(users) && histories == old(histories)
      ensures nextBookId == old(nextBookId) && nextUserId == old(nextUserId)
      ensures nextHistoryId == old(nextHistoryId)
    {
      books := bs;
    }

    /** An UPDATE of the history table: every row keeps its key. */
    method UpdateHistories(hs: seq<History>)
      requires Valid()
      requires |hs| == |histories| && forall i :: 0 <= i < |hs| ==> hs[i].id == histories[i].id
      modifies this
      ensures Valid()
      ensures histories == hs
      ensures books == old(books) && users == old(users)
      ensures nextBookId == old(nextBookId) && nextUserId == old(nextUserId)
      ensures nextHistoryId == old(nextHistoryId)
    {
      histories := hs;
    }
  }
}
