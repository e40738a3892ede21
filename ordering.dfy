/** ORDER BY: the keys a column can hold (NULL, a number, a text) in a fixed order
    (code point for text), where NULL sorts first ascending and last descending, and the sort that puts
    rows in that order. Rows with equal keys keep their table order, which is one of the
    orders the database may return. */
module Ordering {
  import opened Text

  datatype Key = Null | Num(n: int) | Str(s: string)

  predicate KeyLe(a: Key, b: Key) {
    match (a, b)
    case (Null, _) => true
    case (_, Null) => false
    case (Num(x), Num(y)) => x <= y
    case (Num(_), Str(_)) => true
    case (Str(_), Num(_)) => false
    case (Str(x), Str(y)) => LexLe(x, y)
  }

  lemma KeyLeTotal(a: Key, b: Key)
    ensures KeyLe(a, b) || KeyLe(b, a)
  {
    if a.Str? && b.Str? {
      LexTotal(a.s, b.s);
    }
  }

  lemma KeyLeTrans(a: Key, b: Key, c: Key)
    requires KeyLe(a, b) && KeyLe(b, c)
    ensures KeyLe(a, c)
  {
    if a.Str? && b.Str? && c.Str? {
      LexTrans(a.s, b.s, c.s);
    }
  }

  /** `a` may come before `b` under `ORDER BY ... ASC` (or `DESC` when `desc`). */
  predicate Before(a: Key, b: Key, desc: bool) {
    if desc then KeyLe(b, a) else KeyLe(a, b)
  }

  lemma BeforeTotal(a: Key, b: Key, desc: bool)
    ensures Before(a, b, desc) || Before(b, a, desc)
  {
    KeyLeTotal(a, b);
  }

  lemma BeforeTrans(a: Key, b: Key, c: Key, desc: bool)
    requires Before(a, b, desc) && Before(b, c, desc)
    ensures Before(a, c, desc)
  {
    if desc { KeyLeTrans(c, b, a); } else { KeyLeTrans(a, b, c); }
  }

  ghost predicate SortedBy<T>(s: seq<T>, key: T -> Key, desc: bool) {
    forall i, j :: 0 <= i < j < |s| ==> Before(key(s[i]), key(s[j]), desc)
  }

  /** Places x before the first row it may precede. */
  function Insert<T>(x: T, s: seq<T>, key: T -> Key, desc: bool): (r: seq<T>)
    ensures multiset(r) == multiset(s) + multiset{x}
    ensures |r| == |s| + 1
  {
    if s == [] then [x]
    else if Before(key(x), key(s[0]), desc) then [x] + s
    else
      assert s == [s[0]] + s[1..];
      [s[0]] + Insert(x, s[1..], key, desc)
  }

  /** The rows of s ordered by key; equal keys keep their relative order. */
  function SortBy<T>(s: seq<T>, key: T -> Key, desc: bool): (r: seq<T>)
    ensures multiset(r) == multiset(s)
    ensures |r| == |s|
  {
    if s == [] then []
    else
      assert s == [s[0]] + s[1..];
      Insert(s[0], SortBy(s[1..], key, desc), key, desc)
  }

  /** A key that may precede x and every row of s may precede every row of the insertion. */
  lemma {:induction false} InsertKeepsLowerBound<T>(x: T, s: seq<T>, key: T -> Key, desc: bool, k: Key)
    requires Before(k, key(x), desc)
    requires forall m :: 0 <= m < |s| ==> Before(k, key(s[m]), desc)
    ensures forall m :: 0 <= m < |Insert(x, s, key, desc)| ==> Before(k, key(Insert(x, s, key, desc)[m]), desc)
  {
    if s != [] && !Before(key(x), key(s[0]), desc) {
      var t := s[1..];
      assert forall m :: 0 <= m < |t| ==> Before(k, key(t[m]), desc) by {
        forall m | 0 <= m < |t| ensures Before(k, key(t[m]), desc) {
          assert t[m] == s[m + 1];
        }
      }
      InsertKeepsLowerBound(x, t, key, desc, k);
      var r := Insert(x, s, key, desc);
      assert r == [s[0]] + Insert(x, t, key, desc);
      forall m | 0 <= m < |r| ensures Before(k, key(r[m]), desc) {
        if m > 0 {
          assert r[m] == Insert(x, t, key, desc)[m - 1];
        }
      }
    } else if s != [] {
      var r := Insert(x, s, key, desc);
      assert r == [x] + s;
      forall m | 0 <= m < |r| ensures Before(k, key(r[m]), desc) {
        if m > 0 {
          assert r[m] == s[m - 1];
        }
      }
    }
  }

  lemma {:induction false} InsertSorted<T>(x: T, s: seq<T>, key: T -> Key, desc: bool)
    requires SortedBy(s, key, desc)
    ensures SortedBy(Insert(x, s, key, desc), key, desc)
  {
    if s == [] {
    } else if Before(key(x), key(s[0]), desc) {
      var r := [x] + s;
      forall i, j | 0 <= i < j < |r| ensures Before(key(r[i]), key(r[j]), desc) {
        if i == 0 && j > 1 {
          BeforeTrans(key(x), key(s[0]), key(s[j - 1]), desc);
        }
      }
    } else {
      var tail := Insert(x, s[1..], key, desc);
      InsertSorted(x, s[1..], key, desc);
      BeforeTotal(key(x), key(s[0]), desc);
      assert forall m :: 0 <= m < |s[1..]| ==> Before(key(s[0]), key(s[1..][m]), desc) by {
        forall m | 0 <= m < |s[1..]| ensures Before(key(s[0]), key(s[1..][m]), desc) {
          assert s[1..][m] == s[m + 1];
        }
      }
      InsertKeepsLowerBound(x, s[1..], key, desc, key(s[0]));
      var r := [s[0]] + tail;
      forall i, j | 0 <= i < j < |r| ensures Before(key(r[i]), key(r[j]), desc) {
        assert r[j] == tail[j - 1];
        if i > 0 {
          assert r[i] == tail[i - 1];
        }
      }
    }
  }

  /** The sort's result is in the requested order. */
  lemma {:induction false} SortBySorted<T>(s: seq<T>, key: T -> Key, desc: bool)
    ensures SortedBy(SortBy(s, key, desc), key, desc)
  {
    if s != [] {
      SortBySorted(s[1..], key, desc);
      InsertSorted(s[0], SortBy(s[1..], key, desc), key, desc);
    }
  }
}
