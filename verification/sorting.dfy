/** Python's `list.sort(key=k, reverse=True)`: a stable sort into
    descending key order. Items with equal keys keep their relative order,
    since `reverse=True` keeps stability. Written as an insertion sort on
    sequences, with the properties that pin the result down: descending
    keys, the same items, and within each key the original order. */
module Sorting {

  /** Keys never increase along `s`. */
  ghost predicate Descending<T>(s: seq<T>, key: T -> int) {
    forall i, j | 0 <= i < j < |s| :: key(s[i]) >= key(s[j])
  }

  /** Puts `x` before the first item whose key is not larger than its own:
      `x` comes from earlier in the input than everything in `s`, so among
      equal keys it goes first. */
  function Insert<T>(x: T, s: seq<T>, key: T -> int): (r: seq<T>)
    ensures |r| == |s| + 1
    ensures r[0] == x || (|s| > 0 && r[0] == s[0])
    decreases |s|
  {
    if |s| == 0 || key(s[0]) <= key(x) then [x] + s
    else [s[0]] + Insert(x, s[1..], key)
  }

  /** The stable descending sort. */
  function SortDescending<T>(xs: seq<T>, key: T -> int): (r: seq<T>)
    ensures |r| == |xs|
  {
    if |xs| == 0 then [] else Insert(xs[0], SortDescending(xs[1..], key), key)
  }

  /** Holds of the items whose key is `v`. */
  function KeyIs<T>(key: T -> int, v: int): T -> bool {
    y => key(y) == v
  }

  /** The items of `s`, in order, that satisfy `p`. */
  function Select<T(!new)>(s: seq<T>, p: T -> bool): (r: seq<T>)
    ensures |r| <= |s|
    ensures forall x :: x in r <==> x in s && p(x)
  {
    if |s| == 0 then []
    else
      assert forall x :: x in s <==> x == s[0] || x in s[1..];
      (if p(s[0]) then [s[0]] else []) + Select(s[1..], p)
  }

  /** Inserting brings in `x` and nothing but the items already there. */
  lemma {:induction false} InsertMembers<T>(x: T, s: seq<T>, key: T -> int)
    ensures forall y | y in Insert(x, s, key) :: y == x || y in s
    decreases |s|
  {
    if |s| > 0 && key(s[0]) > key(x) {
      var tail := Insert(x, s[1..], key);
      InsertMembers(x, s[1..], key);
      forall y | y in [s[0]] + tail
        ensures y == x || y in s
      {
        if y != s[0] {
          assert y in tail;
        }
      }
    }
  }

  /** Inserting into a descending sequence keeps it descending. */
  lemma {:induction false} InsertDescending<T>(x: T, s: seq<T>, key: T -> int)
    requires Descending(s, key)
    ensures Descending(Insert(x, s, key), key)
    decreases |s|
  {
    if |s| > 0 && key(s[0]) > key(x) {
      var tail := Insert(x, s[1..], key);
      assert Descending(s[1..], key) by {
        forall i, j | 0 <= i < j < |s[1..]|
          ensures key(s[1..][i]) >= key(s[1..][j])
        {
          assert s[1..][i] == s[i + 1] && s[1..][j] == s[j + 1];
        }
      }
      InsertDescending(x, s[1..], key);
      InsertMembers(x, s[1..], key);
      var r := [s[0]] + tail;
      forall i, j | 0 <= i < j < |r|
        ensures key(r[i]) >= key(r[j])
      {
        assert r[j] == tail[j - 1];
        if i == 0 {
          assert tail[j - 1] in tail;
          if tail[j - 1] != x {
            var k :| 0 <= k < |s[1..]| && s[1..][k] == tail[j - 1];
            assert s[1..][k] == s[k + 1];
          }
        } else {
          assert r[i] == tail[i - 1];
        }
      }
    }
  }

  /** Inserting adds `x` and nothing else. */
  lemma {:induction false} InsertItems<T(!new)>(x: T, s: seq<T>, key: T -> int)
    ensures multiset(Insert(x, s, key)) == multiset(s) + multiset{x}
    decreases |s|
  {
    if |s| > 0 && key(s[0]) > key(x) {
      InsertItems(x, s[1..], key);
      assert s == [s[0]] + s[1..];
    }
  }

  /** Inserting keeps the order among equal keys: `x` lands before every
      item of its own key in `s`, as it came first in the input. */
  lemma {:induction false} InsertStable<T(!new)>(x: T, s: seq<T>, key: T -> int, v: int)
    ensures Select(Insert(x, s, key), KeyIs(key, v)) == Select([x] + s, KeyIs(key, v))
    decreases |s|
  {
    var p := KeyIs(key, v);
    if |s| > 0 && key(s[0]) > key(x) {
      var tail := Insert(x, s[1..], key);
      InsertStable(x, s[1..], key, v);
      SelectPrepend(s[0], tail, p);
      SelectPrepend(x, s[1..], p);
      SelectPrepend(x, s, p);
      SelectPrepend(s[0], s[1..], p);
      assert s == [s[0]] + s[1..];
      assert !(p(x) && p(s[0]));
    } else {
      assert Insert(x, s, key) == [x] + s;
    }
  }

  /** The sort returns the input's items in descending key order. */
  lemma {:induction false} SortDescendingIsSorted<T(!new)>(xs: seq<T>, key: T -> int)
    ensures Descending(SortDescending(xs, key), key)
    ensures multiset(SortDescending(xs, key)) == multiset(xs)
  {
    if |xs| > 0 {
      SortDescendingIsSorted(xs[1..], key);
      InsertDescending(xs[0], SortDescending(xs[1..], key), key);
      InsertItems(xs[0], SortDescending(xs[1..], key), key);
      assert xs == [xs[0]] + xs[1..];
    }
  }

  /** The sort neither adds nor drops an item. */
  lemma SortDescendingMembers<T(!new)>(xs: seq<T>, key: T -> int)
    ensures forall x :: x in SortDescending(xs, key) <==> x in xs
  {
    SortDescendingIsSorted(xs, key);
    assert forall x :: x in SortDescending(xs, key) <==> x in multiset(SortDescending(xs, key));
  }

  /** The sort is stable: the items of any one key appear in the order
      they had in the input. */
  lemma {:induction false} SortDescendingIsStable<T(!new)>(xs: seq<T>, key: T -> int, v: int)
    ensures Select(SortDescending(xs, key), KeyIs(key, v)) == Select(xs, KeyIs(key, v))
  {
    if |xs| > 0 {
      var rest := SortDescending(xs[1..], key);
      SortDescendingIsStable(xs[1..], key, v);
      InsertStable(xs[0], rest, key, v);
    }
  }

  /** Selecting from a sequence with a new first item. */
  lemma SelectPrepend<T(!new)>(x: T, s: seq<T>, p: T -> bool)
    ensures Select([x] + s, p) == (if p(x) then [x] else []) + Select(s, p)
  {
    assert ([x] + s)[1..] == s;
  }

  /** `x` goes to the front when no key in `s` is above its own. */
  lemma SelectInsertFront<T(!new)>(x: T, s: seq<T>, key: T -> int, p: T -> bool)
    requires Descending(s, key)
    requires |s| == 0 || key(s[0]) <= key(x)
    ensures Select(Insert(x, s, key), p) == if p(x) then Insert(x, Select(s, p), key) else Select(s, p)
  {
    InsertFront(x, s, key);
    SelectPrepend(x, s, p);
    if p(x) {
      if |Select(s, p)| > 0 {
        SelectHeadKey(s, key, p);
      }
      InsertFront(x, Select(s, p), key);
    }
  }

  /** An item whose key is at least the first one's goes to the front. */
  lemma InsertFront<T>(x: T, s: seq<T>, key: T -> int)
    requires |s| == 0 || key(s[0]) <= key(x)
    ensures Insert(x, s, key) == [x] + s
  {
  }

  /** The first selected item has a key no larger than the first item. */
  lemma SelectHeadKey<T(!new)>(s: seq<T>, key: T -> int, p: T -> bool)
    requires Descending(s, key) && |Select(s, p)| > 0
    ensures |s| > 0 && key(Select(s, p)[0]) <= key(s[0])
  {
    var sel := Select(s, p);
    assert sel[0] in sel;
    var k :| 0 <= k < |s| && s[k] == sel[0];
  }

  /** Selecting commutes with inserting. */
  lemma {:induction false} SelectInsert<T(!new)>(x: T, s: seq<T>, key: T -> int, p: T -> bool)
    requires Descending(s, key)
    ensures Select(Insert(x, s, key), p) == if p(x) then Insert(x, Select(s, p), key) else Select(s, p)
    decreases |s|
  {
    if |s| > 0 && key(s[0]) > key(x) {
      SelectInsert(x, s[1..], key, p);
      var tail := Insert(x, s[1..], key);
      var rest := Select(s[1..], p);
      SelectPrepend(s[0], s[1..], p);
      SelectPrepend(s[0], tail, p);
      assert s == [s[0]] + s[1..];
      assert Descending(s[1..], key) by {
        forall i, j | 0 <= i < j < |s[1..]|
          ensures key(s[1..][i]) >= key(s[1..][j])
        {
          assert s[1..][i] == s[i + 1] && s[1..][j] == s[j + 1];
        }
      }
      assert Insert(x, s, key) == [s[0]] + tail;
      if p(x) && p(s[0]) {
        assert ([s[0]] + rest)[1..] == rest;
        assert Insert(x, [s[0]] + rest, key) == [s[0]] + Insert(x, rest, key);
      } else if !p(s[0]) {
        assert Select(s, p) == rest;
        assert Select([s[0]] + tail, p) == Select(tail, p);
      }
    } else {
      SelectInsertFront(x, s, key, p);
    }
  }

  /** Selecting after sorting is sorting after selecting: striking items
      out of a ranked list gives the ranking of what is left. */
  lemma {:induction false} SelectThenSort<T(!new)>(xs: seq<T>, key: T -> int, p: T -> bool)
    ensures Select(SortDescending(xs, key), p) == SortDescending(Select(xs, p), key)
  {
    if |xs| > 0 {
      var rest := SortDescending(xs[1..], key);
      SelectThenSort(xs[1..], key, p);
      SortDescendingIsSorted(xs[1..], key);
      SelectInsert(xs[0], rest, key, p);
      var sel := Select(xs, p);
      if p(xs[0]) {
        assert sel == [xs[0]] + Select(xs[1..], p);
        assert sel[0] == xs[0] && sel[1..] == Select(xs[1..], p);
      } else {
        assert sel == Select(xs[1..], p);
      }
    }
  }
}
