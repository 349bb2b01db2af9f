/**
 * Python's `list.sort(key=...)` is a stable sort. The model uses the stable insertion sort
 * below; `reverse=True` is a sort on the negated key (Python keeps equal keys in their
 * original order in both directions).
 */
module Sorting {

  /** Keys never decrease along `s`. */
  ghost predicate SortedBy<T>(s: seq<T>, key: T -> int) {
    forall i, j :: 0 <= i < j < |s| ==> key(s[i]) <= key(s[j])
  }

  /** The elements of `s` whose key is `c`, in their order in `s`. */
  function WithKey<T>(s: seq<T>, key: T -> int, c: int): seq<T> {
    if s == [] then []
    else (if key(s[0]) == c then [s[0]] else []) + WithKey(s[1..], key, c)
  }

  /** Places `x` just before the first element whose key is larger than its own. */
  function Insert<T>(x: T, s: seq<T>, key: T -> int): (r: seq<T>)
    ensures |r| == |s| + 1
    ensures r[0] == x || (s != [] && r[0] == s[0])
  {
    if s == [] then [x]
    else if key(x) < key(s[0]) then [x] + s
    else [s[0]] + Insert(x, s[1..], key)
  }

  /** Inserting adds `x` and loses nothing. */
  lemma {:induction false} InsertPermutes<T>(x: T, s: seq<T>, key: T -> int)
    ensures multiset(Insert(x, s, key)) == multiset(s) + multiset{x}
    decreases |s|
  {
    if s != [] && key(x) >= key(s[0]) {
      InsertPermutes(x, s[1..], key);
      assert s == [s[0]] + s[1..];
    }
  }

  /** Inserting into a sorted sequence keeps it sorted. */
  lemma {:induction false} InsertSorted<T>(x: T, s: seq<T>, key: T -> int)
    requires SortedBy(s, key)
    ensures SortedBy(Insert(x, s, key), key)
    decreases |s|
  {
    if s == [] {
    } else if key(x) < key(s[0]) {
      assert Insert(x, s, key) == [x] + s;
      SortedCons(x, s, key);
    } else {
      var t := Insert(x, s[1..], key);
      assert SortedBy(s[1..], key);
      InsertSorted(x, s[1..], key);
      assert key(s[0]) <= key(t[0]) by {
        if t[0] != x {
          assert t[0] == s[1..][0] == s[1];
        }
      }
      assert Insert(x, s, key) == [s[0]] + t;
      SortedCons(s[0], t, key);
    }
  }

  /** A sorted sequence stays sorted under a head whose key is at most its first key. */
  lemma SortedCons<T>(a: T, t: seq<T>, key: T -> int)
    requires SortedBy(t, key)
    requires t != [] ==> key(a) <= key(t[0])
    ensures SortedBy([a] + t, key)
  {
    var r := [a] + t;
    forall i, j | 0 <= i < j < |r| ensures key(r[i]) <= key(r[j]) {
      if i == 0 {
        assert r[j] == t[j - 1];
        assert key(t[0]) <= key(t[j - 1]);
      } else {
        assert r[i] == t[i - 1] && r[j] == t[j - 1];
      }
    }
  }

  /** The stable sort of `s` by ascending `key`. */
  function SortBy<T>(s: seq<T>, key: T -> int): (r: seq<T>)
    ensures |r| == |s|
  {
    if s == [] then []
    else Insert(s[|s| - 1], SortBy(s[..|s| - 1], key), key)
  }

  /** The sort is a permutation of its input, and its keys never decrease. */
  lemma {:induction false} SortBySorted<T>(s: seq<T>, key: T -> int)
    ensures multiset(SortBy(s, key)) == multiset(s)
    ensures SortedBy(SortBy(s, key), key)
    decreases |s|
  {
    if s != [] {
      var init, last := s[..|s| - 1], s[|s| - 1];
      assert s == init + [last];
      SortBySorted(init, key);
      InsertPermutes(last, SortBy(init, key), key);
      InsertSorted(last, SortBy(init, key), key);
    }
  }

  lemma ConcatAssoc<T>(a: seq<T>, b: seq<T>, c: seq<T>)
    ensures a + (b + c) == (a + b) + c
  {
  }

  /** One unfolding of `WithKey` on a non-empty sequence. */
  lemma WithKeyCons<T>(s: seq<T>, key: T -> int, c: int)
    requires s != []
    ensures WithKey(s, key, c) == (if key(s[0]) == c then [s[0]] else []) + WithKey(s[1..], key, c)
  {
  }

  lemma {:induction false} WithKeyAppend<T>(a: seq<T>, b: seq<T>, key: T -> int, c: int)
    ensures WithKey(a + b, key, c) == WithKey(a, key, c) + WithKey(b, key, c)
    decreases |a|
  {
    if a == [] {
      assert a + b == b;
    } else {
      var h := if key(a[0]) == c then [a[0]] else [];
      assert (a + b)[0] == a[0];
      assert (a + b)[1..] == a[1..] + b;
      WithKeyCons(a + b, key, c);
      WithKeyCons(a, key, c);
      WithKeyAppend(a[1..], b, key, c);
      calc {
        WithKey(a + b, key, c);
        h + WithKey(a[1..] + b, key, c);
        h + (WithKey(a[1..], key, c) + WithKey(b, key, c));
        { ConcatAssoc(h, WithKey(a[1..], key, c), WithKey(b, key, c)); }
        (h + WithKey(a[1..], key, c)) + WithKey(b, key, c);
        WithKey(a, key, c) + WithKey(b, key, c);
      }
    }
  }

  lemma {:induction false} InsertStable<T>(x: T, s: seq<T>, key: T -> int, c: int)
    requires SortedBy(s, key)
    ensures WithKey(Insert(x, s, key), key, c)
         == WithKey(s, key, c) + (if key(x) == c then [x] else [])
    decreases |s|
  {
    if s == [] {
      WithKeyCons([x], key, c);
      assert [x][1..] == [];
    } else if key(x) < key(s[0]) {
      InsertFront(x, s, key, c);
    } else {
      assert SortedBy(s[1..], key);
      InsertStable(x, s[1..], key, c);
      InsertLater(x, s, key, c);
    }
  }

  /** `x` goes in front of a sorted `s` whose keys all exceed its own. */
  lemma InsertFront<T>(x: T, s: seq<T>, key: T -> int, c: int)
    requires SortedBy(s, key) && s != [] && key(x) < key(s[0])
    ensures WithKey(Insert(x, s, key), key, c)
         == WithKey(s, key, c) + (if key(x) == c then [x] else [])
  {
    assert Insert(x, s, key) == [x] + s;
    assert ([x] + s)[0] == x;
    assert ([x] + s)[1..] == s;
    WithKeyCons([x] + s, key, c);
    if key(x) == c {
      NoneWithKey(s, key, c);
    }
  }

  /** `x` goes after `s[0]`: the step from the insertion into `s[1..]`. */
  lemma InsertLater<T>(x: T, s: seq<T>, key: T -> int, c: int)
    requires s != [] && key(x) >= key(s[0])
    requires WithKey(Insert(x, s[1..], key), key, c)
          == WithKey(s[1..], key, c) + (if key(x) == c then [x] else [])
    ensures WithKey(Insert(x, s, key), key, c)
         == WithKey(s, key, c) + (if key(x) == c then [x] else [])
  {
    var hx := if key(x) == c then [x] else [];
    var t := Insert(x, s[1..], key);
    var h := if key(s[0]) == c then [s[0]] else [];
    assert Insert(x, s, key) == [s[0]] + t;
    assert ([s[0]] + t)[0] == s[0];
    assert ([s[0]] + t)[1..] == t;
    WithKeyCons([s[0]] + t, key, c);
    WithKeyCons(s, key, c);
    calc {
      WithKey([s[0]] + t, key, c);
      h + WithKey(t, key, c);
      h + (WithKey(s[1..], key, c) + hx);
      { ConcatAssoc(h, WithKey(s[1..], key, c), hx); }
      (h + WithKey(s[1..], key, c)) + hx;
      WithKey(s, key, c) + hx;
    }
  }

  lemma {:induction false} NoneWithKey<T>(s: seq<T>, key: T -> int, c: int)
    requires forall i :: 0 <= i < |s| ==> key(s[i]) > c
    ensures WithKey(s, key, c) == []
  {
    if s != [] {
      NoneWithKey(s[1..], key, c);
    }
  }

  /** Stability: the elements sharing one key come out in the order they went in. */
  lemma {:induction false} SortByStable<T>(s: seq<T>, key: T -> int, c: int)
    ensures WithKey(SortBy(s, key), key, c) == WithKey(s, key, c)
    decreases |s|
  {
    if s != [] {
      var init, last := s[..|s| - 1], s[|s| - 1];
      var hx := if key(last) == c then [last] else [];
      assert s == init + [last];
      var sorted := SortBy(init, key);
      assert SortBy(s, key) == Insert(last, sorted, key);
      SortByStable(init, key, c);
      SortBySorted(init, key);
      InsertStable(last, sorted, key, c);
      WithKeyAppend(init, [last], key, c);
      WithKeyCons([last], key, c);
      assert [last][1..] == [];
      calc {
        WithKey(SortBy(s, key), key, c);
        WithKey(sorted, key, c) + hx;
        WithKey(init, key, c) + hx;
        WithKey(init, key, c) + WithKey([last], key, c);
        WithKey(s, key, c);
      }
    }
  }
}
