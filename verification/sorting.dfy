/** Lexicographic order on strings and the stable sort `slice::sort_by`
    uses, over a string key. For UTF-8 strings the byte-wise order of
    `OsStr::cmp` and the code-point order used here coincide. */
module Sorting {

  /** `a <= b` in lexicographic order of code points. */
  predicate LexLe(a: string, b: string) {
    |a| == 0 || (|b| > 0 && (a[0] < b[0] || (a[0] == b[0] && LexLe(a[1..], b[1..]))))
  }

  lemma {:induction false} LexLeTotal(a: string, b: string)
    ensures LexLe(a, b) || LexLe(b, a)
  {
    if |a| > 0 && |b| > 0 && a[0] == b[0] {
      LexLeTotal(a[1..], b[1..]);
    }
  }

  lemma {:induction false} LexLeTransitive(a: string, b: string, c: string)
    requires LexLe(a, b) && LexLe(b, c)
    ensures LexLe(a, c)
  {
    if |a| > 0 && a[0] == b[0] && b[0] == c[0] {
      LexLeTransitive(a[1..], b[1..], c[1..]);
    }
  }

  lemma {:induction false} LexLeAntisymmetric(a: string, b: string)
    requires LexLe(a, b) && LexLe(b, a)
    ensures a == b
  {
    if |a| > 0 {
      LexLeAntisymmetric(a[1..], b[1..]);
      assert a == [a[0]] + a[1..];
      assert b == [b[0]] + b[1..];
    }
  }

  lemma LexLeReflexive(a: string)
    ensures LexLe(a, a)
  {
  }

  predicate SortedBy<T>(s: seq<T>, key: T -> string) {
    forall i, j :: 0 <= i < j < |s| ==> LexLe(key(s[i]), key(s[j]))
  }

  /** Puts `x` in front of the first element whose key is not below it, so
      `x` stays ahead of later elements with an equal key. */
  function InsertBy<T>(x: T, s: seq<T>, key: T -> string): (r: seq<T>)
    ensures |r| == |s| + 1
    ensures multiset(r) == multiset(s) + multiset{x}
  {
    if |s| == 0 || LexLe(key(x), key(s[0])) then [x] + s
    else
      assert s == [s[0]] + s[1..];
      [s[0]] + InsertBy(x, s[1..], key)
  }

  /** Stable insertion sort on `key`. */
  function SortBy<T>(s: seq<T>, key: T -> string): (r: seq<T>)
    ensures multiset(r) == multiset(s)
    ensures |r| == |s|
  {
    if |s| == 0 then []
    else
      assert s == [s[0]] + s[1..];
      InsertBy(s[0], SortBy(s[1..], key), key)
  }

  lemma {:induction false} InsertBySorted<T>(x: T, s: seq<T>, key: T -> string)
    requires SortedBy(s, key)
    ensures SortedBy(InsertBy(x, s, key), key)
  {
    if |s| == 0 || LexLe(key(x), key(s[0])) {
      var r := [x] + s;
      forall i, j | 0 < i < j < |r|
        ensures LexLe(key(r[i]), key(r[j]))
      {
        assert r[i] == s[i - 1] && r[j] == s[j - 1];
      }
      forall j | 0 < j < |r|
        ensures LexLe(key(r[0]), key(r[j]))
      {
        if j > 1 {
          assert LexLe(key(s[0]), key(s[j - 1]));
          LexLeTransitive(key(x), key(s[0]), key(s[j - 1]));
        }
      }
    } else {
      LexLeTotal(key(x), key(s[0]));
      InsertBySorted(x, s[1..], key);
      var tail := InsertBy(x, s[1..], key);
      var r := [s[0]] + tail;
      assert multiset(tail) == multiset(s[1..]) + multiset{x};
      forall j | 0 <= j < |tail|
        ensures LexLe(key(s[0]), key(tail[j]))
      {
        assert tail[j] in multiset(tail);
        if tail[j] == x {
        } else {
          assert tail[j] in multiset(s[1..]);
          var k :| 0 <= k < |s[1..]| && s[1..][k] == tail[j];
          assert s[k + 1] == tail[j];
        }
      }
      forall i, j | 0 <= i < j < |r|
        ensures LexLe(key(r[i]), key(r[j]))
      {
        if i > 0 {
          assert r[i] == tail[i - 1] && r[j] == tail[j - 1];
        } else {
          assert r[j] == tail[j - 1];
        }
      }
    }
  }

  lemma {:induction false} SortBySorted<T>(s: seq<T>, key: T -> string)
    ensures SortedBy(SortBy(s, key), key)
  {
    if |s| > 0 {
      SortBySorted(s[1..], key);
      InsertBySorted(s[0], SortBy(s[1..], key), key);
    }
  }

  /** Sorting an already sorted sequence changes nothing (the sort is
      stable), so sorting twice is sorting once. */
  lemma {:induction false} SortBySortedIdentity<T>(s: seq<T>, key: T -> string)
    requires SortedBy(s, key)
    ensures SortBy(s, key) == s
  {
    if |s| > 0 {
      assert SortedBy(s[1..], key) by {
        forall i, j | 0 <= i < j < |s[1..]|
          ensures LexLe(key(s[1..][i]), key(s[1..][j]))
        {
          assert s[1..][i] == s[i + 1] && s[1..][j] == s[j + 1];
        }
      }
      SortBySortedIdentity(s[1..], key);
      if |s| > 1 {
        assert LexLe(key(s[0]), key(s[1]));
      }
      assert s == [s[0]] + s[1..];
    }
  }

  lemma SortByIdempotent<T>(s: seq<T>, key: T -> string)
    ensures SortBy(SortBy(s, key), key) == SortBy(s, key)
  {
    SortBySorted(s, key);
    SortBySortedIdentity(SortBy(s, key), key);
  }
}
