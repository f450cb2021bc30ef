/** MongoDB's `.sort({ createdAt: -1 })`: newest first, ties in any order. */
module Sorting {

  ghost predicate NewestFirst<T>(s: seq<T>, key: T -> nat) {
    forall i, j :: 0 <= i < j < |s| ==> key(s[i]) >= key(s[j])
  }

  /** Inserts `x` into a newest-first list ahead of every element that is
      not newer than it. */
  function Insert<T(==)>(x: T, s: seq<T>, key: T -> nat): (r: seq<T>)
    requires NewestFirst(s, key)
    ensures NewestFirst(r, key)
    ensures multiset(r) == multiset(s) + multiset{x}
  {
    if |s| == 0 || key(x) >= key(s[0]) then
      [x] + s
    else
      var rest := Insert(x, s[1..], key);
      assert s == [s[0]] + s[1..];
      InsertBelowHead(x, s, key, rest);
      [s[0]] + rest
  }

  /** Every element of `rest` (a permutation of `s[1..]` plus `x`) is no
      newer than the head of `s`. */
  lemma InsertBelowHead<T>(x: T, s: seq<T>, key: T -> nat, rest: seq<T>)
    requires NewestFirst(s, key) && |s| > 0 && key(x) < key(s[0])
    requires multiset(rest) == multiset(s[1..]) + multiset{x}
    ensures forall k :: 0 <= k < |rest| ==> key(s[0]) >= key(rest[k])
  {
    forall k | 0 <= k < |rest| ensures key(s[0]) >= key(rest[k]) {
      assert rest[k] in multiset(rest);
      if rest[k] != x {
        assert rest[k] in s[1..];
        var m :| 0 <= m < |s[1..]| && s[1..][m] == rest[k];
        assert s[m + 1] == rest[k];
      }
    }
  }

  /** A newest-first permutation of `s` (insertion sort). */
  function SortNewestFirst<T(==)>(s: seq<T>, key: T -> nat): (r: seq<T>)
    ensures NewestFirst(r, key)
    ensures multiset(r) == multiset(s)
    ensures |r| == |s|
  {
    if |s| == 0 then []
    else
      assert s == [s[0]] + s[1..];
      var r := Insert(s[0], SortNewestFirst(s[1..], key), key);
      assert |r| == |multiset(r)|;
      r
  }
}
