/** Shared vocabulary of the model: optional values, record identifiers,
    handler replies and the list operations the controllers use on
    Mongoose arrays and collections (find-first, filter, `$pull`, toggle). */
module Common {

  datatype Option<+T> = None | Some(value: T) {
    function GetOr(default: T): T {
      match this
      case Some(v) => v
      case None => default
    }
  }

  /** MongoDB ObjectIds, compared by value (the source compares `toString()`s). */
  type Id = nat

  /** Timestamps (`createdAt`, `editedAt`) as abstract instants. */
  type Time = nat

  /** The status code and the `message` of a handler's JSON reply (`""` for
      a reply without one). */
  datatype Response = Response(code: nat, message: string)

  /** JavaScript truthiness of an optional request field (`None` is a key
      that is absent or `undefined`; `""` is falsy too). */
  predicate Truthy(o: Option<string>) { o.Some? && o.value != "" }

  /** Index of the first element satisfying `p` (MongoDB `findOne` / `findById`
      return the first match in natural order). */
  function Find<T>(s: seq<T>, p: T -> bool): (r: Option<nat>)
    ensures r.Some? ==> r.value < |s| && p(s[r.value])
    ensures r.Some? ==> forall j :: 0 <= j < r.value ==> !p(s[j])
    ensures r.None? <==> forall j :: 0 <= j < |s| ==> !p(s[j])
  {
    if |s| == 0 then None
    else if p(s[0]) then Some(0)
    else match Find(s[1..], p)
      case None => None
      case Some(k) => Some(k + 1)
  }

  /** Index of the last element satisfying `p`. */
  function FindLast<T>(s: seq<T>, p: T -> bool): (r: Option<nat>)
    ensures r.Some? ==> r.value < |s| && p(s[r.value])
    ensures r.Some? ==> forall j :: r.value < j < |s| ==> !p(s[j])
    ensures r.None? <==> forall j :: 0 <= j < |s| ==> !p(s[j])
  {
    if |s| == 0 then None
    else if p(s[|s| - 1]) then Some(|s| - 1)
    else FindLast(s[..|s| - 1], p)
  }

  /** The elements of `s` that satisfy `p`, in their order
      (`Array.prototype.filter`, and a MongoDB `find` with a filter). */
  function Filter<T(==,!new)>(s: seq<T>, p: T -> bool): (r: seq<T>)
    ensures |r| <= |s|
    ensures forall x :: x in r <==> x in s && p(x)
  {
    if |s| == 0 then []
    else
      assert s == [s[0]] + s[1..];
      (if p(s[0]) then [s[0]] else []) + Filter(s[1..], p)
  }

  /** `Filter` keeps each element that satisfies `p` as often as it occurs,
      and no other. */
  lemma {:induction false} FilterCount<T(!new)>(s: seq<T>, p: T -> bool)
    ensures forall x :: multiset(Filter(s, p))[x] == if p(x) then multiset(s)[x] else 0
  {
    if |s| > 0 {
      assert s == [s[0]] + s[1..];
      FilterCount(s[1..], p);
    }
  }

  ghost predicate Distinct<T>(s: seq<T>) {
    forall i, j :: 0 <= i < j < |s| ==> s[i] != s[j]
  }

  /** `s` without any occurrence of `x`: the source's
      `list.filter(id => id.toString() !== x)` and MongoDB's `$pull`. */
  function Without(s: seq<Id>, x: Id): (r: seq<Id>)
    ensures forall y :: y in r <==> y in s && y != x
    ensures x !in s ==> r == s
  {
    if |s| == 0 then []
    else
      assert s == [s[0]] + s[1..];
      (if s[0] == x then [] else [s[0]]) + Without(s[1..], x)
  }

  /** `Without` drops every copy of `x` and keeps every other element as
      many times as it occurs. */
  lemma {:induction false} WithoutCount(s: seq<Id>, x: Id)
    ensures multiset(Without(s, x)) == multiset(s)[x := 0]
    ensures |Without(s, x)| == |s| - multiset(s)[x]
  {
    if |s| > 0 {
      assert s == [s[0]] + s[1..];
      WithoutCount(s[1..], x);
    }
  }

  /** The list effect of a like toggle: remove `x` if present, else append it. */
  function Toggle(s: seq<Id>, x: Id): (r: seq<Id>)
    ensures x in r <==> x !in s
    ensures forall y :: y != x ==> (y in r <==> y in s)
  {
    if x in s then Without(s, x) else s + [x]
  }

  /** An element that occurs in a duplicate-free list occurs exactly once. */
  lemma {:induction false} DistinctOccursOnce(s: seq<Id>, x: Id)
    requires Distinct(s) && x in s
    ensures multiset(s)[x] == 1
  {
    assert s == [s[0]] + s[1..];
    if s[0] == x {
      assert x !in s[1..] by {
        forall j | 0 <= j < |s[1..]| ensures s[1..][j] != x {
          assert s[1..][j] == s[j + 1];
        }
      }
    } else {
      assert Distinct(s[1..]) by {
        forall i, j | 0 <= i < j < |s[1..]| ensures s[1..][i] != s[1..][j] {
          assert s[1..][i] == s[i + 1] && s[1..][j] == s[j + 1];
        }
      }
      DistinctOccursOnce(s[1..], x);
    }
  }

  /** A list is duplicate-free exactly when no element occurs twice. */
  lemma {:induction false} DistinctByMultiset(s: seq<Id>)
    ensures Distinct(s) <==> forall x :: multiset(s)[x] <= 1
  {
    if Distinct(s) {
      forall x ensures multiset(s)[x] <= 1 {
        if x in s { DistinctOccursOnce(s, x); }
      }
    }
    if forall x :: multiset(s)[x] <= 1 {
      forall i, j | 0 <= i < j < |s| ensures s[i] != s[j] {
        var rest := s[i + 1..j] + [s[j]] + s[j + 1..];
        assert s == s[..i] + [s[i]] + rest;
        assert multiset(s)[s[i]] == multiset(s[..i])[s[i]] + 1 + multiset(rest)[s[i]];
        assert s[j] in rest;
      }
    }
  }

  /** Pulling an element out of a duplicate-free list shortens it by one
      when the element is present, keeps it duplicate-free, and keeps the
      other elements. */
  lemma WithoutDistinct(s: seq<Id>, x: Id)
    requires Distinct(s)
    ensures Distinct(Without(s, x))
    ensures |Without(s, x)| == if x in s then |s| - 1 else |s|
  {
    var r := Without(s, x);
    WithoutCount(s, x);
    DistinctByMultiset(s);
    DistinctByMultiset(r);
    if x in s {
      DistinctOccursOnce(s, x);
    }
  }

  /** A toggle keeps a duplicate-free list duplicate-free and moves its length
      by exactly one, up when `x` was absent, down when present. */
  lemma ToggleDistinct(s: seq<Id>, x: Id)
    requires Distinct(s)
    ensures Distinct(Toggle(s, x))
    ensures |Toggle(s, x)| == if x in s then |s| - 1 else |s| + 1
  {
    WithoutDistinct(s, x);
  }

  /** Toggling twice from "absent" restores the list exactly. */
  lemma ToggleTwiceAbsent(s: seq<Id>, x: Id)
    requires x !in s
    ensures Toggle(Toggle(s, x), x) == s
  {
    WithoutAppended(s, x);
  }

  /** Toggling twice from "present" on a duplicate-free list restores its
      contents as a multiset; `x` moves to the end. */
  lemma ToggleTwicePresent(s: seq<Id>, x: Id)
    requires Distinct(s) && x in s
    ensures multiset(Toggle(Toggle(s, x), x)) == multiset(s)
    ensures Toggle(Toggle(s, x), x) == Without(s, x) + [x]
  {
    var w := Without(s, x);
    assert Toggle(s, x) == w;
    assert Toggle(w, x) == w + [x];
    DistinctOccursOnce(s, x);
    PullAppendOnce(s, x);
  }

  /** Pulling a once-occurring `x` and appending it keeps the multiset. */
  lemma PullAppendOnce(s: seq<Id>, x: Id)
    requires multiset(s)[x] == 1
    ensures multiset(Without(s, x) + [x]) == multiset(s)
  {
    WithoutCount(s, x);
    assert multiset(Without(s, x) + [x]) == multiset(s)[x := 0] + multiset{x};
  }

  lemma {:induction false} WithoutAppended(s: seq<Id>, x: Id)
    requires x !in s
    ensures Without(s + [x], x) == s
  {
    if |s| == 0 {
      assert [x][1..] == [];
    } else {
      assert (s + [x])[1..] == s[1..] + [x];
      WithoutAppended(s[1..], x);
    }
  }
}
