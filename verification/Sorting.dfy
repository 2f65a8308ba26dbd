/** Filtering, and the stable sort that `Array.prototype.sort` is. */
module Sorting {

  function Filter<T>(s: seq<T>, keep: T -> bool): (r: seq<T>)
    ensures forall x :: x in r ==> x in s && keep(x)
    ensures forall x :: x in s && keep(x) ==> x in r
  {
    if s == [] then [] else (if keep(s[0]) then [s[0]] else []) + Filter(s[1..], keep)
  }

  ghost predicate TotalPreorder<T(!new)>(le: (T, T) -> bool) {
    && (forall x, y :: le(x, y) || le(y, x))
    && (forall x, y, z :: le(x, y) && le(y, z) ==> le(x, z))
  }

  ghost predicate Sorted<T>(s: seq<T>, le: (T, T) -> bool) {
    forall i, j :: 0 <= i < j < |s| ==> le(s[i], s[j])
  }

  function Insert<T>(x: T, s: seq<T>, le: (T, T) -> bool): seq<T> {
    if s == [] || le(x, s[0]) then [x] + s else [s[0]] + Insert(x, s[1..], le)
  }

  function StableSort<T>(s: seq<T>, le: (T, T) -> bool): seq<T> {
    if s == [] then [] else Insert(s[0], StableSort(s[1..], le), le)
  }

  lemma {:induction false} InsertMultiset<T>(x: T, s: seq<T>, le: (T, T) -> bool)
    ensures multiset(Insert(x, s, le)) == multiset{x} + multiset(s)
  {
    if s != [] && !le(x, s[0]) {
      InsertMultiset(x, s[1..], le);
      assert s == [s[0]] + s[1..];
    }
  }

  lemma {:induction false} SortMultiset<T>(s: seq<T>, le: (T, T) -> bool)
    ensures multiset(StableSort(s, le)) == multiset(s)
  {
    if s != [] {
      SortMultiset(s[1..], le);
      InsertMultiset(s[0], StableSort(s[1..], le), le);
      assert s == [s[0]] + s[1..];
    }
  }

  lemma SortMembers<T>(s: seq<T>, le: (T, T) -> bool, x: T)
    ensures x in StableSort(s, le) <==> x in s
  {
    SortMultiset(s, le);
    assert x in s <==> x in multiset(s);
    assert x in StableSort(s, le) <==> x in multiset(StableSort(s, le));
  }

  lemma {:induction false} InsertSorted<T(!new)>(x: T, s: seq<T>, le: (T, T) -> bool)
    requires TotalPreorder(le) && Sorted(s, le)
    ensures Sorted(Insert(x, s, le), le)
  {
    if s != [] && !le(x, s[0]) {
      var t := Insert(x, s[1..], le);
      InsertSorted(x, s[1..], le);
      InsertMultiset(x, s[1..], le);
      forall j | 0 <= j < |t| ensures le(s[0], t[j]) {
        assert t[j] in multiset(t);
        assert t[j] == x || t[j] in s[1..];
      }
    } else if s != [] {
      forall j | 0 <= j < |s| ensures le(x, s[j]) {
        assert le(x, s[0]) && (j == 0 || le(s[0], s[j]));
      }
    }
  }

  lemma {:induction false} SortSorted<T(!new)>(s: seq<T>, le: (T, T) -> bool)
    requires TotalPreorder(le)
    ensures Sorted(StableSort(s, le), le)
  {
    if s != [] {
      SortSorted(s[1..], le);
      InsertSorted(s[0], StableSort(s[1..], le), le);
    }
  }

  lemma FilterCons<T>(x: T, s: seq<T>, keep: T -> bool)
    ensures Filter([x] + s, keep) == (if keep(x) then [x] else []) + Filter(s, keep)
  {
    assert ([x] + s)[1..] == s;
  }

  lemma {:induction false} InsertStable<T(!new)>(x: T, s: seq<T>, le: (T, T) -> bool, same: T -> bool)
    requires forall a, b :: same(a) && same(b) ==> le(a, b)
    ensures Filter(Insert(x, s, le), same) == (if same(x) then [x] else []) + Filter(s, same)
  {
    if s == [] || le(x, s[0]) {
      FilterCons(x, s, same);
    } else {
      InsertStable(x, s[1..], le, same);
      FilterCons(s[0], Insert(x, s[1..], le), same);
      assert same(x) ==> !same(s[0]);
      ExchangeParts(if same(x) then [x] else [], if same(s[0]) then [s[0]] else [], Filter(s[1..], same));
    }
  }

  lemma ExchangeParts<T>(a: seq<T>, b: seq<T>, rest: seq<T>)
    requires a == [] || b == []
    ensures b + (a + rest) == a + (b + rest)
  {}

  /** Elements the order does not tell apart keep the places they had among each other. */
  lemma {:induction false} SortStable<T(!new)>(s: seq<T>, le: (T, T) -> bool, same: T -> bool)
    requires forall a, b :: same(a) && same(b) ==> le(a, b)
    ensures Filter(StableSort(s, le), same) == Filter(s, same)
  {
    if s != [] {
      SortStable(s[1..], le, same);
      InsertStable(s[0], StableSort(s[1..], le), le, same);
    }
  }

  lemma {:induction false} FilterConcat<T>(a: seq<T>, b: seq<T>, keep: T -> bool)
    ensures Filter(a + b, keep) == Filter(a, keep) + Filter(b, keep)
  {
    if a == [] {
      assert a + b == b;
    } else {
      assert (a + b)[1..] == a[1..] + b;
      FilterConcat(a[1..], b, keep);
    }
  }

  lemma {:induction false} FilterAll<T>(s: seq<T>, keep: T -> bool)
    requires forall x :: x in s ==> keep(x)
    ensures Filter(s, keep) == s
  {
    if s != [] {
      FilterAll(s[1..], keep);
    }
  }

  lemma {:induction false} FilterNone<T>(s: seq<T>, keep: T -> bool)
    requires forall x :: x in s ==> !keep(x)
    ensures Filter(s, keep) == []
  {
    if s != [] {
      FilterNone(s[1..], keep);
    }
  }

  lemma {:induction false} FilterTwice<T>(s: seq<T>, first: T -> bool, second: T -> bool, both: T -> bool)
    requires forall x :: x in s ==> (both(x) <==> first(x) && second(x))
    ensures Filter(Filter(s, first), second) == Filter(s, both)
  {
    if s != [] {
      var rest := s[1..];
      assert forall x :: x in rest ==> x in s;
      FilterTwice(rest, first, second, both);
      assert s == [s[0]] + rest && s[0] in s;
      FilterCons(s[0], rest, first);
      FilterCons(s[0], rest, both);
      if first(s[0]) {
        FilterCons(s[0], Filter(rest, first), second);
      } else {
        assert Filter(s, first) == Filter(rest, first);
      }
    }
  }

  lemma FilterMiddle<T>(before: seq<T>, group: seq<T>, after: seq<T>, keep: T -> bool)
    requires forall x :: x in before ==> !keep(x)
    requires forall x :: x in group ==> keep(x)
    requires forall x :: x in after ==> !keep(x)
    ensures Filter(before + group + after, keep) == group
  {
    FilterConcat(before + group, after, keep);
    FilterConcat(before, group, keep);
    FilterNone(before, keep);
    FilterAll(group, keep);
    FilterNone(after, keep);
  }

  /** Filtering reordered sequences keeps the same elements the same number of times. */
  lemma {:induction false} FilterMultiset<T>(s: seq<T>, keep: T -> bool, x: T)
    ensures multiset(Filter(s, keep))[x] == if keep(x) then multiset(s)[x] else 0
  {
    if s != [] {
      FilterMultiset(s[1..], keep, x);
      assert s == [s[0]] + s[1..];
    }
  }

  lemma FilterPermuted<T(!new)>(a: seq<T>, b: seq<T>, keep: T -> bool)
    requires multiset(a) == multiset(b)
    ensures multiset(Filter(a, keep)) == multiset(Filter(b, keep))
  {
    forall x ensures multiset(Filter(a, keep))[x] == multiset(Filter(b, keep))[x] {
      FilterMultiset(a, keep, x);
      FilterMultiset(b, keep, x);
    }
  }

  // ---------------------------------------------------------------- the first of each key

  /** The elements whose key has not been seen before. */
  function KeepFirst<T, K(==)>(s: seq<T>, key: T -> K, seen: set<K>): seq<T> {
    if s == [] then []
    else if key(s[0]) in seen then KeepFirst(s[1..], key, seen)
    else [s[0]] + KeepFirst(s[1..], key, seen + {key(s[0])})
  }

  /** A filter with a shared set of keys already met. */
  method KeepFirsts<T, K(==)>(s: seq<T>, key: T -> K) returns (kept: seq<T>)
    ensures kept == KeepFirst(s, key, {})
  {
    kept := [];
    var seen: set<K> := {};
    assert s[0..] == s;
    for i := 0 to |s|
      invariant kept + KeepFirst(s[i..], key, seen) == KeepFirst(s, key, {})
    {
      assert s[i..][1..] == s[i + 1..];
      if key(s[i]) !in seen {
        seen := seen + {key(s[i])};
        kept := kept + [s[i]];
      }
    }
  }

  /** `x` is the first element with its key. */
  ghost predicate IsFirst<T, K(!new)>(s: seq<T>, key: T -> K, x: T) {
    exists i :: 0 <= i < |s| && s[i] == x && NoneBefore(s, key, i, key(x))
  }

  ghost predicate NoneBefore<T, K(!new)>(s: seq<T>, key: T -> K, n: nat, k: K)
    requires n <= |s|
  {
    forall j :: 0 <= j < n ==> key(s[j]) != k
  }

  ghost predicate Distinct<T(!new)>(s: seq<T>) {
    forall i, j :: 0 <= i < j < |s| ==> s[i] != s[j]
  }

  ghost predicate DistinctBy<T, K(!new)>(s: seq<T>, key: T -> K) {
    forall i, j :: 0 <= i < j < |s| ==> key(s[i]) != key(s[j])
  }

  lemma IsFirstStep<T, K(!new)>(s: seq<T>, key: T -> K, x: T)
    requires s != []
    ensures IsFirst(s, key, x) <==> x == s[0] || (key(x) != key(s[0]) && IsFirst(s[1..], key, x))
  {
    var rest := s[1..];
    if x == s[0] {
      assert NoneBefore(s, key, 0, key(x));
    }
    if i :| 0 < i < |s| && s[i] == x && NoneBefore(s, key, i, key(x)) {
      assert rest[i - 1] == x && NoneBefore(rest, key, i - 1, key(x));
    }
    if i :| key(x) != key(s[0]) && 0 <= i < |rest| && rest[i] == x && NoneBefore(rest, key, i, key(x)) {
      forall j | 0 <= j < i + 1 ensures key(s[j]) != key(x) {
        assert j > 0 ==> s[j] == rest[j - 1];
      }
      assert s[i + 1] == x && NoneBefore(s, key, i + 1, key(x));
    }
  }

  lemma {:induction false} FirstWithKey<T, K(!new)>(s: seq<T>, key: T -> K, i: nat) returns (x: T)
    requires i < |s|
    ensures IsFirst(s, key, x) && key(x) == key(s[i])
  {
    if j :| 0 <= j < i && key(s[j]) == key(s[i]) {
      x := FirstWithKey(s, key, j);
    } else {
      x := s[i];
      assert NoneBefore(s, key, i, key(x));
    }
  }

  /** What is kept has distinct keys, and is exactly the first element of every key not seen. */
  lemma {:induction false} KeepFirstShape<T(!new), K(!new)>(s: seq<T>, key: T -> K, seen: set<K>)
    ensures DistinctBy(KeepFirst(s, key, seen), key)
    ensures forall x :: x in KeepFirst(s, key, seen) <==> key(x) !in seen && IsFirst(s, key, x)
  {
    if s != [] {
      KeepFirstShape(s[1..], key, seen + {key(s[0])});
      assert key(s[0]) in seen ==> seen + {key(s[0])} == seen;
      forall x ensures IsFirst(s, key, x) <==> x == s[0] || (key(x) != key(s[0]) && IsFirst(s[1..], key, x)) {
        IsFirstStep(s, key, x);
      }
    }
  }

  lemma {:induction false} FilterDistinctBy<T, K(!new)>(s: seq<T>, key: T -> K, keep: T -> bool)
    requires DistinctBy(s, key)
    ensures DistinctBy(Filter(s, keep), key)
  {
    if s != [] {
      FilterDistinctBy(s[1..], key, keep);
      var rest := Filter(s[1..], keep);
      forall i | 0 <= i < |rest| ensures key(rest[i]) != key(s[0]) {
        assert rest[i] in s[1..];
      }
    }
  }

  lemma DistinctPermuted<T, K(!new)>(a: seq<T>, b: seq<T>, key: T -> K)
    requires multiset(a) == multiset(b) && DistinctBy(a, key)
    ensures DistinctBy(b, key)
  {
    forall i, j | 0 <= i < j < |b| ensures key(b[i]) != key(b[j]) {
      assert multiset(b)[b[i]] >= 1 && multiset(b)[b[j]] >= 1;
      assert b[i] in multiset(a) && b[j] in multiset(a);
      if b[i] == b[j] {
        TwiceInMultiset(b, i, j);
        OnceInDistinct(a, key, b[i]);
      }
    }
  }

  lemma TwiceInMultiset<T>(s: seq<T>, i: nat, j: nat)
    requires i < j < |s| && s[i] == s[j]
    ensures multiset(s)[s[i]] >= 2
  {
    assert s == s[..j] + [s[j]] + s[j + 1..];
    assert s[..j][i] == s[i];
    assert s[i] in multiset(s[..j]);
  }

  lemma {:induction false} OnceInDistinct<T, K(!new)>(a: seq<T>, key: T -> K, x: T)
    requires DistinctBy(a, key)
    ensures multiset(a)[x] <= 1
  {
    if a != [] {
      OnceInDistinct(a[1..], key, x);
      assert a == [a[0]] + a[1..];
      assert x == a[0] ==> x !in a[1..];
    }
  }
}
