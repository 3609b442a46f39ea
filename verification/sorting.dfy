/**
 Stable sorting by an integer key, as sort.SliceStable delivers it: sorted, and with
 elements of equal keys in their original order. These two facts determine the result.
 */
module Sorting {
  function Insert<T>(s: seq<T>, x: T, key: T -> int): (r: seq<T>)
    ensures |r| == |s| + 1
  {
    if s == [] || key(s[|s| - 1]) <= key(x) then s + [x]
    else Insert(s[..|s| - 1], x, key) + [s[|s| - 1]]
  }

  function Sort<T>(s: seq<T>, key: T -> int): (r: seq<T>)
    ensures |r| == |s|
  {
    if s == [] then [] else Insert(Sort(s[..|s| - 1], key), s[|s| - 1], key)
  }

  ghost predicate Sorted<T>(s: seq<T>, key: T -> int) {
    forall i, j :: 0 <= i < j < |s| ==> key(s[i]) <= key(s[j])
  }

  /** The elements with key k, in order. */
  ghost function WithKey<T>(s: seq<T>, key: T -> int, k: int): seq<T> {
    if s == [] then []
    else WithKey(s[..|s| - 1], key, k) + if key(s[|s| - 1]) == k then [s[|s| - 1]] else []
  }

  lemma SplitLast<T>(s: seq<T>)
    requires s != []
    ensures s == s[..|s| - 1] + [s[|s| - 1]]
  {
  }

  lemma {:induction false} InsertMultiset<T>(s: seq<T>, x: T, key: T -> int)
    ensures multiset(Insert(s, x, key)) == multiset(s) + multiset{x}
  {
    if s != [] && key(s[|s| - 1]) > key(x) {
      InsertMultiset(s[..|s| - 1], x, key);
      SplitLast(s);
    }
  }

  lemma {:induction false} SortMultiset<T>(s: seq<T>, key: T -> int)
    ensures multiset(Sort(s, key)) == multiset(s)
  {
    if s != [] {
      SortMultiset(s[..|s| - 1], key);
      InsertMultiset(Sort(s[..|s| - 1], key), s[|s| - 1], key);
      SplitLast(s);
    }
  }

  /** Inserting adds no element beyond a bound that all elements and the new one keep. */
  lemma {:induction false} InsertBelow<T>(s: seq<T>, x: T, key: T -> int, bound: int)
    requires key(x) <= bound && forall i :: 0 <= i < |s| ==> key(s[i]) <= bound
    ensures forall i :: 0 <= i < |Insert(s, x, key)| ==> key(Insert(s, x, key)[i]) <= bound
  {
    if s != [] && key(s[|s| - 1]) > key(x) {
      InsertBelow(s[..|s| - 1], x, key, bound);
    }
  }

  lemma SortedAppend<T>(s: seq<T>, x: T, key: T -> int)
    requires Sorted(s, key) && forall i :: 0 <= i < |s| ==> key(s[i]) <= key(x)
    ensures Sorted(s + [x], key)
  {
  }

  lemma {:induction false} InsertSorted<T>(s: seq<T>, x: T, key: T -> int)
    requires Sorted(s, key)
    ensures Sorted(Insert(s, x, key), key)
  {
    if s != [] && key(s[|s| - 1]) > key(x) {
      var n := |s| - 1;
      InsertSorted(s[..n], x, key);
      InsertBelow(s[..n], x, key, key(s[n]));
      SortedAppend(Insert(s[..n], x, key), s[n], key);
    } else {
      SortedAppend(s, x, key);
    }
  }

  lemma {:induction false} SortSorted<T>(s: seq<T>, key: T -> int)
    ensures Sorted(Sort(s, key), key)
  {
    if s != [] {
      SortSorted(s[..|s| - 1], key);
      InsertSorted(Sort(s[..|s| - 1], key), s[|s| - 1], key);
    }
  }

  lemma WithKeyAppend<T>(s: seq<T>, x: T, key: T -> int, k: int)
    ensures WithKey(s + [x], key, k) == WithKey(s, key, k) + if key(x) == k then [x] else []
  {
    assert (s + [x])[..|s|] == s;
  }

  lemma {:induction false} InsertStable<T>(s: seq<T>, x: T, key: T -> int, k: int)
    ensures WithKey(Insert(s, x, key), key, k) == WithKey(s + [x], key, k)
  {
    WithKeyAppend(s, x, key, k);
    if s != [] && key(s[|s| - 1]) > key(x) {
      var n := |s| - 1;
      InsertStable(s[..n], x, key, k);
      WithKeyAppend(s[..n], x, key, k);
      WithKeyAppend(Insert(s[..n], x, key), s[n], key, k);
    }
  }

  lemma {:induction false} SortStable<T>(s: seq<T>, key: T -> int, k: int)
    ensures WithKey(Sort(s, key), key, k) == WithKey(s, key, k)
  {
    if s != [] {
      var n := |s| - 1;
      SortStable(s[..n], key, k);
      InsertStable(Sort(s[..n], key), s[n], key, k);
      WithKeyAppend(Sort(s[..n], key), s[n], key, k);
    }
  }

  lemma {:induction false} WithKeyMember<T>(s: seq<T>, key: T -> int, k: int)
    ensures WithKey(s, key, k) != [] <==> exists i :: 0 <= i < |s| && key(s[i]) == k
  {
    if s != [] {
      WithKeyMember(s[..|s| - 1], key, k);
    }
  }

  lemma EndsWithLast<T>(s: seq<T>, key: T -> int)
    requires s != []
    ensures var ws := WithKey(s, key, key(s[|s| - 1])); ws != [] && ws[|ws| - 1] == s[|s| - 1]
  {
  }

  lemma LastIsGreatest<T>(s: seq<T>, key: T -> int, k: int)
    requires Sorted(s, key) && WithKey(s, key, k) != []
    ensures s != [] && k <= key(s[|s| - 1])
  {
    WithKeyMember(s, key, k);
  }

  ghost predicate SameKeyOrder<T>(s: seq<T>, t: seq<T>, key: T -> int) {
    forall k :: WithKey(s, key, k) == WithKey(t, key, k)
  }

  lemma SameLast<T>(s: seq<T>, t: seq<T>, key: T -> int)
    requires s != [] && Sorted(s, key) && Sorted(t, key) && SameKeyOrder(s, t, key)
    ensures t != [] && s[|s| - 1] == t[|t| - 1]
  {
    var x := s[|s| - 1];
    EndsWithLast(s, key);
    assert WithKey(s, key, key(x)) == WithKey(t, key, key(x));
    LastIsGreatest(t, key, key(x));
    var y := t[|t| - 1];
    EndsWithLast(t, key);
    assert WithKey(s, key, key(y)) == WithKey(t, key, key(y));
    LastIsGreatest(s, key, key(y));
  }

  lemma SameFronts<T>(s: seq<T>, t: seq<T>, x: T, key: T -> int)
    requires SameKeyOrder(s + [x], t + [x], key)
    ensures SameKeyOrder(s, t, key)
  {
    forall k ensures WithKey(s, key, k) == WithKey(t, key, k) {
      assert WithKey(s + [x], key, k) == WithKey(t + [x], key, k);
      WithKeyAppend(s, x, key, k);
      WithKeyAppend(t, x, key, k);
      SameFront(WithKey(s, key, k), WithKey(t, key, k), if key(x) == k then [x] else []);
    }
  }

  /** Sorted and stable leave one possibility. */
  lemma {:induction false} SortUnique<T>(s: seq<T>, t: seq<T>, key: T -> int)
    requires Sorted(s, key) && Sorted(t, key) && SameKeyOrder(s, t, key)
    ensures s == t
    decreases |s|
  {
    if s != [] {
      SameLast(s, t, key);
      SplitLast(s);
      SplitLast(t);
      SameFronts(s[..|s| - 1], t[..|t| - 1], s[|s| - 1], key);
      SortUnique(s[..|s| - 1], t[..|t| - 1], key);
    } else if t != [] {
      assert SameKeyOrder(t, s, key);
      SameLast(t, s, key);
    }
  }

  lemma SameFront<T>(a: seq<T>, b: seq<T>, c: seq<T>)
    requires a + c == b + c
    ensures a == b
  {
    assert |a| == |b|;
    assert forall i :: 0 <= i < |a| ==> a[i] == (a + c)[i] && b[i] == (b + c)[i];
  }

  lemma SortOfSorted<T>(s: seq<T>, key: T -> int)
    requires Sorted(s, key)
    ensures Sort(s, key) == s
  {
    SortSorted(s, key);
    forall k ensures WithKey(Sort(s, key), key, k) == WithKey(s, key, k) {
      SortStable(s, key, k);
    }
    SortUnique(Sort(s, key), s, key);
  }

  // ---------- the positions the elements come from ----------

  ghost function Mapped<S, T>(f: S -> T, s: seq<S>): (t: seq<T>)
    ensures |t| == |s| && forall i :: 0 <= i < |s| ==> t[i] == f(s[i])
  {
    seq(|s|, i requires 0 <= i < |s| => f(s[i]))
  }

  lemma {:induction false} MappedInsert<S, T>(f: S -> T, s: seq<S>, x: S, key: T -> int, of: S -> int)
    requires forall y :: of(y) == key(f(y))
    ensures Mapped(f, Insert(s, x, of)) == Insert(Mapped(f, s), f(x), key)
  {
    if s != [] && of(s[|s| - 1]) > of(x) {
      var front := s[..|s| - 1];
      MappedInsert(f, front, x, key, of);
      assert Mapped(f, s)[..|s| - 1] == Mapped(f, front);
    }
  }

  lemma {:induction false} MappedSort<S, T>(f: S -> T, s: seq<S>, key: T -> int, of: S -> int)
    requires forall y :: of(y) == key(f(y))
    ensures Mapped(f, Sort(s, of)) == Sort(Mapped(f, s), key)
  {
    if s != [] {
      var front := s[..|s| - 1];
      MappedSort(f, front, key, of);
      MappedInsert(f, Sort(front, of), s[|s| - 1], key, of);
      assert Mapped(f, s)[..|s| - 1] == Mapped(f, front);
    }
  }

  /** Elements with equal keys are in increasing rank. */
  ghost predicate TiesInRank(s: seq<int>, key: int -> int) {
    forall i, j :: 0 <= i < j < |s| && key(s[i]) == key(s[j]) ==> s[i] < s[j]
  }

  lemma {:induction false} InsertMembers(s: seq<int>, x: int, key: int -> int)
    ensures forall i :: 0 <= i < |Insert(s, x, key)| ==> Insert(s, x, key)[i] == x || Insert(s, x, key)[i] in s
  {
    if s != [] && key(s[|s| - 1]) > key(x) {
      InsertMembers(s[..|s| - 1], x, key);
    }
  }

  lemma {:induction false} InsertTies(s: seq<int>, x: int, key: int -> int)
    requires TiesInRank(s, key) && forall i :: 0 <= i < |s| ==> s[i] < x
    ensures TiesInRank(Insert(s, x, key), key)
  {
    if s != [] && key(s[|s| - 1]) > key(x) {
      var n := |s| - 1;
      InsertTies(s[..n], x, key);
      InsertMembers(s[..n], x, key);
    }
  }

  ghost predicate RanksBelow(s: seq<int>, n: nat) {
    forall i :: 0 <= i < |s| ==> 0 <= s[i] < n
  }

  lemma InsertRanks(s: seq<int>, n: nat, key: int -> int)
    requires RanksBelow(s, n)
    ensures RanksBelow(Insert(s, n, key), n + 1)
  {
    InsertMembers(s, n, key);
  }

  lemma {:induction false} SortTies(n: nat, key: int -> int)
    ensures TiesInRank(Sort(Count(n), key), key) && RanksBelow(Sort(Count(n), key), n)
  {
    if n > 0 {
      SortTies(n - 1, key);
      assert Count(n)[..n - 1] == Count(n - 1);
      InsertTies(Sort(Count(n - 1), key), n - 1, key);
      InsertRanks(Sort(Count(n - 1), key), n - 1, key);
    }
  }

  ghost function Count(n: nat): (s: seq<int>)
    ensures |s| == n && forall i :: 0 <= i < n ==> s[i] == i
  {
    seq(n, i => i)
  }

  /** Every position is used once, and the element at p[i] comes i-th: by key, and equal keys as they stood. */
  ghost predicate StableOrder<T>(p: seq<int>, s: seq<T>, key: T -> int) {
    && |p| == |s| && (forall i :: 0 <= i < |p| ==> 0 <= p[i] < |s|)
    && (forall i, j :: 0 <= i < j < |p| ==>
          key(s[p[i]]) < key(s[p[j]]) || (key(s[p[i]]) == key(s[p[j]]) && p[i] < p[j]))
  }

  /** What a stable sort is, by positions. */
  lemma SortPositions<T>(s: seq<T>, key: T -> int) returns (p: seq<int>)
    ensures StableOrder(p, s, key)
    ensures forall i :: 0 <= i < |s| ==> Sort(s, key)[i] == s[p[i]]
  {
    if s == [] {
      p := [];
    } else {
      var f := (i: int) => if 0 <= i < |s| then s[i] else s[0];
      var of := (i: int) => key(f(i));
      p := Sort(Count(|s|), of);
      assert Mapped(f, Count(|s|)) == s;
      MappedSort(f, Count(|s|), key, of);
      SortTies(|s|, of);
      SortSorted(Count(|s|), of);
    }
  }
}
