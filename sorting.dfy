/**
 * The canonical order of src/service.py: `_basic_sorting_key` and Python's
 * `sorted`, a stable sort that compares keys with tuple `<`.
 */
module Sorting {
  import opened Constants
  import opened Text
  import opened Dates
  import opened Schemas

  /** The five-part key: priority rank, status rank, deadline, category rank, name. */
  datatype Key = Key(priority: nat, status: nat, deadline: Date, category: nat, name: string)

  /** `_basic_sorting_key` */
  function SortKey(t: TaskRead): (k: Key)
  {
    Key(PriorityRank(t.priority), StatusRank(t.status), t.deadline, CategoryRank(t.category), t.name)
  }

  /** Two tasks share a key exactly when they agree on the five fields it reads. */
  lemma SameKeyIffSameFields(a: TaskRead, b: TaskRead)
    ensures SortKey(a) == SortKey(b) <==>
      a.priority == b.priority && a.status == b.status && a.deadline == b.deadline
      && a.category == b.category && a.name == b.name
  {
    RanksInjective();
  }

  /** Python's tuple `<`: the first position where the keys differ decides. */
  predicate KeyLess(a: Key, b: Key) {
    if a.priority != b.priority then a.priority < b.priority
    else if a.status != b.status then a.status < b.status
    else if a.deadline != b.deadline then DateLess(a.deadline, b.deadline)
    else if a.category != b.category then a.category < b.category
    else StrLess(a.name, b.name)
  }

  lemma KeyLessIrreflexive(a: Key)
    ensures !KeyLess(a, a)
  {
    StrLessIrreflexive(a.name);
  }

  lemma KeyLessTransitive(a: Key, b: Key, c: Key)
    requires KeyLess(a, b) && KeyLess(b, c)
    ensures KeyLess(a, c)
  {
    DateLessIsStrictTotalOrder(a.deadline, b.deadline, c.deadline);
    if a.priority == b.priority == c.priority && a.status == b.status == c.status
       && a.deadline == b.deadline == c.deadline && a.category == b.category == c.category {
      StrLessTransitive(a.name, b.name, c.name);
    }
  }

  lemma KeyLessTotal(a: Key, b: Key)
    ensures a == b || KeyLess(a, b) || KeyLess(b, a)
  {
    DateLessIsStrictTotalOrder(a.deadline, b.deadline, a.deadline);
    StrLessTotal(a.name, b.name);
  }

  predicate TaskLess(a: TaskRead, b: TaskRead) {
    KeyLess(SortKey(a), SortKey(b))
  }

  /** Non-decreasing under the key: no later task sorts strictly before an earlier one. */
  ghost predicate Sorted(s: seq<TaskRead>) {
    forall i, j :: 0 <= i < j < |s| ==> !TaskLess(s[j], s[i])
  }

  /** The tasks of `s` whose key is `k`, in their order in `s`. */
  function WithKey(s: seq<TaskRead>, k: Key): (r: seq<TaskRead>)
    ensures |r| <= |s|
  {
    if s == [] then [] else (if SortKey(s[0]) == k then [s[0]] else []) + WithKey(s[1..], k)
  }

  lemma WithKeyCons(x: TaskRead, s: seq<TaskRead>, k: Key)
    ensures WithKey([x] + s, k) == (if SortKey(x) == k then [x] else []) + WithKey(s, k)
  {
    assert ([x] + s)[0] == x && ([x] + s)[1..] == s;
  }

  lemma {:induction false} WithKeyAppend(a: seq<TaskRead>, b: seq<TaskRead>, k: Key)
    ensures WithKey(a + b, k) == WithKey(a, k) + WithKey(b, k)
  {
    if a == [] {
      assert a + b == b;
    } else {
      assert (a + b)[0] == a[0] && (a + b)[1..] == a[1..] + b;
      WithKeyAppend(a[1..], b, k);
    }
  }

  lemma {:induction false} WithKeyEmpty(s: seq<TaskRead>, k: Key)
    ensures WithKey(s, k) == [] <==> forall j :: 0 <= j < |s| ==> SortKey(s[j]) != k
  {
    if s != [] {
      WithKeyEmpty(s[1..], k);
      assert forall j :: 1 <= j < |s| ==> s[j] == s[1..][j - 1];
    }
  }

  /**
   * What `sorted(s, key=...)` promises: the result is non-decreasing under the
   * key, and the tasks sharing any one key keep their relative order (stability),
   * which also makes it a permutation of `s`.
   */
  ghost predicate IsStableSortOf(r: seq<TaskRead>, s: seq<TaskRead>) {
    Sorted(r) && multiset(r) == multiset(s) && forall k :: WithKey(r, k) == WithKey(s, k)
  }

  /** Place `x` after every task whose key is not greater than its own. */
  function Insert(s: seq<TaskRead>, x: TaskRead): (r: seq<TaskRead>)
    ensures |r| == |s| + 1
  {
    if s == [] then [x]
    else if TaskLess(x, s[0]) then [x] + s
    else [s[0]] + Insert(s[1..], x)
  }

  /** Inserting adds exactly one occurrence of `x`. */
  lemma {:induction false} InsertCount(s: seq<TaskRead>, x: TaskRead)
    ensures multiset(Insert(s, x)) == multiset(s) + multiset{x}
  {
    if s != [] && !TaskLess(x, s[0]) {
      InsertCount(s[1..], x);
      assert s == [s[0]] + s[1..];
    }
  }

  /** Insertion sort, taking the tasks in their list order, so equal keys stay in order. */
  function SortByKey(s: seq<TaskRead>): (r: seq<TaskRead>)
    ensures multiset(r) == multiset(s)
  {
    if s == [] then []
    else
      assert s == s[..|s| - 1] + [s[|s| - 1]];
      InsertCount(SortByKey(s[..|s| - 1]), s[|s| - 1]);
      Insert(SortByKey(s[..|s| - 1]), s[|s| - 1])
  }

  /** A task no later task sorts before can go in front of a sorted list. */
  lemma ConsSorted(x: TaskRead, s: seq<TaskRead>)
    requires Sorted(s) && forall j :: 0 <= j < |s| ==> !TaskLess(s[j], x)
    ensures Sorted([x] + s)
  {
    var r := [x] + s;
    forall i, j | 0 <= i < j < |r| ensures !TaskLess(r[j], r[i]) {
      assert r[j] == s[j - 1];
      if i > 0 {
        assert r[i] == s[i - 1];
      }
    }
  }

  lemma {:induction false} InsertSorted(s: seq<TaskRead>, x: TaskRead)
    requires Sorted(s)
    ensures Sorted(Insert(s, x))
  {
    if s == [] {
    } else if TaskLess(x, s[0]) {
      forall j | 0 <= j < |s| ensures !TaskLess(s[j], x) {
        if TaskLess(s[j], x) {
          KeyLessTransitive(SortKey(s[j]), SortKey(x), SortKey(s[0]));
          if j == 0 { KeyLessIrreflexive(SortKey(s[0])); }
        }
      }
      ConsSorted(x, s);
    } else {
      SortedTail(s);
      InsertSorted(s[1..], x);
      var t := Insert(s[1..], x);
      InsertCount(s[1..], x);
      forall j | 0 <= j < |t| ensures !TaskLess(t[j], s[0]) {
        assert t[j] in multiset(t);
        if t[j] != x {
          assert t[j] in multiset(s[1..]);
          var k :| 0 <= k < |s[1..]| && s[1..][k] == t[j];
          assert s[k + 1] == t[j];
        }
      }
      ConsSorted(s[0], t);
    }
  }

  lemma {:induction false} InsertWithKey(s: seq<TaskRead>, x: TaskRead, k: Key)
    requires Sorted(s)
    ensures WithKey(Insert(s, x), k) == WithKey(s, k) + (if SortKey(x) == k then [x] else [])
    decreases |s|, 1
  {
    if s == [] {
      WithKeyCons(x, [], k);
    } else if TaskLess(x, s[0]) {
      assert Insert(s, x) == [x] + s;
      WithKeyCons(x, s, k);
      if SortKey(x) == k {
        KeyBelowHeadAbsent(s, k);
      }
    } else {
      InsertAfterHead(s, x, k);
    }
  }

  lemma {:induction false} InsertAfterHead(s: seq<TaskRead>, x: TaskRead, k: Key)
    requires Sorted(s) && s != [] && !TaskLess(x, s[0])
    ensures WithKey(Insert(s, x), k) == WithKey(s, k) + (if SortKey(x) == k then [x] else [])
    decreases |s|, 0
  {
    var tail := s[1..];
    var t := Insert(tail, x);
    assert Insert(s, x) == [s[0]] + t;
    assert s == [s[0]] + tail;
    SortedTail(s);
    InsertWithKey(tail, x, k);
    WithKeyCons(s[0], t, k);
    WithKeyCons(s[0], tail, k);
    var h := if SortKey(s[0]) == k then [s[0]] else [];
    var e := if SortKey(x) == k then [x] else [];
    AppendAssoc(h, WithKey(tail, k), e);
  }

  lemma AppendAssoc(a: seq<TaskRead>, b: seq<TaskRead>, c: seq<TaskRead>)
    ensures a + (b + c) == (a + b) + c
  {
  }

  lemma SortedTail(s: seq<TaskRead>)
    requires Sorted(s) && s != []
    ensures Sorted(s[1..])
  {
    forall i, j | 0 <= i < j < |s| - 1 ensures !TaskLess(s[1..][j], s[1..][i]) {
      assert s[1..][j] == s[j + 1] && s[1..][i] == s[i + 1];
    }
  }

  /** The head of a list is the first task carrying its key. */
  lemma HeadLeadsItsKey(s: seq<TaskRead>)
    requires s != []
    ensures WithKey(s, SortKey(s[0])) != [] && WithKey(s, SortKey(s[0]))[0] == s[0]
  {
  }

  /** A key strictly below the head of a sorted list occurs nowhere in it. */
  lemma KeyBelowHeadAbsent(s: seq<TaskRead>, k: Key)
    requires Sorted(s) && s != [] && KeyLess(k, SortKey(s[0]))
    ensures WithKey(s, k) == []
  {
    forall j | 0 <= j < |s| ensures SortKey(s[j]) != k {
      var h, kj := SortKey(s[0]), SortKey(s[j]);
      if j > 0 {
        assert !KeyLess(kj, h);
      }
      KeyLessTotal(h, kj);
      if KeyLess(h, kj) {
        KeyLessTransitive(k, h, kj);
      }
      KeyLessIrreflexive(k);
    }
    WithKeyEmpty(s, k);
  }

  /** The insertion sort is a stable sort. */
  lemma {:induction false} SortByKeyIsStableSort(s: seq<TaskRead>)
    ensures IsStableSortOf(SortByKey(s), s)
  {
    if s != [] {
      var init, last := s[..|s| - 1], s[|s| - 1];
      assert s == init + [last];
      var sortedInit := SortByKey(init);
      assert SortByKey(s) == Insert(sortedInit, last);
      SortByKeyIsStableSort(init);
      InsertSorted(sortedInit, last);
      forall k ensures WithKey(SortByKey(s), k) == WithKey(s, k) {
        InsertWithKey(sortedInit, last, k);
        WithKeyAppend(init, [last], k);
        WithKeyCons(last, [], k);
      }
    }
  }

  /** A stable sort has only one possible result, so the insertion sort gives
      what `sorted` gives. */
  lemma {:induction false} StableSortUnique(r1: seq<TaskRead>, r2: seq<TaskRead>)
    requires Sorted(r1) && Sorted(r2)
    requires forall k :: WithKey(r1, k) == WithKey(r2, k)
    ensures r1 == r2
    decreases |r1|
  {
    if r1 != [] { HeadLeadsItsKey(r1); }
    if r2 != [] { HeadLeadsItsKey(r2); }
    if r1 == [] || r2 == [] {
    } else {
      var k1, k2 := SortKey(r1[0]), SortKey(r2[0]);
      HeadKeyIsLeast(r2, k1, WithKey(r1, k1));
      HeadKeyIsLeast(r1, k2, WithKey(r2, k2));
      KeyLessTotal(k1, k2);
      assert r1[0] == WithKey(r1, k1)[0] == WithKey(r2, k2)[0] == r2[0];
      forall k ensures WithKey(r1[1..], k) == WithKey(r2[1..], k) {
        assert r1 == [r1[0]] + r1[1..] && r2 == [r2[0]] + r2[1..];
        WithKeyCons(r1[0], r1[1..], k);
        WithKeyCons(r2[0], r2[1..], k);
        var p := if k == k1 then [r1[0]] else [];
        assert WithKey(r1, k) == p + WithKey(r1[1..], k);
        assert WithKey(r2, k) == p + WithKey(r2[1..], k);
        assert WithKey(r1[1..], k) == WithKey(r1, k)[|p|..];
        assert WithKey(r2[1..], k) == WithKey(r2, k)[|p|..];
      }
      SortedTail(r1);
      SortedTail(r2);
      StableSortUnique(r1[1..], r2[1..]);
      assert r1 == [r1[0]] + r1[1..] && r2 == [r2[0]] + r2[1..];
    }
  }

  /** In a sorted list, a key that occurs is not below the key of the head. */
  lemma HeadKeyIsLeast(s: seq<TaskRead>, k: Key, w: seq<TaskRead>)
    requires Sorted(s) && s != [] && w == WithKey(s, k) && w != []
    ensures !KeyLess(k, SortKey(s[0]))
  {
    WithKeyEmpty(s, k);
    var j :| 0 <= j < |s| && SortKey(s[j]) == k;
    if j == 0 { KeyLessIrreflexive(k); }
  }

  /** Whatever stable sort `sorted` performs, its result is the insertion sort's. */
  lemma StableSortIsSortByKey(r: seq<TaskRead>, s: seq<TaskRead>)
    requires IsStableSortOf(r, s)
    ensures r == SortByKey(s)
  {
    SortByKeyIsStableSort(s);
    StableSortUnique(r, SortByKey(s));
  }
}
