/** Stable sorting by descending key, and the grouping by key that produces it. */
module StableSort {

  // ---------- the reference: insertion sort ----------

  /** Inserts `x` behind everything that does not rank below it. */
  function Insert<T>(a: seq<T>, x: T, key: T -> int): (r: seq<T>)
    ensures |r| == |a| + 1
    ensures r[0] == if a == [] || key(a[0]) < key(x) then x else a[0]
  {
    if a == [] then [x]
    else if key(a[0]) < key(x) then [x] + a
    else [a[0]] + Insert(a[1..], x, key)
  }

  function Sort<T>(s: seq<T>, key: T -> int): seq<T> {
    if s == [] then [] else Insert(Sort(s[..|s| - 1], key), s[|s| - 1], key)
  }

  ghost predicate Descending<T>(s: seq<T>, key: T -> int) {
    s == [] || (Descending(s[1..], key) && forall i :: 0 < i < |s| ==> key(s[0]) >= key(s[i]))
  }

  /** The elements with key `k`, in order. */
  function WithKey<T>(s: seq<T>, key: T -> int, k: int): seq<T> {
    if s == [] then []
    else (if key(s[0]) == k then [s[0]] else []) + WithKey(s[1..], key, k)
  }

  lemma {:induction false} InsertBound<T>(a: seq<T>, x: T, key: T -> int, k: int)
    requires key(x) <= k && forall i :: 0 <= i < |a| ==> key(a[i]) <= k
    ensures forall i :: 0 <= i < |Insert(a, x, key)| ==> key(Insert(a, x, key)[i]) <= k
  {
    if a != [] && key(a[0]) >= key(x) {
      InsertBound(a[1..], x, key, k);
    }
  }

  lemma {:induction false} InsertKeepsDescending<T>(a: seq<T>, x: T, key: T -> int)
    requires Descending(a, key)
    ensures Descending(Insert(a, x, key), key)
  {
    var r := Insert(a, x, key);
    if a == [] {
    } else if key(a[0]) < key(x) {
      assert r[1..] == a;
    } else {
      InsertKeepsDescending(a[1..], x, key);
      InsertBound(a[1..], x, key, key(a[0]));
      assert r[1..] == Insert(a[1..], x, key);
    }
  }

  lemma {:induction false} InsertIsLast<T>(a: seq<T>, x: T, key: T -> int, k: int)
    requires Descending(a, key)
    ensures WithKey(Insert(a, x, key), key, k) == WithKey(a, key, k) + if key(x) == k then [x] else []
  {
    var r := Insert(a, x, key);
    if a == [] {
    } else if key(a[0]) < key(x) {
      assert r[1..] == a;
      NoneAbove(a, key, key(x));
      assert WithKey(a, key, k) + [] == WithKey(a, key, k) == [] + WithKey(a, key, k);
    } else {
      var head, tail := if key(a[0]) == k then [a[0]] else [], if key(x) == k then [x] else [];
      InsertIsLast(a[1..], x, key, k);
      assert r[1..] == Insert(a[1..], x, key);
      assert head + (WithKey(a[1..], key, k) + tail) == (head + WithKey(a[1..], key, k)) + tail;
    }
  }

  lemma {:induction false} InsertAdds<T>(a: seq<T>, x: T, key: T -> int)
    ensures multiset(Insert(a, x, key)) == multiset(a) + multiset{x}
  {
    if a != [] && key(a[0]) >= key(x) {
      var rest := Insert(a[1..], x, key);
      InsertAdds(a[1..], x, key);
      assert a == [a[0]] + a[1..];
      assert multiset([a[0]] + rest) == multiset{a[0]} + multiset(rest);
    }
  }

  /** A descending list that starts below `k` holds no element with key `k`. */
  lemma {:induction false} NoneAbove<T>(a: seq<T>, key: T -> int, k: int)
    requires Descending(a, key) && (a != [] ==> key(a[0]) < k)
    ensures WithKey(a, key, k) == []
  {
    if a != [] {
      NoneAbove(a[1..], key, k);
    }
  }

  lemma {:induction false} WithKeySplits<T>(a: seq<T>, b: seq<T>, key: T -> int, k: int)
    ensures WithKey(a + b, key, k) == WithKey(a, key, k) + WithKey(b, key, k)
  {
    if a == [] {
      assert a + b == b;
    } else {
      var head := if key(a[0]) == k then [a[0]] else [];
      assert (a + b)[0] == a[0] && (a + b)[1..] == a[1..] + b;
      WithKeySplits(a[1..], b, key, k);
      assert head + (WithKey(a[1..], key, k) + WithKey(b, key, k)) == (head + WithKey(a[1..], key, k)) + WithKey(b, key, k);
    }
  }

  /** Insertion sort is a stable sort: it is descending and keeps the order of equal keys. */
  lemma {:induction false} SortIsStable<T>(s: seq<T>, key: T -> int, k: int)
    ensures Descending(Sort(s, key), key)
    ensures WithKey(Sort(s, key), key, k) == WithKey(s, key, k)
  {
    if s != [] {
      var before, last := s[..|s| - 1], s[|s| - 1];
      SortIsStable(before, key, k);
      var sorted := Sort(before, key);
      InsertKeepsDescending(sorted, last, key);
      InsertIsLast(sorted, last, key, k);
      WithKeySplits(before, [last], key, k);
      assert s == before + [last];
    }
  }

  lemma {:induction false} SortIsPermutation<T>(s: seq<T>, key: T -> int)
    ensures multiset(Sort(s, key)) == multiset(s)
  {
    if s != [] {
      SortIsPermutation(s[..|s| - 1], key);
      InsertAdds(Sort(s[..|s| - 1], key), s[|s| - 1], key);
      assert s == s[..|s| - 1] + [s[|s| - 1]];
    }
  }

  lemma StartHasKey<T>(a: seq<T>, key: T -> int)
    requires a != []
    ensures WithKey(a, key, key(a[0])) != [] && WithKey(a, key, key(a[0]))[0] == a[0]
  {}

  /** A stable sort is unique: descending lists with the same elements of each key, in the same order, are equal. */
  lemma {:induction false} StableSortIsUnique<T>(a: seq<T>, b: seq<T>, key: T -> int)
    requires Descending(a, key) && Descending(b, key)
    requires forall k :: WithKey(a, key, k) == WithKey(b, key, k)
    ensures a == b
  {
    if a == [] || b == [] {
      if a != [] { StartHasKey(a, key); }
      if b != [] { StartHasKey(b, key); }
    } else {
      var k := key(a[0]);
      if k > key(b[0]) { NoneAbove(b, key, k); }
      if key(b[0]) > k { NoneAbove(a, key, key(b[0])); }
      assert WithKey(a, key, k) == WithKey(b, key, k);
      assert WithKey(a, key, key(b[0])) == WithKey(b, key, key(b[0]));
      assert WithKey(a, key, k)[0] == a[0] && WithKey(b, key, k)[0] == b[0];
      forall j ensures WithKey(a[1..], key, j) == WithKey(b[1..], key, j) {
        assert WithKey(a, key, j) == WithKey(b, key, j);
        var n := if j == k then 1 else 0;
        assert WithKey(a, key, j)[n..] == WithKey(a[1..], key, j);
        assert WithKey(b, key, j)[n..] == WithKey(b[1..], key, j);
      }
      StableSortIsUnique(a[1..], b[1..], key);
      assert a == [a[0]] + a[1..] && b == [b[0]] + b[1..];
    }
  }

  // ---------- grouping by key ----------

  /** Adds `x` behind the group with its key, or as a new group before the first with a lower key. */
  function AddToGroups<T>(groups: seq<seq<T>>, x: T, key: T -> int): (r: seq<seq<T>>)
    requires forall i :: 0 <= i < |groups| ==> groups[i] != []
    ensures forall i :: 0 <= i < |r| ==> r[i] != []
    ensures r != [] && r[0][0] == if groups == [] || key(groups[0][0]) < key(x) then x else groups[0][0]
  {
    if groups == [] then [[x]]
    else if key(groups[0][0]) == key(x) then [groups[0] + [x]] + groups[1..]
    else if key(groups[0][0]) < key(x) then [[x]] + groups
    else [groups[0]] + AddToGroups(groups[1..], x, key)
  }

  function Flatten<T>(groups: seq<seq<T>>): seq<T> {
    if groups == [] then [] else groups[0] + Flatten(groups[1..])
  }

  /** One key per group, in descending order. */
  ghost predicate Grouped<T>(groups: seq<seq<T>>, key: T -> int) {
    && (forall i :: 0 <= i < |groups| ==> groups[i] != [])
    && (forall i, j :: 0 <= i < |groups| && 0 <= j < |groups[i]| ==> key(groups[i][j]) == key(groups[i][0]))
    && (forall i :: 0 < i < |groups| ==> key(groups[i - 1][0]) > key(groups[i][0]))
  }

  function Build<T>(s: seq<T>, key: T -> int): (r: seq<seq<T>>)
    ensures forall i :: 0 <= i < |r| ==> r[i] != []
  {
    if s == [] then [] else AddToGroups(Build(s[..|s| - 1], key), s[|s| - 1], key)
  }

  lemma BuildStep<T>(s: seq<T>, x: T, key: T -> int)
    ensures Build(s + [x], key) == AddToGroups(Build(s, key), x, key)
  {
    assert (s + [x])[..|s|] == s;
  }

  lemma {:induction false} InsertSkips<T>(a: seq<T>, b: seq<T>, x: T, key: T -> int)
    requires forall i :: 0 <= i < |a| ==> key(a[i]) >= key(x)
    ensures Insert(a + b, x, key) == a + Insert(b, x, key)
  {
    if a == [] {
      assert a + b == b;
    } else {
      assert (a + b)[1..] == a[1..] + b;
      InsertSkips(a[1..], b, x, key);
    }
  }

  lemma TailIsGrouped<T>(groups: seq<seq<T>>, key: T -> int)
    requires Grouped(groups, key) && groups != []
    ensures Grouped(groups[1..], key)
  {
    var rest := groups[1..];
    forall i | 0 < i < |rest| ensures key(rest[i - 1][0]) > key(rest[i][0]) {
      assert rest[i - 1] == groups[i] && rest[i] == groups[i + 1];
    }
  }

  lemma ConsIsGrouped<T>(g: seq<T>, rest: seq<seq<T>>, key: T -> int)
    requires Grouped(rest, key) && g != []
    requires forall j :: 0 <= j < |g| ==> key(g[j]) == key(g[0])
    requires rest != [] ==> key(g[0]) > key(rest[0][0])
    ensures Grouped([g] + rest, key)
  {
    var r := [g] + rest;
    forall i | 0 < i < |r| ensures key(r[i - 1][0]) > key(r[i][0]) {
      assert r[i] == rest[i - 1] && (i > 1 ==> r[i - 1] == rest[i - 2]);
    }
  }

  lemma {:induction false} AddKeepsGrouped<T>(groups: seq<seq<T>>, x: T, key: T -> int)
    requires Grouped(groups, key)
    ensures Grouped(AddToGroups(groups, x, key), key)
  {
    if groups != [] {
      var g, rest := groups[0], groups[1..];
      TailIsGrouped(groups, key);
      assert rest != [] ==> key(g[0]) > key(rest[0][0]);
      if key(g[0]) == key(x) {
        ConsIsGrouped(g + [x], rest, key);
      } else if key(g[0]) < key(x) {
        ConsIsGrouped([x], groups, key);
      } else {
        AddKeepsGrouped(rest, x, key);
        ConsIsGrouped(g, AddToGroups(rest, x, key), key);
      }
    }
  }

  lemma {:induction false} AddIsInsert<T>(groups: seq<seq<T>>, x: T, key: T -> int)
    requires Grouped(groups, key)
    ensures Flatten(AddToGroups(groups, x, key)) == Insert(Flatten(groups), x, key)
  {
    if groups != [] {
      var g, rest := groups[0], groups[1..];
      TailIsGrouped(groups, key);
      if key(g[0]) == key(x) {
        InsertSkips(g, Flatten(rest), x, key);
        assert rest != [] ==> key(rest[0][0]) < key(x);
        assert Insert(Flatten(rest), x, key) == [x] + Flatten(rest);
        assert ([g + [x]] + rest)[1..] == rest;
        assert (g + [x]) + Flatten(rest) == g + ([x] + Flatten(rest));
      } else if key(g[0]) < key(x) {
        assert ([[x]] + groups)[1..] == groups;
      } else {
        AddIsInsert(rest, x, key);
        InsertSkips(g, Flatten(rest), x, key);
        assert ([g] + AddToGroups(rest, x, key))[1..] == AddToGroups(rest, x, key);
      }
    }
  }

  /** Reading the groups one after another gives the stable sort. */
  lemma {:induction false} BuildIsSort<T>(s: seq<T>, key: T -> int)
    ensures Grouped(Build(s, key), key) && Flatten(Build(s, key)) == Sort(s, key)
  {
    if s != [] {
      BuildIsSort(s[..|s| - 1], key);
      AddKeepsGrouped(Build(s[..|s| - 1], key), s[|s| - 1], key);
      AddIsInsert(Build(s[..|s| - 1], key), s[|s| - 1], key);
    }
  }

  /** Adding to an existing group. */
  lemma {:induction false} AddToFound<T>(groups: seq<seq<T>>, x: T, key: T -> int, i: nat)
    requires Grouped(groups, key) && i < |groups| && key(groups[i][0]) == key(x)
    ensures AddToGroups(groups, x, key) == groups[i := groups[i] + [x]]
  {
    TailIsGrouped(groups, key);
    if i > 0 {
      HeadIsAbove(groups, key, i);
      AddToFound(groups[1..], x, key, i - 1);
      assert groups == [groups[0]] + groups[1..];
    }
  }

  lemma {:induction false} HeadIsAbove<T>(groups: seq<seq<T>>, key: T -> int, i: nat)
    requires Grouped(groups, key) && 0 < i < |groups|
    ensures key(groups[0][0]) > key(groups[i][0])
  {
    if i > 1 { HeadIsAbove(groups, key, i - 1); }
  }

  /** Adding a new group in the gap before position `i`. */
  lemma {:induction false} AddInGap<T>(groups: seq<seq<T>>, x: T, key: T -> int, i: nat)
    requires Grouped(groups, key) && i <= |groups|
    requires forall j :: 0 <= j < i ==> key(groups[j][0]) > key(x)
    requires i < |groups| ==> key(groups[i][0]) < key(x)
    ensures AddToGroups(groups, x, key) == groups[..i] + [[x]] + groups[i..]
  {
    if i > 0 {
      TailIsGrouped(groups, key);
      AddInGap(groups[1..], x, key, i - 1);
      assert groups == [groups[0]] + groups[1..];
    }
  }
}
