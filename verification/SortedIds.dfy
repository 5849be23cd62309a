/** Sorting and removing adjacent duplicates, as lists of ids are compared. */
module SortedIds {
  /** Lexicographic order of strings by scalar value, which is also their UTF-8 byte order. */
  predicate Le(a: string, b: string) {
    a == [] || (b != [] && (a[0] < b[0] || (a[0] == b[0] && Le(a[1..], b[1..]))))
  }

  lemma {:induction false} LeTotal(a: string, b: string)
    ensures Le(a, b) || Le(b, a)
    ensures Le(a, b) && Le(b, a) ==> a == b
  {
    if a != [] && b != [] {
      LeTotal(a[1..], b[1..]);
      assert a == [a[0]] + a[1..] && b == [b[0]] + b[1..];
    }
  }

  lemma {:induction false} LeTransitive(a: string, b: string, c: string)
    requires Le(a, b) && Le(b, c)
    ensures Le(a, c)
  {
    if a != [] && a[0] == b[0] == c[0] {
      LeTransitive(a[1..], b[1..], c[1..]);
    }
  }

  predicate Sorted(s: seq<string>) {
    forall i, j :: 0 <= i < j < |s| ==> Le(s[i], s[j])
  }

  predicate Distinct<T(==)>(s: seq<T>) {
    forall i, j :: 0 <= i < j < |s| ==> s[i] != s[j]
  }

  predicate SameMembers<T(==)>(a: seq<T>, b: seq<T>) {
    (forall x <- a :: x in b) && (forall x <- b :: x in a)
  }

  lemma BeforeIsLess(s: seq<string>, x: string, i: nat)
    requires Sorted(s) && i <= |s| && (i > 0 ==> Le(s[i - 1], x))
    ensures forall k :: 0 <= k < i ==> Le(s[k], x)
  {
    forall k | 0 <= k < i
      ensures Le(s[k], x)
    {
      if k < i - 1 {
        LeTransitive(s[k], s[i - 1], x);
      }
    }
  }

  lemma StaysSorted(s: seq<string>, x: string, i: nat)
    requires Sorted(s) && i <= |s|
    requires forall k :: 0 <= k < i ==> Le(s[k], x)
    requires forall k :: i <= k < |s| ==> Le(x, s[k])
    ensures Sorted(s[..i] + [x] + s[i..])
  {
    var r := s[..i] + [x] + s[i..];
    forall j, k | 0 <= j < k < |r|
      ensures Le(r[j], r[k])
    {
      assert r[j] == if j < i then s[j] else if j == i then x else s[j - 1];
      assert r[k] == if k < i then s[k] else if k == i then x else s[k - 1];
    }
  }

  /** Where a new element belongs in a sorted list. */
  method Insert(s: seq<string>, x: string) returns (r: seq<string>)
    requires Sorted(s)
    ensures Sorted(r) && multiset(r) == multiset(s) + multiset{x}
  {
    var i := |s|;
    LeTotal(x, x);
    while i > 0 && !Le(s[i - 1], x)
      invariant 0 <= i <= |s|
      invariant forall k :: i <= k < |s| ==> Le(x, s[k])
    {
      i := i - 1;
      LeTotal(x, s[i]);
    }
    BeforeIsLess(s, x, i);
    StaysSorted(s, x, i);
    r := s[..i] + [x] + s[i..];
    assert s == s[..i] + s[i..];
  }

  method Sort(s: seq<string>) returns (r: seq<string>)
    ensures Sorted(r) && multiset(r) == multiset(s)
  {
    r := [];
    for i := 0 to |s|
      invariant Sorted(r) && multiset(r) == multiset(s[..i])
    {
      assert s[..i + 1] == s[..i] + [s[i]];
      r := Insert(r, s[i]);
    }
    assert s[..|s|] == s;
  }

  /** Adjacent equal elements collapse into one. */
  function Deduped(s: seq<string>): seq<string> {
    if |s| <= 1 then s
    else if s[|s| - 2] == s[|s| - 1] then Deduped(s[..|s| - 1])
    else Deduped(s[..|s| - 1]) + [s[|s| - 1]]
  }

  method Dedup(s: seq<string>) returns (r: seq<string>)
    ensures r == Deduped(s)
  {
    r := [];
    for i := 0 to |s|
      invariant r == Deduped(s[..i])
      invariant i > 0 ==> r != [] && r[|r| - 1] == s[i - 1]
    {
      assert s[..i + 1][..i] == s[..i];
      if i == 0 || s[i - 1] != s[i] {
        r := r + [s[i]];
      }
    }
    assert s[..|s|] == s;
  }

  /** `d` lists the members of the sorted list `s`, each once and in order. */
  predicate Lists(d: seq<string>, s: seq<string>) {
    && Sorted(d) && Distinct(d) && SameMembers(d, s)
    && |d| <= |s| && (|d| == |s| <==> Distinct(s))
  }

  /** Removing adjacent duplicates of a sorted list leaves each member once, still sorted. */
  lemma {:induction false} DedupedSorted(s: seq<string>)
    requires Sorted(s)
    ensures Lists(Deduped(s), s)
  {
    if |s| > 1 {
      var front, last := s[..|s| - 1], s[|s| - 1];
      DedupedSorted(front);
      assert s == front + [last];
      if s[|s| - 2] != last {
        ListsOneMore(Deduped(front), front, last);
      } else {
        ListsRepeated(Deduped(front), front);
      }
    }
  }

  lemma ListsOneMore(d: seq<string>, front: seq<string>, last: string)
    requires Lists(d, front) && Sorted(front) && Sorted(front + [last]) && front != [] && front[|front| - 1] != last
    ensures Lists(d + [last], front + [last])
  {
    LastIsNew(front, last);
    AppendGreatest(d, last);
    AppendSame(d, front, last);
  }

  lemma ListsRepeated(d: seq<string>, front: seq<string>)
    requires Lists(d, front) && front != []
    ensures Lists(d, front + [front[|front| - 1]])
  {
    RepeatLast(d, front);
  }

  /** A last element different from the one before it is greater than all others. */
  lemma LastIsNew(front: seq<string>, last: string)
    requires Sorted(front) && Sorted(front + [last]) && front != [] && front[|front| - 1] != last
    ensures forall x <- front :: Le(x, last) && x != last
  {
    var s := front + [last];
    forall x | x in front
      ensures Le(x, last) && x != last
    {
      var m :| 0 <= m < |front| && front[m] == x;
      assert s[m] == x && s[|front|] == last && s[|front| - 1] == front[|front| - 1];
      LastIsGreatest(front, x);
      LeTotal(front[|front| - 1], last);
    }
  }

  lemma AppendSame(d: seq<string>, front: seq<string>, last: string)
    requires SameMembers(d, front) && last !in front
    ensures SameMembers(d + [last], front + [last])
    ensures Distinct(front + [last]) <==> Distinct(front)
  {
    assert forall k :: 0 <= k < |front| ==> (front + [last])[k] == front[k] && front[k] in front;
  }

  lemma RepeatLast(d: seq<string>, front: seq<string>)
    requires SameMembers(d, front) && front != []
    ensures SameMembers(d, front + [front[|front| - 1]]) && !Distinct(front + [front[|front| - 1]])
  {
    var s := front + [front[|front| - 1]];
    assert s[|front| - 1] == s[|front|];
  }

  lemma AppendGreatest(d: seq<string>, last: string)
    requires Sorted(d) && Distinct(d) && forall x <- d :: Le(x, last) && x != last
    ensures Sorted(d + [last]) && Distinct(d + [last])
  {
    assert forall k :: 0 <= k < |d| ==> d[k] in d;
  }

  lemma SameFronts(a: seq<string>, b: seq<string>, last: string)
    requires Distinct(a + [last]) && Distinct(b + [last]) && SameMembers(a + [last], b + [last])
    ensures SameMembers(a, b)
  {
    AppendedIsNew(a, last);
    AppendedIsNew(b, last);
    forall e | e in a
      ensures e in b
    {
      assert e in a + [last] && e in b + [last];
    }
    forall e | e in b
      ensures e in a
    {
      assert e in b + [last] && e in a + [last];
    }
  }

  lemma AppendedIsNew(a: seq<string>, last: string)
    requires Distinct(a + [last])
    ensures last !in a
  {
    assert forall k :: 0 <= k < |a| ==> (a + [last])[k] == a[k] && (a + [last])[|a|] == last;
  }

  /** Two sorted duplicate-free lists with the same members are equal. */
  lemma {:induction false} SortedDistinctUnique(a: seq<string>, b: seq<string>)
    requires Sorted(a) && Sorted(b) && Distinct(a) && Distinct(b) && SameMembers(a, b)
    ensures a == b
  {
    assert |a| > 0 ==> a[0] in a;
    assert |b| > 0 ==> b[0] in b;
    if a != [] && b != [] {
      var x, y := a[|a| - 1], b[|b| - 1];
      assert x in b && y in a;
      LeTotal(x, y);
      LeTotal(x, x);
      LeTotal(y, y);
      var a', b' := a[..|a| - 1], b[..|b| - 1];
      assert a == a' + [x] && b == b' + [y];
      assert x == y;
      SameFronts(a', b', x);
      SortedDistinctUnique(a', b');
    }
  }

  /** Two sorted lists with the same elements, counted, are equal. */
  lemma {:induction false} SortedUnique(a: seq<string>, b: seq<string>)
    requires Sorted(a) && Sorted(b) && multiset(a) == multiset(b)
    ensures a == b
  {
    assert |a| == |multiset(a)| == |multiset(b)| == |b|;
    if a != [] {
      FrontsAgree(a, b);
      SortedUnique(a[..|a| - 1], b[..|b| - 1]);
      assert a == a[..|a| - 1] + [a[|a| - 1]] && b == b[..|b| - 1] + [b[|b| - 1]];
    }
  }

  lemma FrontsAgree(a: seq<string>, b: seq<string>)
    requires Sorted(a) && Sorted(b) && multiset(a) == multiset(b) && a != [] && b != []
    ensures a[|a| - 1] == b[|b| - 1] && multiset(a[..|a| - 1]) == multiset(b[..|b| - 1])
  {
    LastsAgree(a, b);
    DropLast(a);
    DropLast(b);
  }

  lemma LastsAgree(a: seq<string>, b: seq<string>)
    requires Sorted(a) && Sorted(b) && multiset(a) == multiset(b) && a != [] && b != []
    ensures a[|a| - 1] == b[|b| - 1]
  {
    var x, y := a[|a| - 1], b[|b| - 1];
    assert x in multiset(a) && y in multiset(b);
    LastIsGreatest(a, y);
    LastIsGreatest(b, x);
    LeTotal(x, y);
  }

  lemma DropLast(s: seq<string>)
    requires s != []
    ensures multiset(s[..|s| - 1]) == multiset(s) - multiset{s[|s| - 1]}
    ensures s[|s| - 1] in multiset(s)
  {
    assert s == s[..|s| - 1] + [s[|s| - 1]];
  }

  lemma LastIsGreatest(s: seq<string>, x: string)
    requires Sorted(s) && x in s
    ensures Le(x, s[|s| - 1])
  {
    LeTotal(x, x);
  }

  lemma MembersOfMultiset(a: seq<string>, b: seq<string>)
    requires multiset(a) == multiset(b)
    ensures SameMembers(a, b) && |a| == |b|
    ensures Distinct(a) ==> Distinct(b)
  {
    assert |a| == |multiset(a)| == |multiset(b)| == |b|;
    forall x | x in a ensures x in b { assert x in multiset(b); }
    forall x | x in b ensures x in a { assert x in multiset(a); }
    if Distinct(a) {
      forall i, j | 0 <= i < j < |b|
        ensures b[i] != b[j]
      {
        DistinctCounts(a, b[i]);
        assert b == b[..j] + [b[j]] + b[j + 1..];
        assert b[i] in multiset(b[..j]) by { assert b[i] in b[..j]; }
      }
    }
  }

  lemma {:induction false} DistinctCounts(a: seq<string>, x: string)
    requires Distinct(a)
    ensures multiset(a)[x] <= 1
  {
    if a != [] {
      DistinctCounts(a[..|a| - 1], x);
      assert a == a[..|a| - 1] + [a[|a| - 1]];
      assert a[|a| - 1] !in a[..|a| - 1];
    }
  }

  /** Sorting and deduplicating both sides compares two lists as sets. */
  method EqualAsSets(want: seq<string>, got: seq<string>) returns (equal: bool)
    ensures equal <==> SameMembers(want, got)
  {
    var w := Sort(want);
    var w' := Dedup(w);
    var g := Sort(got);
    var g' := Dedup(g);
    equal := w' == g';
    MembersOfMultiset(want, w);
    MembersOfMultiset(got, g);
    DedupedSorted(w);
    DedupedSorted(g);
    if SameMembers(want, got) {
      SortedDistinctUnique(w', g');
    }
  }

  /** The list keeps its length through sort and dedup exactly when it has no duplicates. */
  method HasDuplicates(ids: seq<string>) returns (dup: bool)
    ensures dup <==> !Distinct(ids)
  {
    var s := Sort(ids);
    var d := Dedup(s);
    dup := |d| != |ids|;
    MembersOfMultiset(ids, s);
    MembersOfMultiset(s, ids);
    DedupedSorted(s);
  }

  /** Sorting both sides compares two lists as permutations of one another. */
  method ArePermutations(want: seq<string>, got: seq<string>) returns (equal: bool)
    ensures equal <==> multiset(want) == multiset(got)
  {
    var w := Sort(want);
    var g := Sort(got);
    equal := w == g;
    if multiset(want) == multiset(got) {
      SortedUnique(w, g);
    }
  }
}
