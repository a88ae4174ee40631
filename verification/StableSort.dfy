/** Sequence theory behind the natural merge sort of lib/kernel/list.c:
    runs, merging, merge passes, and what it means to be a stable sort.
    A comparison is only trusted on the elements it is applied to. */
module StableSort {
  import opened Common

  /** LESS is a strict weak order on the elements of S. */
  ghost predicate StrictWeakOrder<T>(less: (T, T) -> bool, s: seq<T>) {
    && (forall x | x in s :: !less(x, x))
    && (forall x, y, z | x in s && y in s && z in s && less(x, y) && less(y, z) :: less(x, z))
    && (forall x, y, z | x in s && y in s && z in s && Ties(less, x, y) && Ties(less, y, z) :: Ties(less, x, z))
  }

  predicate Ties<T>(less: (T, T) -> bool, x: T, y: T) {
    !less(x, y) && !less(y, x)
  }

  /** The adjacent-pairs test that is_sorted performs. */
  ghost predicate Sorted<T>(less: (T, T) -> bool, s: seq<T>) {
    forall i | 1 <= i < |s| :: !less(s[i], s[i - 1])
  }

  ghost predicate Precedes<T>(s: seq<T>, x: T, y: T) {
    exists i, j :: 0 <= i < j < |s| && s[i] == x && s[j] == y
  }

  /** T is a rearrangement of S that never swaps a pair already in order. */
  ghost predicate StablyRearranged<T>(less: (T, T) -> bool, s: seq<T>, t: seq<T>) {
    && multiset(s) == multiset(t)
    && forall x, y | x in s && y in s && Precedes(s, x, y) && !less(y, x) :: Precedes(t, x, y)
  }

  /** T is the stable sort of S. */
  ghost predicate IsStableSortOf<T>(less: (T, T) -> bool, s: seq<T>, t: seq<T>) {
    Sorted(less, t) && StablyRearranged(less, s, t)
  }

  // ---- consequences of a strict weak order ----

  lemma NotLessTransitive<T>(less: (T, T) -> bool, s: seq<T>, x: T, y: T, z: T)
    requires StrictWeakOrder(less, s) && x in s && y in s && z in s
    requires !less(y, x) && !less(z, y)
    ensures !less(z, x)
  {
    assert less(z, x) && less(x, y) ==> less(z, y);
    assert less(y, z) && less(z, x) ==> less(y, x);
    assert Ties(less, x, y) && Ties(less, y, z) ==> Ties(less, x, z);
  }

  /** Adjacent order is global order. */
  lemma {:induction false} SortedPairs<T>(less: (T, T) -> bool, s: seq<T>, i: nat, j: nat)
    requires StrictWeakOrder(less, s) && Sorted(less, s)
    requires i < j < |s|
    ensures !less(s[j], s[i])
    decreases j - i
  {
    if i + 1 < j {
      SortedPairs(less, s, i, j - 1);
      NotLessTransitive(less, s, s[i], s[j - 1], s[j]);
    }
  }

  lemma SubOrder<T>(less: (T, T) -> bool, s: seq<T>, t: seq<T>)
    requires StrictWeakOrder(less, s)
    requires forall x | x in t :: x in s
    ensures StrictWeakOrder(less, t)
  {
  }

  // ---- stable sorts are unique ----

  lemma MultisetMember<T>(s: seq<T>, t: seq<T>, x: T)
    requires multiset(s) == multiset(t)
    ensures x in s <==> x in t
  {
    assert x in multiset(s) <==> x in s;
    assert x in multiset(t) <==> x in t;
  }

  /** In a stable sort, where two elements stand is decided by LESS first and
      by their original order second. */
  lemma StableSortOrder<T>(less: (T, T) -> bool, s: seq<T>, t: seq<T>, x: T, y: T)
    requires StrictWeakOrder(less, s) && Distinct(s) && Distinct(t) && IsStableSortOf(less, s, t)
    requires x in s && y in s && x != y
    ensures Precedes(t, x, y) <==> less(x, y) || (!less(y, x) && Precedes(s, x, y))
  {
    forall z | z in t ensures z in s { MultisetMember(s, t, z); }
    SubOrder(less, s, t);
    MultisetMember(s, t, x);
    MultisetMember(s, t, y);
    var i :| 0 <= i < |t| && t[i] == x;
    var j :| 0 <= j < |t| && t[j] == y;
    var a :| 0 <= a < |s| && s[a] == x;
    var b :| 0 <= b < |s| && s[b] == y;
    if i < j { SortedPairs(less, t, i, j); } else { SortedPairs(less, t, j, i); }
    assert less(x, y) ==> !less(y, x) by {
      assert less(x, y) && less(y, x) ==> less(x, x);
    }
    assert Precedes(t, x, y) <==> i < j;
    assert Precedes(s, x, y) <==> a < b;
    assert Precedes(s, y, x) <==> b < a;
  }

  /** T and U order every pair of T's elements alike. */
  ghost predicate SameOrder<T>(t: seq<T>, u: seq<T>) {
    forall x, y | x in t && y in t && x != y :: Precedes(t, x, y) <==> Precedes(u, x, y)
  }

  lemma SameOrderSameFirst<T>(t: seq<T>, u: seq<T>)
    requires t != [] && Distinct(u) && multiset(t) == multiset(u) && SameOrder(t, u)
    ensures u != [] && t[0] == u[0]
  {
    MultisetMember(t, u, t[0]);
    MultisetMember(t, u, u[0]);
    var j :| 0 <= j < |t| && t[j] == u[0];
    assert j > 0 ==> Precedes(t, t[0], u[0]);
    assert !Precedes(u, t[0], u[0]);
  }

  lemma SameOrderTail<T>(x: T, t: seq<T>, u: seq<T>)
    requires Distinct([x] + t) && Distinct([x] + u) && SameOrder([x] + t, [x] + u)
    ensures Distinct(t) && Distinct(u) && SameOrder(t, u)
  {
    assert ([x] + t)[0] == x;
    forall i | 0 <= i < |t| ensures t[i] == ([x] + t)[i + 1] && t[i] != x {}
    forall i | 0 <= i < |u| ensures u[i] == ([x] + u)[i + 1] {}
    forall y, z | y in t && z in t && y != z
      ensures Precedes(t, y, z) <==> Precedes(u, y, z)
    {
      PrecedesConcat([x], t, y, z);
      PrecedesConcat([x], u, y, z);
      assert y in [x] + t && z in [x] + t;
    }
  }

  lemma TailsAlike<T>(x: T, t: seq<T>, u: seq<T>)
    requires multiset([x] + t) == multiset([x] + u)
    ensures multiset(t) == multiset(u)
  {
    assert multiset(t) == multiset([x] + t) - multiset{x};
    assert multiset(u) == multiset([x] + u) - multiset{x};
  }

  lemma {:induction false} SameOrderSameSeq<T>(t: seq<T>, u: seq<T>)
    requires Distinct(t) && Distinct(u) && multiset(t) == multiset(u) && SameOrder(t, u)
    ensures t == u
  {
    hide SameOrder, Distinct;
    if t == [] {
      assert |multiset(u)| == |u|;
    } else {
      SameOrderSameFirst(t, u);
      var x, t', u' := t[0], t[1..], u[1..];
      assert t == [x] + t' && u == [x] + u';
      TailsAlike(x, t', u');
      SameOrderTail(x, t', u');
      SameOrderSameSeq(t', u');
    }
  }

  /** Distinct elements have exactly one stable sort, so IsStableSortOf
      determines the result completely. */
  lemma StableSortUnique<T>(less: (T, T) -> bool, s: seq<T>, t: seq<T>, u: seq<T>)
    requires StrictWeakOrder(less, s)
    requires Distinct(s) && Distinct(t) && Distinct(u)
    requires IsStableSortOf(less, s, t) && IsStableSortOf(less, s, u)
    ensures t == u
  {
    forall x, y | x in t && y in t && x != y
      ensures Precedes(t, x, y) <==> Precedes(u, x, y)
    {
      MultisetMember(s, t, x);
      MultisetMember(s, t, y);
      StableSortOrder(less, s, t, x, y);
      StableSortOrder(less, s, u, x, y);
    }
    SameOrderSameSeq(t, u);
  }

  // ---- rearrangements compose ----

  lemma RearrangedReflexive<T>(less: (T, T) -> bool, s: seq<T>)
    ensures StablyRearranged(less, s, s)
  {
  }

  lemma RearrangedTransitive<T>(less: (T, T) -> bool, s: seq<T>, t: seq<T>, u: seq<T>)
    requires StablyRearranged(less, s, t) && StablyRearranged(less, t, u)
    ensures StablyRearranged(less, s, u)
  {
    forall x, y | x in s && y in s && Precedes(s, x, y) && !less(y, x)
      ensures Precedes(u, x, y)
    {
      MultisetMember(s, t, x);
      MultisetMember(s, t, y);
    }
  }

  /** How a pair can be ordered inside a concatenation. */
  lemma PrecedesConcat<T>(a: seq<T>, b: seq<T>, x: T, y: T)
    ensures Precedes(a + b, x, y) <==> Precedes(a, x, y) || Precedes(b, x, y) || (x in a && y in b)
  {
    var s := a + b;
    if Precedes(s, x, y) {
      var i, j :| 0 <= i < j < |s| && s[i] == x && s[j] == y;
      if j < |a| {
        assert a[i] == x && a[j] == y;
      } else if i >= |a| {
        assert b[i - |a|] == x && b[j - |a|] == y;
      } else {
        assert a[i] == x && b[j - |a|] == y;
      }
    }
    if Precedes(a, x, y) {
      var i, j :| 0 <= i < j < |a| && a[i] == x && a[j] == y;
      assert s[i] == x && s[j] == y;
    }
    if Precedes(b, x, y) {
      var i, j :| 0 <= i < j < |b| && b[i] == x && b[j] == y;
      assert s[i + |a|] == x && s[j + |a|] == y;
    }
    if x in a && y in b {
      var i :| 0 <= i < |a| && a[i] == x;
      var j :| 0 <= j < |b| && b[j] == y;
      assert s[i] == x && s[j + |a|] == y;
    }
  }

  /** Rearranging the parts of a concatenation rearranges the whole. */
  lemma RearrangedConcat<T>(less: (T, T) -> bool, a: seq<T>, a': seq<T>, b: seq<T>, b': seq<T>)
    requires StablyRearranged(less, a, a') && StablyRearranged(less, b, b')
    ensures StablyRearranged(less, a + b, a' + b')
  {
    forall x, y | x in a + b && y in a + b && Precedes(a + b, x, y) && !less(y, x)
      ensures Precedes(a' + b', x, y)
    {
      PrecedesConcat(a, b, x, y);
      PrecedesConcat(a', b', x, y);
      MultisetMember(a, a', x);
      MultisetMember(b, b', y);
      if Precedes(a, x, y) {
        assert x in a && y in a;
      } else if Precedes(b, x, y) {
        assert x in b && y in b;
      }
    }
  }

  // ---- merging ----

  /** The order in which inplace_merge emits two runs: the left run wins ties. */
  ghost function Merge<T>(less: (T, T) -> bool, a: seq<T>, b: seq<T>): seq<T> {
    if a == [] then b
    else if b == [] then a
    else if !less(b[0], a[0]) then [a[0]] + Merge(less, a[1..], b)
    else [b[0]] + Merge(less, a, b[1..])
  }

  /** Merging two sorted runs is a stable sort of their concatenation. */
  lemma {:induction false} MergeStable<T>(less: (T, T) -> bool, a: seq<T>, b: seq<T>)
    requires StrictWeakOrder(less, a + b) && Sorted(less, a) && Sorted(less, b)
    ensures IsStableSortOf(less, a + b, Merge(less, a, b))
    decreases |a| + |b|
  {
    if a == [] {
      assert a + b == b;
    } else if b == [] {
      assert a + b == a;
    } else if !less(b[0], a[0]) {
      MergeStepLeft(less, a, b);
    } else {
      MergeStepRight(less, a, b);
    }
  }

  lemma MergeFirst<T>(less: (T, T) -> bool, a: seq<T>, b: seq<T>)
    ensures var r := Merge(less, a, b); r != [] ==> (a != [] && r[0] == a[0]) || (b != [] && r[0] == b[0])
  {
  }

  lemma SortedSplit<T>(less: (T, T) -> bool, s: seq<T>)
    requires Sorted(less, s) && s != []
    ensures Sorted(less, s[1..]) && (|s| > 1 ==> !less(s[1], s[0]))
  {
  }

  lemma SortedFrom<T>(less: (T, T) -> bool, x: T, s: seq<T>)
    requires Sorted(less, s) && (s != [] ==> !less(s[0], x))
    ensures Sorted(less, [x] + s)
  {
  }

  lemma Asymmetric<T>(less: (T, T) -> bool, s: seq<T>, x: T, y: T)
    requires StrictWeakOrder(less, s) && x in s && y in s && less(x, y)
    ensures !less(y, x)
  {
  }

  lemma {:induction false} MergeStepLeft<T>(less: (T, T) -> bool, a: seq<T>, b: seq<T>)
    requires StrictWeakOrder(less, a + b) && Sorted(less, a) && Sorted(less, b)
    requires a != [] && b != [] && !less(b[0], a[0])
    ensures IsStableSortOf(less, a + b, Merge(less, a, b))
    decreases |a| + |b|, 0
  {
    hide StrictWeakOrder, Sorted, StablyRearranged;
    var rest := Merge(less, a[1..], b);
    SortedSplit(less, a);
    SubOrder(less, a + b, a[1..] + b);
    MergeStable(less, a[1..], b);
    MergeFirst(less, a[1..], b);
    SortedFrom(less, a[0], rest);
    assert a + b == [a[0]] + (a[1..] + b);
    RearrangedReflexive(less, [a[0]]);
    RearrangedConcat(less, [a[0]], [a[0]], a[1..] + b, rest);
  }

  lemma {:induction false} MergeStepRight<T>(less: (T, T) -> bool, a: seq<T>, b: seq<T>)
    requires StrictWeakOrder(less, a + b) && Sorted(less, a) && Sorted(less, b)
    requires a != [] && b != [] && less(b[0], a[0])
    ensures IsStableSortOf(less, a + b, Merge(less, a, b))
    decreases |a| + |b|, 0
  {
    hide StrictWeakOrder, Sorted, StablyRearranged;
    var rest := Merge(less, a, b[1..]);
    SortedSplit(less, b);
    SubOrder(less, a + b, a + b[1..]);
    MergeStable(less, a, b[1..]);
    MergeFirst(less, a, b[1..]);
    assert b[0] in a + b && a[0] in a + b;
    Asymmetric(less, a + b, b[0], a[0]);
    SortedFrom(less, b[0], rest);
    assert b == [b[0]] + b[1..];
    BringForward(less, a, b);
    RearrangedReflexive(less, [b[0]]);
    RearrangedConcat(less, [b[0]], [b[0]], a + b[1..], rest);
    RearrangedTransitive(less, a + b, [b[0]] + (a + b[1..]), [b[0]] + rest);
  }

  /** Moving the head of B over a sorted A whose head it undercuts never
      swaps a pair that was already in order. */
  lemma BringForward<T>(less: (T, T) -> bool, a: seq<T>, b: seq<T>)
    requires StrictWeakOrder(less, a + b) && Sorted(less, a)
    requires a != [] && b != [] && less(b[0], a[0])
    ensures StablyRearranged(less, a + b, [b[0]] + (a + b[1..]))
  {
    var s, t := a + b, [b[0]] + (a + b[1..]);
    assert b == [b[0]] + b[1..];
    assert s == (a + [b[0]]) + b[1..];
    forall i | 0 <= i < |a| ensures less(b[0], a[i]) {
      SubOrder(less, s, a);
      if i > 0 {
        SortedPairs(less, a, 0, i);
        assert a[0] in s && a[i] in s && b[0] in s;
        if !less(b[0], a[i]) { NotLessTransitive(less, s, a[0], a[i], b[0]); }
      }
    }
    forall x, y | x in s && y in s && Precedes(s, x, y) && !less(y, x)
      ensures Precedes(t, x, y)
    {
      PrecedesConcat(a + [b[0]], b[1..], x, y);
      PrecedesConcat(a, [b[0]], x, y);
      PrecedesConcat([b[0]], a + b[1..], x, y);
      PrecedesConcat(a, b[1..], x, y);
    }
  }

  // ---- runs ----

  ghost function Descents<T>(less: (T, T) -> bool, s: seq<T>): nat {
    if |s| <= 1 then 0 else (if less(s[1], s[0]) then 1 else 0) + Descents(less, s[1..])
  }

  /** Number of maximal nondecreasing runs. */
  ghost function Runs<T>(less: (T, T) -> bool, s: seq<T>): nat {
    if s == [] then 0 else 1 + Descents(less, s)
  }

  lemma {:induction false} DescentsConcat<T>(less: (T, T) -> bool, a: seq<T>, b: seq<T>)
    requires a != [] && b != []
    ensures Descents(less, a + b)
         == Descents(less, a) + Descents(less, b) + (if less(b[0], a[|a| - 1]) then 1 else 0)
  {
    if |a| == 1 {
      assert (a + b)[1..] == b;
    } else {
      assert (a + b)[1..] == a[1..] + b;
      DescentsConcat(less, a[1..], b);
    }
  }

  /** A list is sorted exactly when it has at most one run. */
  lemma {:induction false} SortedIffOneRun<T>(less: (T, T) -> bool, s: seq<T>)
    ensures Sorted(less, s) <==> Runs(less, s) <= 1
  {
    if |s| > 1 {
      SortedIffOneRun(less, s[1..]);
      if Sorted(less, s[1..]) && !less(s[1], s[0]) {
        forall i | 1 <= i < |s| ensures !less(s[i], s[i - 1]) {
          if i > 1 { assert s[1..][i - 1] == s[i] && s[1..][i - 2] == s[i - 1]; }
        }
      }
      if Sorted(less, s) {
        forall i | 1 <= i < |s[1..]| ensures !less(s[1..][i], s[1..][i - 1]) {
          assert s[1..][i] == s[i + 1] && s[1..][i - 1] == s[i];
        }
      }
    }
  }

  /** Cutting off a maximal run lowers the run count by exactly one. */
  lemma RunCutOff<T>(less: (T, T) -> bool, a: seq<T>, z: seq<T>)
    requires a != [] && Sorted(less, a) && (z != [] ==> less(z[0], a[|a| - 1]))
    ensures Runs(less, a + z) == 1 + Runs(less, z)
  {
    SortedIffOneRun(less, a);
    if z == [] { assert a + z == a; } else { DescentsConcat(less, a, z); }
  }

  /** Appending a sorted block adds at most one run. */
  lemma RunAppended<T>(less: (T, T) -> bool, s: seq<T>, a: seq<T>)
    requires Sorted(less, a)
    ensures Runs(less, s + a) <= Runs(less, s) + 1
  {
    SortedIffOneRun(less, a);
    if s == [] { assert s + a == a; }
    else if a == [] { assert s + a == s; }
    else { DescentsConcat(less, s, a); }
  }
}
