/** Intrusive doubly linked lists with head and tail sentinels, lib/kernel/list.c.
    Links are rewritten in place; the ghost field `chain` is the sequence of
    elements, sentinels included, that the links must spell out in both directions. */
module LinkedList {
  import opened Common
  import opened StableSort

  class Elem {
    var prev: Elem?
    var next: Elem?

    constructor ()
      ensures prev == null && next == null
    {
      prev, next := null, null;
    }
  }

  /** The elements of C are linked to each other, forwards and backwards, in order. */
  ghost predicate Linked(c: seq<Elem>)
    reads c
  {
    && (forall i {:trigger c[i].next} | 0 <= i < |c| - 1 :: c[i].next == c[i + 1])
    && (forall i {:trigger c[i].prev} | 0 < i < |c| :: c[i].prev == c[i - 1])
  }

  ghost function Inserted<T>(s: seq<T>, k: nat, x: T): seq<T>
    requires k <= |s|
  {
    seq(|s| + 1, i requires 0 <= i <= |s| => if i < k then s[i] else if i == k then x else s[i - 1])
  }

  ghost function Removed<T>(s: seq<T>, k: nat): seq<T>
    requires k < |s|
  {
    seq(|s| - 1, i requires 0 <= i < |s| - 1 => if i < k then s[i] else s[i + 1])
  }

  /** S with its adjacent blocks [a, b) and [b, d) exchanged. */
  ghost function BlocksSwapped<T>(s: seq<T>, a: nat, b: nat, d: nat): seq<T>
    requires a <= b <= d <= |s|
  {
    seq(|s|, i requires 0 <= i < |s| =>
      if i < a || i >= d then s[i] else if i < a + (d - b) then s[i - a + b] else s[i - (d - b)])
  }

  /** C is linked in order except for the six links at the edges of [a, b) and [b, d),
      which are those that exchanging the two blocks needs. */
  ghost predicate EdgesSwapped(c: seq<Elem>, a: nat, b: nat, d: nat)
    requires 0 < a < b < d < |c|
    reads c
  {
    && (forall i {:trigger c[i].next} | 0 <= i < |c| - 1 :: c[i].next ==
          if i == a - 1 then c[b] else if i == d - 1 then c[a] else if i == b - 1 then c[d] else c[i + 1])
    && (forall i {:trigger c[i].prev} | 0 < i < |c| :: c[i].prev ==
          if i == b then c[a - 1] else if i == a then c[d - 1] else if i == d then c[b - 1] else c[i - 1])
  }

  /** C is linked in order, except that X is between positions k - 1 and k. */
  ghost predicate LinkedAround(c: seq<Elem>, k: nat, x: Elem)
    requires 0 < k < |c|
    reads c, x
  {
    && (forall i {:trigger c[i].next} | 0 <= i < |c| - 1 :: c[i].next == if i == k - 1 then x else c[i + 1])
    && (forall i {:trigger c[i].prev} | 0 < i < |c| :: c[i].prev == if i == k then x else c[i - 1])
    && x.prev == c[k - 1] && x.next == c[k]
  }

  lemma InsertRelinks(c: seq<Elem>, k: nat, x: Elem)
    requires 0 < k < |c| && LinkedAround(c, k, x)
    ensures Linked(Inserted(c, k, x))
  {
    var e := Inserted(c, k, x);
    forall i | 0 <= i < |e| - 1 ensures e[i].next == e[i + 1] {
      assert i != k ==> e[i] == c[if i < k then i else i - 1];
    }
    forall i | 0 < i < |e| ensures e[i].prev == e[i - 1] {
      assert i != k ==> e[i] == c[if i < k then i else i - 1];
    }
  }

  lemma MovedOne<T>(c: seq<T>, x: nat, y: nat, k: nat)
    requires x < y < k < |c|
    ensures var d := BlocksSwapped(c, x, y, y + 1);
            d[x + 1] == c[x] && d[y + 1] == c[y + 1] && d[k] == c[k]
  {
  }

  lemma SwapRelinks(c: seq<Elem>, a: nat, b: nat, d: nat)
    requires 0 < a < b < d < |c| && EdgesSwapped(c, a, b, d)
    ensures Linked(BlocksSwapped(c, a, b, d))
  {
    var e := BlocksSwapped(c, a, b, d);
    forall i | 0 <= i < |e| - 1 ensures e[i].next == e[i + 1] {
      var m := if i < a || i >= d then i else if i < a + (d - b) then i - a + b else i - (d - b);
      assert e[i] == c[m];
    }
    forall i | 0 < i < |e| ensures e[i].prev == e[i - 1] {
      var m := if i < a || i >= d then i else if i < a + (d - b) then i - a + b else i - (d - b);
      assert e[i] == c[m];
    }
  }

  lemma SwapDistinct<T>(c: seq<T>, a: nat, b: nat, d: nat)
    requires a <= b <= d <= |c| && Distinct(c)
    ensures NoRepeats(BlocksSwapped(c, a, b, d))
  {
    NoRepeatsIsDistinct(BlocksSwapped(c, a, b, d));
  }

  /** The chain that inplace_merge's loop leaves behind when it starts with its
      two pointers at x and y and its bound at k. */
  ghost function MergeLoop<T>(less: (T, T) -> bool, c: seq<T>, x: nat, y: nat, k: nat): seq<T>
    requires x <= y <= k <= |c|
    decreases k - x, k - y
  {
    if x == y || y == k then c
    else if !less(c[y], c[x]) then MergeLoop(less, c, x + 1, y, k)
    else MergeLoop(less, BlocksSwapped(c, x, y, y + 1), x + 1, y + 1, k)
  }

  lemma HeadBroughtForward<T>(p: seq<T>, a: seq<T>, b: seq<T>, t: seq<T>)
    requires b != []
    ensures BlocksSwapped(p + a + b + t, |p|, |p + a|, |p + a| + 1) == p + [b[0]] + a + b[1..] + t
  {
  }

  lemma HeadFirst<T>(p: seq<T>, a: seq<T>, b: seq<T>, t: seq<T>)
    requires a != []
    ensures p + a + b + t == (p + [a[0]]) + a[1..] + b + t
    ensures b != [] ==> (p + a + b + t)[|p|] == a[0] && (p + a + b + t)[|p + a|] == b[0]
  {
  }

  lemma Reassociated<T>(p: seq<T>, x: T, m: seq<T>, t: seq<T>)
    ensures p + ([x] + m) + t == (p + [x]) + m + t
  {
  }

  ghost function MergeLoopOf<T>(less: (T, T) -> bool, p: seq<T>, a: seq<T>, b: seq<T>, t: seq<T>): seq<T> {
    MergeLoop(less, p + a + b + t, |p|, |p + a|, |p + a + b|)
  }

  lemma MergeLoopStep<T>(less: (T, T) -> bool, p: seq<T>, a: seq<T>, b: seq<T>, t: seq<T>)
    requires a != [] && b != []
    ensures MergeLoopOf(less, p, a, b, t) ==
            if !less(b[0], a[0]) then MergeLoopOf(less, p + [a[0]], a[1..], b, t)
            else MergeLoopOf(less, p + [b[0]], a, b[1..], t)
  {
    HeadFirst(p, a, b, t);
    HeadBroughtForward(p, a, b, t);
  }

  /** The loop merges its two runs A and B in place, touching neither P nor T, ... */
  lemma {:induction false} MergeLoopMerges<T>(less: (T, T) -> bool, p: seq<T>, a: seq<T>, b: seq<T>, t: seq<T>)
    ensures MergeLoopOf(less, p, a, b, t) == p + Merge(less, a, b) + t
    decreases |a| + |b|
  {
    if a == [] || b == [] {
      assert p + a + b + t == p + Merge(less, a, b) + t;
    } else {
      MergeLoopStep(less, p, a, b, t);
      if !less(b[0], a[0]) {
        MergeLoopMerges(less, p + [a[0]], a[1..], b, t);
        Reassociated(p, a[0], Merge(less, a[1..], b), t);
      } else {
        MergeLoopMerges(less, p + [b[0]], a, b[1..], t);
        Reassociated(p, b[0], Merge(less, a, b[1..]), t);
      }
    }
  }

  /** ... which sorts them stably. */
  lemma MergeLoopSorts<T>(less: (T, T) -> bool, c: seq<T>, i: nat, m: nat, k: nat)
    requires i <= m <= k <= |c|
    requires StrictWeakOrder(less, c[i..k]) && Sorted(less, c[i..m]) && Sorted(less, c[m..k])
    ensures var d := MergeLoop(less, c, i, m, k);
            |d| == |c| && d[..i] == c[..i] && d[k..] == c[k..] && IsStableSortOf(less, c[i..k], d[i..k])
  {
    hide Sorted, StrictWeakOrder, StablyRearranged, MergeLoop, Merge;
    var p, a, b, t := c[..i], c[i..m], c[m..k], c[k..];
    InFour(c, i, m, k);
    MergeLoopMerges(less, p, a, b, t);
    MergeStable(less, a, b);
    SameLength(less, a + b, Merge(less, a, b));
    Middle(p, Merge(less, a, b), t);
  }

  lemma InFour<T>(c: seq<T>, i: nat, m: nat, k: nat)
    requires i <= m <= k <= |c|
    ensures c == c[..i] + c[i..m] + c[m..k] + c[k..] && c[i..k] == c[i..m] + c[m..k]
  {
    assert c[..m] == c[..i] + c[i..m] && c[..k] == c[..m] + c[m..k];
  }

  lemma SameLength<T>(less: (T, T) -> bool, s: seq<T>, t: seq<T>)
    requires StablyRearranged(less, s, t)
    ensures |s| == |t|
  {
    assert |multiset(s)| == |s| && |multiset(t)| == |t|;
  }

  lemma Middle<T>(p: seq<T>, s: seq<T>, t: seq<T>)
    ensures var c := p + s + t;
            c[..|p|] == p && c[|p|..|p| + |s|] == s && c[|p| + |s|..] == t
  {
  }

  lemma RunsEndWithOne<T>(less: (T, T) -> bool, read: seq<T>, done: seq<T>, a: seq<T>)
    requires a != [] && Sorted(less, a) && StablyRearranged(less, read, done)
    ensures Runs(less, a) == 1 && StablyRearranged(less, read + a, done + a)
    ensures Runs(less, done + a) <= Runs(less, done) + 1
  {
    SortedIffOneRun(less, a);
    RunAppended(less, done, a);
    RearrangedReflexive(less, a);
    RearrangedConcat(less, read, done, a, a);
  }

  lemma RunsMergeTwo<T>(less: (T, T) -> bool, read: seq<T>, done: seq<T>, a: seq<T>, b: seq<T>, merged: seq<T>,
                        z: seq<T>)
    requires a != [] && b != [] && Sorted(less, a) && Sorted(less, b)
    requires less(b[0], a[|a| - 1]) && (z != [] ==> less(z[0], b[|b| - 1]))
    requires StablyRearranged(less, read, done) && IsStableSortOf(less, a + b, merged)
    ensures Runs(less, a + b + z) == 2 + Runs(less, z)
    ensures StablyRearranged(less, read + (a + b), done + merged)
    ensures Runs(less, done + merged) <= Runs(less, done) + 1
  {
    assert a + b + z == a + (b + z);
    RunCutOff(less, b, z);
    RunCutOff(less, a, b + z);
    RunAppended(less, done, merged);
    RearrangedConcat(less, read, done, a + b, merged);
  }

  /** C became D by merging the maximal runs [i, m) and [m, k), or, when the first of
      them reaches the end, by leaving it alone. */
  ghost predicate TwoRunsMerged<T>(less: (T, T) -> bool, c: seq<T>, d: seq<T>, i: nat, m: nat, k: nat) {
    && i < m <= k < |c| == |d| && Sorted(less, c[i..m])
    && if m == |c| - 1 then d == c && k == m else
       && m < k && less(c[m], c[m - 1]) && Sorted(less, c[m..k]) && (k < |c| - 1 ==> less(c[k], c[k - 1]))
       && d[..i] == c[..i] && d[k..] == c[k..] && IsStableSortOf(less, c[i..k], d[i..k])
  }

  /** A pass over S0 has counted RUNS runs and reached position i of chain C. */
  ghost predicate PassState<T>(less: (T, T) -> bool, s0: seq<T>, c: seq<T>, i: nat, runs: nat) {
    && 0 < i < |c| == |s0| + 2 && s0[i - 1..] == c[i..|c| - 1]
    && StablyRearranged(less, s0[..i - 1], c[1..i])
    && Runs(less, c[1..i]) <= runs
    && (Runs(less, s0) + 1) / 2 == runs + (Runs(less, s0[i - 1..]) + 1) / 2
  }

  lemma PassBegins<T>(less: (T, T) -> bool, c: seq<T>)
    requires |c| >= 2
    ensures PassState(less, c[1..|c| - 1], c, 1, 0)
  {
    assert c[1..1] == [];
  }

  lemma PassOrder<T>(less: (T, T) -> bool, s0: seq<T>, c: seq<T>, i: nat, runs: nat)
    requires PassState(less, s0, c, i, runs) && StrictWeakOrder(less, s0)
    ensures StrictWeakOrder(less, c[i..|c| - 1])
  {
    SubOrder(less, s0, s0[i - 1..]);
  }

  lemma PassEnds<T>(less: (T, T) -> bool, s0: seq<T>, c: seq<T>, runs: nat)
    requires |c| >= 2 && PassState(less, s0, c, |c| - 1, runs)
    ensures StablyRearranged(less, s0, c[1..|c| - 1])
    ensures runs == (Runs(less, s0) + 1) / 2 && Runs(less, c[1..|c| - 1]) <= runs
  {
    assert s0[..|s0|] == s0 && s0[|s0|..] == [];
  }

  lemma PassSlices<T>(s0: seq<T>, c: seq<T>, d: seq<T>, i: nat, m: nat, k: nat)
    requires 0 < i < m <= k < |c| == |d| == |s0| + 2 && s0[i - 1..] == c[i..|c| - 1]
    requires d[..i] == c[..i] && d[k..] == c[k..]
    ensures s0[..k - 1] == s0[..i - 1] + c[i..k] && s0[k - 1..] == d[k..|c| - 1] == c[k..|c| - 1]
    ensures d[1..k] == c[1..i] + d[i..k] && c[i..k] == c[i..m] + c[m..k]
    ensures s0[i - 1..] == c[i..k] + c[k..|c| - 1]
  {
    var n := |c| - 1;
    assert d[k..n] == d[k..][..n - k] && c[k..n] == c[k..][..n - k];
    assert d[1..i] == d[..i][1..] && c[1..i] == c[..i][1..];
    assert c[i..n] == c[i..k] + c[k..n];
    assert s0 == s0[..i - 1] + s0[i - 1..];
  }

  lemma PassAdvances<T>(less: (T, T) -> bool, s0: seq<T>, c: seq<T>, d: seq<T>, i: nat, m: nat, k: nat, runs: nat)
    requires PassState(less, s0, c, i, runs) && TwoRunsMerged(less, c, d, i, m, k)
    ensures PassState(less, s0, d, k, runs + 1)
  {
    hide StablyRearranged, IsStableSortOf, Sorted;
    PassSlices(s0, c, d, i, m, k);
    var a, b, z := c[i..m], c[m..k], c[k..|c| - 1];
    if m == |c| - 1 {
      assert a == c[i..k] == d[i..k] && z == [];
      RunsEndWithOne(less, s0[..i - 1], c[1..i], a);
    } else {
      RunsMergeTwo(less, s0[..i - 1], c[1..i], a, b, d[i..k], z);
    }
  }

  lemma InsertedNoRepeats<T>(s: seq<T>, k: nat, x: T)
    requires k <= |s| && Distinct(s) && x !in s
    ensures NoRepeats(Inserted(s, k, x))
  {
    NoRepeatsIsDistinct(Inserted(s, k, x));
  }

  lemma RemovedNoRepeats<T>(s: seq<T>, k: nat)
    requires k < |s| && Distinct(s)
    ensures NoRepeats(Removed(s, k))
  {
    NoRepeatsIsDistinct(Removed(s, k));
  }

  class List {
    const head: Elem
    const tail: Elem
    ghost var chain: seq<Elem>
    ghost var repr: set<Elem>

    ghost predicate Valid()
      reads this, repr
    {
      && (forall i | 0 <= i < |chain| :: chain[i] in repr)
      && |chain| >= 2 && chain[0] == head && chain[|chain| - 1] == tail
      && NoRepeats(chain) && Linked(chain) && head.prev == null && tail.next == null
    }

    /** list_init */
    constructor ()
      ensures Valid() && chain == [head, tail] && fresh(repr)
    {
      head := new Elem();
      tail := new Elem();
      chain, repr := [head, tail], {head, tail};
      new;
      head.next := tail;
      tail.prev := head;
    }

    /** list_insert: K is the position of BEFORE, which may be the tail. */
    method Insert(before: Elem, elem: Elem, ghost k: nat)
      requires Valid() && 0 < k < |chain| && before == chain[k] && elem !in chain
      modifies this, repr, elem
      ensures Valid() && repr == old(repr) + {elem} && chain == old(Inserted(chain, k, elem))
    {
      ghost var c := chain;
      NoRepeatsIsDistinct(c);
      InsertedNoRepeats(c, k, elem);
      chain, repr := Inserted(c, k, elem), repr + {elem};
      assert before.prev == c[k - 1];
      elem.prev := before.prev;
      elem.next := before;
      before.prev.next := elem;
      before.prev := elem;
      InsertRelinks(c, k, elem);
    }

    /** list_remove */
    method Remove(elem: Elem, ghost k: nat) returns (after: Elem)
      requires Valid() && 0 < k < |chain| - 1 && chain[k] == elem
      modifies this, repr
      ensures Valid() && repr == old(repr) && chain == old(Removed(chain, k)) && after == chain[k]
    {
      ghost var c := chain;
      NoRepeatsIsDistinct(c);
      RemovedNoRepeats(c, k);
      chain := Removed(c, k);
      elem.prev.next := elem.next;
      elem.next.prev := elem.prev;
      after := elem.next;
    }

    /** list_splice within one list: the elements [i, j) from FIRST up to but
        excluding LAST move to just before BEFORE, the earlier element at p. */
    method Splice(before: Elem, first: Elem, last: Elem, ghost p: nat, ghost i: nat, ghost j: nat)
      requires Valid() && 0 < p < i <= j < |chain|
      requires before == chain[p] && first == chain[i] && last == chain[j]
      modifies this, repr
      ensures Valid() && repr == old(repr)
      ensures chain == old(BlocksSwapped(chain, p, i, j))
    {
      ghost var c := chain;
      NoRepeatsIsDistinct(c);
      if first == last {
        assert i == j && BlocksSwapped(c, p, i, j) == c;
        return;
      }
      chain := BlocksSwapped(c, p, i, j);
      var end := last.prev;
      assert end == c[j - 1] && first.prev == c[i - 1];
      first.prev.next := end.next;
      end.next.prev := first.prev;
      assert before.prev == c[p - 1];
      first.prev := before.prev;
      end.next := before;
      before.prev.next := first;
      before.prev := end;
      SwapRelinks(c, p, i, j);
      SwapDistinct(c, p, i, j);
    }

    /** The interior elements, front to back. */
    ghost function Nodes(): seq<Elem>
      requires |chain| >= 2
      reads this
    {
      chain[1..|chain| - 1]
    }

    /** find_end_of_run: A is at position i, B at j. */
    method FindEndOfRun(a: Elem, b: Elem, less: (Elem, Elem) -> bool, ghost i: nat, ghost j: nat)
      returns (end: Elem, ghost k: nat)
      requires Valid() && 0 < i < j < |chain| && a == chain[i] && b == chain[j]
      ensures i < k <= j && end == chain[k] && (end == b <==> k == j)
      ensures Sorted(less, chain[i..k]) && (k < j ==> less(chain[k], chain[k - 1]))
    {
      end, k := a.next, i + 1;
      while end != b && !less(end, end.prev)
        invariant i < k <= j && end == chain[k]
        invariant forall t | i < t < k :: !less(chain[t], chain[t - 1])
        decreases j - k
      {
        end, k := end.next, k + 1;
      }
      assert end == b <==> k == j by { NoRepeatsIsDistinct(chain); }
    }

    /** inplace_merge: A0, A1B0 and B1 are at positions i, m and k. */
    method InplaceMerge(a0: Elem, a1b0: Elem, b1: Elem, less: (Elem, Elem) -> bool, ghost i: nat, ghost m: nat,
                        ghost k: nat)
      requires Valid() && 0 < i <= m <= k < |chain|
      requires a0 == chain[i] && a1b0 == chain[m] && b1 == chain[k]
      requires StrictWeakOrder(less, chain[i..k]) && Sorted(less, chain[i..m]) && Sorted(less, chain[m..k])
      modifies this, repr
      ensures Valid() && repr == old(repr) && |chain| == old(|chain|)
      ensures chain[..i] == old(chain[..i]) && chain[k..] == old(chain[k..])
      ensures IsStableSortOf(less, old(chain[i..k]), chain[i..k])
    {
      MergeLoopSorts(less, chain, i, m, k);
      MergeLoopInPlace(a0, a1b0, b1, less, i, m, k);
    }

    /** The loop of inplace_merge. */
    method MergeLoopInPlace(a0: Elem, a1b0: Elem, b1: Elem, less: (Elem, Elem) -> bool, ghost i: nat, ghost m: nat,
                            ghost k: nat)
      requires Valid() && 0 < i <= m <= k < |chain|
      requires a0 == chain[i] && a1b0 == chain[m] && b1 == chain[k]
      modifies this, repr
      ensures Valid() && repr == old(repr) && chain == old(MergeLoop(less, chain, i, m, k))
    {
      var p, q := a0, a1b0;
      ghost var x, y, c := i, m, chain;
      ghost var goal := MergeLoop(less, c, i, m, k);
      while p != q && q != b1
        invariant Valid() && repr == old(repr) && c == chain && i <= x <= y <= k < |c|
        invariant p == c[x] && q == c[y] && b1 == c[k]
        invariant MergeLoop(less, c, x, y, k) == goal
        decreases k - x, k - y
      {
        if !less(q, p) {
          p, x := p.next, x + 1;
        } else {
          q := q.next;
          Splice(p, q.prev, q, x, y, y + 1);
          MovedOne(c, x, y, k);
          c, x, y := BlocksSwapped(c, x, y, y + 1), x + 1, y + 1;
        }
      }
      assert x == y || y == k by { NoRepeatsIsDistinct(c); }
    }

    /** The body of list_sort's inner loop: merges the two runs that start at A0, at
        position i, or finds that only one is left; the next pair starts at NEXT. */
    method MergeNextTwo(a0: Elem, less: (Elem, Elem) -> bool, ghost i: nat)
      returns (next: Elem, ghost m: nat, ghost k: nat)
      requires Valid() && 0 < i < |chain| - 1 && a0 == chain[i] && StrictWeakOrder(less, chain[i..|chain| - 1])
      modifies this, repr
      ensures Valid() && repr == old(repr) && TwoRunsMerged(less, old(chain), chain, i, m, k) && next == chain[k]
    {
      ghost var n := |chain| - 1;
      next, m := FindEndOfRun(a0, tail, less, i, n);
      k := m;
      if next != tail {
        var b0 := next;
        next, k := FindEndOfRun(b0, tail, less, m, n);
        SubOrder(less, chain[i..n], chain[i..k]);
        ghost var c := chain;
        InplaceMerge(a0, b0, next, less, i, m, k);
        assert chain[k] == chain[k..][0] == c[k..][0] == c[k];
      }
    }

    /** MergeNextTwo, as a step of a pass over S0. */
    method AdvancePass(a0: Elem, less: (Elem, Elem) -> bool, ghost s0: seq<Elem>, ghost i: nat, ghost runs: nat)
      returns (next: Elem, ghost k: nat)
      requires Valid() && i < |chain| - 1 && PassState(less, s0, chain, i, runs) && a0 == chain[i]
      requires StrictWeakOrder(less, s0)
      modifies this, repr
      ensures Valid() && repr == old(repr) && PassState(less, s0, chain, k, runs + 1)
      ensures i < k && next == chain[k]
    {
      ghost var c, m := chain, i;
      PassOrder(less, s0, c, i, runs);
      next, m, k := MergeNextTwo(a0, less, i);
      PassAdvances(less, s0, c, chain, i, m, k, runs);
    }

    /** One pass of list_sort's outer loop, returning output_run_cnt. */
    method SortPass(less: (Elem, Elem) -> bool) returns (runs: nat)
      requires Valid() && StrictWeakOrder(less, Nodes())
      modifies this, repr
      ensures Valid() && repr == old(repr) && PassState(less, old(Nodes()), chain, |chain| - 1, runs)
    {
      runs := 0;
      var a0 := head.next;
      ghost var s0, i := Nodes(), 1;
      PassBegins(less, chain);
      while a0 != tail
        invariant Valid() && repr == old(repr) && PassState(less, s0, chain, i, runs) && a0 == chain[i]
        decreases |s0| - i
      {
        assert |chain| == |s0| + 2;
        a0, i := AdvancePass(a0, less, s0, i, runs);
        runs := runs + 1;
      }
      assert i == |chain| - 1 by { NoRepeatsIsDistinct(chain); }
    }

    /** list_sort */
    method Sort(less: (Elem, Elem) -> bool)
      requires Valid() && StrictWeakOrder(less, Nodes())
      modifies this, repr
      ensures Valid() && repr == old(repr) && IsStableSortOf(less, old(Nodes()), Nodes())
    {
      var again := true;
      ghost var s0 := Nodes();
      RearrangedReflexive(less, s0);
      while again
        invariant Valid() && repr == old(repr)
        invariant StablyRearranged(less, s0, Nodes())
        invariant !again ==> Sorted(less, Nodes())
        decreases again, Runs(less, Nodes())
      {
        ghost var s := Nodes();
        forall x | x in s ensures x in s0 { MultisetMember(s0, s, x); }
        SubOrder(less, s0, s);
        var runs := SortPass(less);
        PassEnds(less, s, chain, runs);
        RearrangedTransitive(less, s0, s, Nodes());
        SortedIffOneRun(less, Nodes());
        again := runs > 1;
      }
    }
  }
}
