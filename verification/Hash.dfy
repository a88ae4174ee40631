/** lib/kernel/hash.c: a chained hash table that resizes itself is a set of pairwise unequal
    elements, where equality is what the comparison function induces. */
module Hash {
  import opened Bits
  import opened Common

  /** Neither is less than the other. */
  ghost predicate Equal<E>(less: (E, E) -> bool, x: E, y: E) { !less(x, y) && !less(y, x) }

  /** All that is asked of the two functions: induced equality is an equivalence and equal
      elements have equal hash values. LESS need not be an order. */
  ghost predicate Suitable<E(!new)>(hash: E -> nat, less: (E, E) -> bool) {
    && (forall x :: Equal(less, x, x))
    && (forall x, y, z | Equal(less, x, y) && Equal(less, y, z) :: Equal(less, x, z))
    && (forall x, y | Equal(less, x, y) :: hash(x) == hash(y))
  }

  // ---- how many buckets ----

  /** turn_off_least_1bit */
  function LeastBitOff(x: nat): nat { if x == 0 then 0 else And(x, x - 1) }

  /** The greatest power of two that is at most X. */
  function Top(x: nat): (r: nat)
    requires x > 0
    ensures r <= x < 2 * r
  {
    if x == 1 then 1 else 2 * Top(x / 2)
  }

  predicate IsPow2(x: nat) { x > 0 && Top(x) == x }

  lemma {:induction false} AndSelf(x: nat)
    ensures And(x, x) == x
  {
    if x > 0 { AndSelf(x / 2); }
  }

  /** Clearing the lowest bit leaves the highest one, unless they are the same. */
  lemma {:induction false} LeastBitOffTop(x: nat)
    requires x > 0
    ensures LeastBitOff(x) < x
    ensures LeastBitOff(x) == 0 <==> IsPow2(x)
    ensures LeastBitOff(x) > 0 ==> Top(LeastBitOff(x)) == Top(x)
  {
    if x % 2 == 1 {
      AndSelf(x / 2);
      assert (x - 1) / 2 == x / 2;
      assert LeastBitOff(x) == 2 * (x / 2);
      if x > 1 { assert LeastBitOff(x) / 2 == x / 2; }
    } else {
      assert (x - 1) / 2 == x / 2 - 1;
      LeastBitOffTop(x / 2);
      assert LeastBitOff(x) == 2 * LeastBitOff(x / 2);
    }
  }

  lemma {:induction false} TopIsPow2(x: nat)
    requires x > 0
    ensures IsPow2(Top(x))
    ensures forall y: nat | x <= y :: Top(x) <= Top(y)
  {
    if x > 1 {
      TopIsPow2(x / 2);
      assert Top(x) / 2 == Top(x / 2);
      forall y: nat | x <= y ensures Top(x) <= Top(y) { assert x / 2 <= y / 2; }
    }
  }

  /** What the name says. */
  lemma {:induction false} PowersOfTwo(x: nat, k: nat)
    ensures IsPow2(Pow2(k))
    ensures IsPow2(x) ==> exists j: nat :: x == Pow2(j)
    decreases k + x
  {
    if k > 0 {
      PowersOfTwo(0, k - 1);
      assert Pow2(k) / 2 == Pow2(k - 1);
    }
    if x > 1 && IsPow2(x) {
      assert x == 2 * (x / 2) && IsPow2(x / 2);
      PowersOfTwo(x / 2, 0);
      var j: nat :| x / 2 == Pow2(j);
      assert x == Pow2(j + 1);
    } else if x == 1 {
      assert x == Pow2(0);
    }
  }

  /** rehash's choice */
  method BucketCount(elemCnt: nat) returns (n: nat)
    ensures IsPow2(n) && 4 <= n && elemCnt < 4 * n && exists j: nat :: n == Pow2(j)
    ensures n == Top(if elemCnt / 2 < 4 then 4 else elemCnt / 2)
  {
    n := elemCnt / 2;
    if n < 4 {
      n := 4;
    }
    ghost var goal := n;
    TopIsPow2(4);
    while LeastBitOff(n) != 0
      invariant n > 0 && Top(n) == Top(goal)
      decreases n
    {
      LeastBitOffTop(n);
      n := LeastBitOff(n);
    }
    LeastBitOffTop(n);
    PowersOfTwo(n, 0);
  }

  lemma {:induction false} AndAtMost(x: nat, y: nat)
    ensures And(x, y) <= y
  {
    if x > 0 { AndAtMost(x / 2, y / 2); }
  }

  /** find_bucket */
  function Bucket<E>(hash: E -> nat, cnt: nat, x: E): (i: nat)
    requires cnt > 0
    ensures i < cnt
  {
    AndAtMost(hash(x), cnt - 1);
    And(hash(x), cnt - 1)
  }

  // ---- the table ----

  /** The bucket is the hash value modulo the number of buckets. */
  lemma BucketIsRemainder<E>(hash: E -> nat, cnt: nat, x: E)
    requires IsPow2(cnt)
    ensures Bucket(hash, cnt, x) == hash(x) % cnt
  {
    MaskIsRemainder(hash(x), cnt);
  }

  lemma {:induction false} MaskIsRemainder(h: nat, cnt: nat)
    requires IsPow2(cnt)
    ensures And(h, cnt - 1) == h % cnt
    decreases cnt
  {
    if cnt == 1 {
      AndZero(h);
    } else {
      assert cnt == 2 * Top(cnt / 2);
      HalfPow2(cnt);
      MaskIsRemainder(h / 2, cnt / 2);
      HalfMask(h, cnt / 2);
    }
  }

  lemma HalfPow2(cnt: nat)
    requires IsPow2(cnt) && cnt > 1
    ensures cnt % 2 == 0 && IsPow2(cnt / 2)
  {
  }

  lemma HalfMask(h: nat, half: nat)
    requires half > 0 && And(h / 2, half - 1) == h / 2 % half
    ensures And(h, 2 * half - 1) == h % (2 * half)
  {
    OddMask(h, half);
    var q, r := h / 2 / half, h / 2 % half;
    DivMod(h / 2, half);
    Doubled(h, h / 2, h % 2, q, half, r);
    RestUnique(h, 2 * half, q, 2 * r + h % 2);
  }

  lemma OddMask(h: nat, half: nat)
    requires half > 0
    ensures And(h, 2 * half - 1) == h % 2 + 2 * And(h / 2, half - 1)
  {
    assert (2 * half - 1) / 2 == half - 1 && (2 * half - 1) % 2 == 1;
  }

  lemma DivMod(n: int, d: int)
    requires d > 0
    ensures n == n / d * d + n % d && 0 <= n % d < d
  {
  }

  lemma Doubled(h: int, x: int, b: int, q: int, half: int, r: int)
    requires h == 2 * x + b && x == q * half + r
    ensures h == q * (2 * half) + (2 * r + b)
  {
  }

  lemma RestUnique(x: int, m: int, a: int, r: int)
    requires m > 0 && x == a * m + r && 0 <= r < m
    ensures x % m == r
  {
    var d := a - x / m;
    assert m * d == a * m - m * (x / m) == x % m - r;
    assert d == 0;
  }

  ghost predicate Unequal<E>(less: (E, E) -> bool, s: seq<E>) {
    forall i, j | 0 <= i < j < |s| :: !Equal(less, s[i], s[j])
  }

  /** The elements are in the buckets that their hash values say, no two of them equal. */
  ghost predicate TableOk<E(!new)>(hash: E -> nat, less: (E, E) -> bool, buckets: seq<seq<E>>, elems: set<E>) {
    && |buckets| > 0
    && (forall i | 0 <= i < |buckets| :: Unequal(less, buckets[i]))
    && (forall i, x | 0 <= i < |buckets| && x in buckets[i] :: x in elems && Bucket(hash, |buckets|, x) == i)
    && (forall x | x in elems :: x in buckets[Bucket(hash, |buckets|, x)])
  }

  /** At most one element of the table is equal to any given one. */
  lemma AtMostOne<E(!new)>(hash: E -> nat, less: (E, E) -> bool, buckets: seq<seq<E>>, elems: set<E>, x: E, y: E)
    requires Suitable(hash, less) && TableOk(hash, less, buckets, elems) && x in elems && y in elems
             && Equal(less, x, y)
    ensures x == y
  {
    var b := buckets[Bucket(hash, |buckets|, x)];
    assert x in b && y in b;
    var i :| 0 <= i < |b| && b[i] == x;
    var j :| 0 <= j < |b| && b[j] == y;
  }

  /** insert_elem, for an element equal to none. */
  lemma Inserted<E(!new)>(hash: E -> nat, less: (E, E) -> bool, buckets: seq<seq<E>>, elems: set<E>, x: E)
    requires Suitable(hash, less) && TableOk(hash, less, buckets, elems) && forall y | y in elems :: !Equal(less, x, y)
    ensures x !in elems
    ensures var i := Bucket(hash, |buckets|, x); TableOk(hash, less, buckets[i := [x] + buckets[i]], elems + {x})
  {
    assert Equal(less, x, x);
    var i := Bucket(hash, |buckets|, x);
    var b := [x] + buckets[i];
    forall k | 1 <= k < |b| ensures !Equal(less, x, b[k]) { assert b[k] in buckets[i]; }
  }

  /** The elements of S other than X, in order. */
  function Without<E(==)>(s: seq<E>, x: E): seq<E> {
    if s == [] then [] else if s[0] == x then s[1..] else [s[0]] + Without(s[1..], x)
  }

  lemma {:induction false} WithoutUnequal<E(!new)>(hash: E -> nat, less: (E, E) -> bool, s: seq<E>, x: E)
    requires Suitable(hash, less) && Unequal(less, s)
    ensures Unequal(less, Without(s, x)) && forall y :: y in Without(s, x) <==> y in s && y != x
  {
    if s != [] {
      var t := s[1..];
      assert forall i | 0 <= i < |t| :: t[i] == s[i + 1];
      assert s == [s[0]] + t;
      forall y | y in t ensures y != s[0] && !Equal(less, s[0], y) { assert Equal(less, s[0], s[0]); }
      if s[0] != x {
        WithoutUnequal(hash, less, t, x);
        var r := Without(t, x);
        forall k | 0 <= k < |r| ensures !Equal(less, s[0], r[k]) { assert r[k] in r; }
      }
    }
  }

  /** remove_elem */
  lemma Deleted<E(!new)>(hash: E -> nat, less: (E, E) -> bool, buckets: seq<seq<E>>, elems: set<E>, x: E)
    requires Suitable(hash, less) && TableOk(hash, less, buckets, elems) && x in elems
    ensures var i := Bucket(hash, |buckets|, x); TableOk(hash, less, buckets[i := Without(buckets[i], x)], elems - {x})
  {
    WithoutUnequal(hash, less, buckets[Bucket(hash, |buckets|, x)], x);
  }

  class Table<E(==, !new)> {
    const hash: E -> nat
    const less: (E, E) -> bool
    var buckets: seq<seq<E>>
    var bucketCnt: nat
    var elemCnt: nat
    ghost var elems: set<E>

    ghost predicate Valid()
      reads this
    {
      && Suitable(hash, less) && TableOk(hash, less, buckets, elems)
      && |buckets| == bucketCnt && IsPow2(bucketCnt) && 4 <= bucketCnt && elemCnt == |elems|
    }

    /** hash_init, when it gets memory. */
    constructor (hash: E -> nat, less: (E, E) -> bool)
      requires Suitable(hash, less)
      ensures Valid() && elems == {} && this.hash == hash && this.less == less
    {
      this.hash, this.less := hash, less;
      buckets, bucketCnt, elemCnt, elems := seq(4, _ => []), 4, 0, {};
      TopIsPow2(4);
    }

    /** hash_find: find_elem in the bucket of E. */
    method Find(e: E) returns (r: Option<E>)
      requires Valid()
      ensures r.Some? ==> r.value in elems && Equal(less, r.value, e)
      ensures r.None? ==> forall x | x in elems :: !Equal(less, x, e)
    {
      var b := buckets[Bucket(hash, bucketCnt, e)];
      for i := 0 to |b|
        invariant forall j | 0 <= j < i :: !Equal(less, b[j], e)
      {
        if !less(b[i], e) && !less(e, b[i]) {
          assert b[i] in b;
          return Some(b[i]);
        }
      }
      r := None;
      forall x | x in elems ensures !Equal(less, x, e) {
        assert Equal(less, x, e) ==> x in b;
      }
    }

    /** rehash; MEM tells whether memory for the new buckets can be had. */
    method Rehash(mem: bool)
      requires Valid()
      modifies this
      ensures Valid() && elems == old(elems) && elemCnt == old(elemCnt)
      ensures mem ==> elemCnt < 4 * bucketCnt && bucketCnt == Top(if elemCnt / 2 < 4 then 4 else elemCnt / 2)
      ensures !mem ==> bucketCnt == old(bucketCnt)
    {
      var cnt := BucketCount(elemCnt);
      if cnt == bucketCnt || !mem {
        return;
      }
      var newBuckets := MoveAll(cnt);
      buckets, bucketCnt := newBuckets, cnt;
    }

    /** rehash's loops: every element to the front of its new bucket. */
    method MoveAll(cnt: nat) returns (newBuckets: seq<seq<E>>)
      requires Valid() && cnt > 0
      ensures |newBuckets| == cnt && TableOk(hash, less, newBuckets, elems)
    {
      newBuckets := seq(cnt, _ => []);
      ghost var moved: set<E> := {};
      for i := 0 to bucketCnt
        invariant |newBuckets| == cnt && TableOk(hash, less, newBuckets, moved)
        invariant forall x :: x in moved <==> x in elems && Bucket(hash, bucketCnt, x) < i
      {
        var b := buckets[i];
        for j := 0 to |b|
          invariant |newBuckets| == cnt && TableOk(hash, less, newBuckets, moved)
          invariant forall x :: x in moved <==> (x in elems && Bucket(hash, bucketCnt, x) < i) || x in b[..j]
        {
          var x := b[j];
          assert x in b;
          forall y | y in moved ensures !Equal(less, x, y) {
            if Equal(less, x, y) { AtMostOne(hash, less, buckets, elems, x, y); }
          }
          Inserted(hash, less, newBuckets, moved, x);
          var k := Bucket(hash, cnt, x);
          newBuckets, moved := newBuckets[k := [x] + newBuckets[k]], moved + {x};
        }
      }
      assert moved == elems;
    }

    /** hash_insert */
    method Insert(e: E, mem: bool) returns (r: Option<E>)
      requires Valid()
      modifies this
      ensures Valid()
      ensures r.Some? ==> r.value in elems && Equal(less, r.value, e) && elems == old(elems)
      ensures r.None? ==>
                e !in old(elems) && elems == old(elems) + {e}
                && forall x | x in old(elems) :: !Equal(less, x, e)
      ensures mem ==> elemCnt < 4 * bucketCnt
    {
      r := Find(e);
      if r.None? {
        PushFront(e);
      }
      Rehash(mem);
    }

    method PushFront(e: E)
      requires Valid() && forall x | x in elems :: !Equal(less, x, e)
      modifies this
      ensures Valid() && e !in old(elems) && elems == old(elems) + {e}
    {
      Inserted(hash, less, buckets, elems, e);
      var i := Bucket(hash, bucketCnt, e);
      buckets, elemCnt, elems := buckets[i := [e] + buckets[i]], elemCnt + 1, elems + {e};
    }

    method Unlink(e: E)
      requires Valid() && e in elems
      modifies this
      ensures Valid() && elems == old(elems) - {e}
    {
      Deleted(hash, less, buckets, elems, e);
      var i := Bucket(hash, bucketCnt, e);
      buckets, elemCnt, elems := buckets[i := Without(buckets[i], e)], elemCnt - 1, elems - {e};
    }

    /** hash_replace */
    method Replace(e: E, mem: bool) returns (r: Option<E>)
      requires Valid()
      modifies this
      ensures Valid()
      ensures r.Some? ==> r.value in old(elems) && Equal(less, r.value, e) && elems == old(elems) - {r.value} + {e}
      ensures r.None? ==> elems == old(elems) + {e} && forall x | x in old(elems) :: !Equal(less, x, e)
      ensures mem ==> elemCnt < 4 * bucketCnt
    {
      r := Find(e);
      if r.Some? {
        ghost var x := r.value;
        forall y | y in elems && Equal(less, y, e)
          ensures y == x
        {
          assert Equal(less, x, e) && Equal(less, e, y);
          AtMostOne(hash, less, buckets, elems, x, y);
        }
        Unlink(r.value);
      }
      PushFront(e);
      Rehash(mem);
    }

    /** hash_delete */
    method Delete(e: E, mem: bool) returns (r: Option<E>)
      requires Valid()
      modifies this
      ensures Valid()
      ensures r.Some? ==>
                r.value in old(elems) && Equal(less, r.value, e) && elems == old(elems) - {r.value}
                && (mem ==> elemCnt < 4 * bucketCnt)
      ensures r.None? ==> elems == old(elems) && forall x | x in elems :: !Equal(less, x, e)
    {
      r := Find(e);
      if r.Some? {
        Unlink(r.value);
        Rehash(mem);
      }
    }
  }

  // ---- iteration ----

  /** X comes before position J of bucket I in the order of iteration. */
  ghost predicate Before<E(!new)>(hash: E -> nat, buckets: seq<seq<E>>, i: nat, j: nat, x: E)
    requires |buckets| > 0
  {
    var b := Bucket(hash, |buckets|, x);
    b < i || (b == i && exists l :: 0 <= l < j && l < |buckets[i]| && x == buckets[i][l])
  }

  /** The position (I2, J2) that hash_next moves to from (I, J) has just one element more before it. */
  lemma OneMore<E(!new)>(hash: E -> nat, less: (E, E) -> bool, buckets: seq<seq<E>>, elems: set<E>, i: nat, j: nat,
                         i2: nat, j2: nat, x: E)
    requires Suitable(hash, less) && TableOk(hash, less, buckets, elems) && i < |buckets| && j < |buckets[i]|
             && x in elems
    requires i <= i2 <= |buckets| && (i2 == i ==> j2 == j + 1) && (i2 > i ==> j2 == 0 && j + 1 == |buckets[i]|)
    requires forall k | i < k < i2 && k < |buckets| :: buckets[k] == []
    ensures Before(hash, buckets, i2, j2, x) <==> Before(hash, buckets, i, j, x) || x == buckets[i][j]
    ensures !Before(hash, buckets, i, j, buckets[i][j])
  {
    var y := buckets[i][j];
    assert y in buckets[i] && Equal(less, y, y);
    forall l | 0 <= l < j ensures buckets[i][l] != y { assert !Equal(less, buckets[i][l], y); }
    var b := Bucket(hash, |buckets|, x);
    assert x in buckets[b];
    var m :| 0 <= m < |buckets[b]| && buckets[b][m] == x;
    if b == i { assert m < j || m == j || m > j; }
  }

  /** hash_next: from position J of bucket I (-1 is the list's head) to the next element;
      bucket |BUCKETS| is the end. */
  method Next<E>(buckets: seq<seq<E>>, i: nat, j: int) returns (i': nat, j': nat)
    requires i < |buckets| && -1 <= j < |buckets[i]|
    ensures i <= i' <= |buckets| && (i' == i ==> j' == j + 1) && (i' > i ==> j' == 0 && j + 1 == |buckets[i]|)
    ensures i' < |buckets| ==> j' < |buckets[i']|
    ensures forall k | i < k < i' && k < |buckets| :: buckets[k] == []
  {
    i', j' := i, j + 1;
    while j' == |buckets[i']|
      invariant i <= i' < |buckets| && j' <= |buckets[i']| && (i' == i ==> j' == j + 1)
                && (i' > i ==> j' == 0 && j + 1 == |buckets[i]|)
      invariant forall k | i < k < i' :: buckets[k] == []
      decreases |buckets| - i'
    {
      i', j' := i' + 1, 0;
      if i' >= |buckets| {
        return;
      }
    }
  }

  /** hash_first and hash_next visit every element exactly once. */
  method Visit<E(!new)>(hash: E -> nat, less: (E, E) -> bool, buckets: seq<seq<E>>, ghost elems: set<E>)
    returns (visited: seq<E>)
    requires Suitable(hash, less) && TableOk(hash, less, buckets, elems)
    ensures Distinct(visited) && forall x :: x in visited <==> x in elems
  {
    visited := [];
    var i: nat, j: nat := Next(buckets, 0, -1);
    forall x | x in elems ensures !Before(hash, buckets, i, j, x) {
      assert x in buckets[Bucket(hash, |buckets|, x)];
    }
    while i < |buckets|
      invariant i <= |buckets| && (i < |buckets| ==> j < |buckets[i]|) && Distinct(visited)
      invariant forall x :: x in visited <==> x in elems && Before(hash, buckets, i, j, x)
      decreases |buckets| - i, if i < |buckets| then |buckets[i]| - j else 0
    {
      var x := buckets[i][j];
      assert x in buckets[i];
      var i2, j2 := Next(buckets, i, j);
      forall y | y in elems
        ensures Before(hash, buckets, i2, j2, y) <==> Before(hash, buckets, i, j, y) || y == x
      {
        OneMore(hash, less, buckets, elems, i, j, i2, j2, y);
      }
      OneMore(hash, less, buckets, elems, i, j, i2, j2, x);
      visited, i, j := visited + [x], i2, j2;
    }
  }

  // ---- vm/page.c's use ----

  /** A difference of 32-bit addresses, as a signed number. */
  function Difference(a: nat, b: nat): int
    requires a < 0x1_0000_0000 && b < 0x1_0000_0000
  {
    var d := (a - b) % 0x1_0000_0000;
    if d < 0x8000_0000 then d else d - 0x1_0000_0000
  }

  type Address = a: nat | a < 0x1_0000_0000

  /** suppl_pt_less */
  predicate AddressLess(a: Address, b: Address) { Difference(a, b) < 0 }

  /** It is not an order: half the address space apart, each is less than the other... */
  lemma AddressLessNoOrder()
    ensures AddressLess(0, 0x8000_0000) && AddressLess(0x8000_0000, 0)
  {
  }

  /** ... but the equality it induces is that of addresses, which is enough. */
  lemma AddressLessSuitable(hash: Address -> nat)
    ensures forall a: Address, b: Address :: Equal(AddressLess, a, b) <==> a == b
    ensures Suitable(hash, AddressLess)
  {
  }
}
