/** 64-bit division built from the x86 64-by-32 divide, lib/arithmetic.c.
    Machine words are integers in range; every truncation is written out. */
module Arithmetic {
  import opened Bits

  const B: int := 0x1_0000_0000                  // 2^32
  const B64: int := 0x1_0000_0000_0000_0000      // 2^64

  newtype U32 = x: int | 0 <= x < 0x1_0000_0000
  newtype U64 = x: int | 0 <= x < 0x1_0000_0000_0000_0000
  newtype I64 = x: int | -0x8000_0000_0000_0000 <= x < 0x8000_0000_0000_0000

  /** divl: the instruction traps unless the quotient fits 32 bits, so not trapping
      is its precondition. */
  function Divl(n: U64, d: U32): (q: U32)
    requires d != 0 && n as int / d as int < B
    ensures q as int == n as int / d as int
  {
    (n as int / d as int) as U32
  }

  /** X shifted left N bits, unbounded. */
  function Shl(x: int, n: nat): int
    decreases n
  {
    if n == 0 then x else Shl(2 * x, n - 1)
  }

  lemma {:induction false} ShlAgain(x: int, n: nat, k: nat)
    ensures Shl(x, n + k) == Shl(Shl(x, n), k)
    decreases n
  {
    if n > 0 { ShlAgain(2 * x, n - 1, k); }
  }

  lemma {:induction false} ShlMultiplies(x: int, n: nat)
    ensures Shl(x, n) == x * Pow2(n)
    decreases n
  {
    if n > 0 {
      ShlMultiplies(2 * x, n - 1);
      assert 2 * x * Pow2(n - 1) == x * (2 * Pow2(n - 1));
    }
  }

  /** The 32-bit shift x <<= k. */
  function Shl32(x: int, k: nat): int {
    Shl(x, k) % B
  }

  /** One test of nlz, `if (x <= limit) { n += k; x <<= k; }`: X is V shifted by n, and the
      shift by k, done only when there is room for it, loses no bit. */
  method ShiftIfRoom(ghost v: int, n: nat, x: int, k: nat, limit: int) returns (n': nat, x': int)
    requires x == Shl(v, n) && (limit + 1) * Pow2(k) == B && 0 < x < B && limit + 1 <= x * Pow2(k)
    ensures n <= n' <= n + k && x' == Shl(v, n') && limit < x' < B
  {
    n', x' := n, x;
    if x <= limit {
      ShlAgain(v, n, k);
      ShlMultiplies(x, k);
      RoomEnough(x, limit, Pow2(k));
      n', x' := n + k, Shl32(x, k);
    }
  }

  lemma RoomEnough(x: int, limit: int, p: int)
    requires 0 < x <= limit && p > 0 && (limit + 1) * p == B
    ensures 0 < x * p < B
  {
    MulMono(x, limit, p);
    MulMono(1, x, p);
    Distribute(limit, 1, p);
  }

  /** nlz: number of leading zero bits of a nonzero 32-bit word. */
  method Nlz(x0: U32) returns (n: nat)
    requires x0 != 0
    ensures n < 32 && 0x8000_0000 <= Shl(x0 as int, n) < B
  {
    Pow2Words();
    var x: int := x0 as int;
    n, x := ShiftIfRoom(x0 as int, 0, x, 16, 0x0000FFFF);
    n, x := ShiftIfRoom(x0 as int, n, x, 8, 0x00FFFFFF);
    n, x := ShiftIfRoom(x0 as int, n, x, 4, 0x0FFFFFFF);
    n, x := ShiftIfRoom(x0 as int, n, x, 2, 0x3FFFFFFF);
    n, x := ShiftIfRoom(x0 as int, n, x, 1, 0x7FFFFFFF);
  }

  // ---- facts about division ----

  /** Q is the quotient of N by D. */
  lemma QuotientUnique(n: int, d: int, q: int)
    requires d > 0 && q * d <= n < (q + 1) * d
    ensures n / d == q
  {
    QuotientBounds(n, d);
    LessByOne(q, n / d + 1, d);
    LessByOne(n / d, q + 1, d);
  }

  lemma LessByOne(a: int, b: int, d: int)
    requires d > 0 && a * d < b * d
    ensures a < b
  {
    assert a >= b ==> (a - b) * d >= 0;
    assert (a - b) * d == a * d - b * d;
  }

  lemma QuotientBounds(n: int, d: int)
    requires d > 0
    ensures n / d * d <= n < (n / d + 1) * d
    ensures n >= 0 ==> n / d >= 0
  {
    assert (n / d + 1) * d == n / d * d + d;
    if n >= 0 { LessByOne(0, n / d + 1, d); }
  }

  /** Dividing twice divides by the product. */
  lemma DivideTwice(n: int, a: int, b: int)
    requires n >= 0 && a > 0 && b > 0
    ensures a * b > 0 && n / a / b == n / (a * b)
  {
    var q := n / a / b;
    QuotientBounds(n, a);
    QuotientBounds(n / a, b);
    assert q * b * a <= n / a * a by { MulMono(q * b, n / a, a); }
    assert (n / a + 1) * a <= (q + 1) * b * a by { MulMono(n / a + 1, (q + 1) * b, a); }
    assert q * b * a == q * (a * b) && (q + 1) * b * a == (q + 1) * (a * b);
    QuotientUnique(n, a * b, q);
  }

  lemma MulMono(x: int, y: int, z: int)
    requires x <= y && 0 <= z
    ensures x * z <= y * z
  {
    assert (y - x) * z >= 0;
  }

  lemma Distribute(x: int, y: int, z: int)
    ensures (x + y) * z == x * z + y * z
  {
  }

  lemma DivMod(n: int, d: int)
    requires d > 0
    ensures n == n / d * d + n % d && 0 <= n % d < d
  {
  }

  /** Bounds by multiples are bounds on the quotient. */
  lemma QuotientBetween(n: int, d: int, a: int, b: int)
    requires d > 0 && a * d <= n < (b + 1) * d
    ensures a <= n / d <= b
  {
    QuotientBounds(n, d);
    LessByOne(n / d, b + 1, d);
    LessByOne(a, n / d + 1, d);
  }

  lemma Regrouped(x: int, y: int, z: int)
    ensures x * y * z == x * (z * y)
  {
  }

  /** A common factor cancels. */
  lemma CancelFactor(d: int, p: int, f: int)
    requires d >= 0 && p > 0 && f > 0
    ensures f * p > 0 && d * f / (f * p) == d / p
  {
    var q := d / p;
    QuotientBounds(d, p);
    MulMono(q * p, d, f);
    MulMono(d + 1, (q + 1) * p, f);
    Regrouped(q, p, f);
    Regrouped(q + 1, p, f);
    assert (d + 1) * f == d * f + f;
    QuotientUnique(d * f, f * p, q);
  }

  // ---- udiv64 ----

  /** The one-word divisor case: schoolbook division in base 2^32. */
  lemma OneWordDivisor(n: int, d: int)
    requires 0 <= n < B64 && 0 < d < B
    ensures var n1, n0 := n / B, n % B;
            var m := B * (n1 % d) + n0;
            && 0 <= m < B64 && m / d < B && n / d == m / d + B * (n1 / d)
  {
    var n1, n0 := n / B, n % B;
    var t, r := n1 / d, n1 % d;
    var m := B * r + n0;
    DivMod(n1, d);
    QuotientBounds(m, d);
    LessByOne(m / d, B, d);
    Digits(m / d, t, d);
    Digits(m / d + 1, t, d);
    QuotientUnique(n, d, m / d + B * t);
  }

  lemma Digits(low: int, high: int, d: int)
    ensures (low + B * high) * d == low * d + B * (high * d)
  {
    Distribute(low, B * high, d);
  }

  lemma QuotientBelow(t: int, d: int, p: int, r: int)
    requires t >= 0 && t * d < B64 && p >= 2 && r * p == 2 * B && 0x8000_0000 * p <= d
    ensures t < r
  {
    MulMono(0x8000_0000 * p, d, t);
    assert 0x8000_0000 * p * t == 0x8000_0000 * (t * p);
    LessByOne(t, r, p);
  }

  lemma RoundingLoss(t: int, e: int, p: int, r: int)
    requires 0 <= t < r && p >= 2 && 0 <= e < p && r * p == 2 * B
    ensures (t + 1) * e <= 0x8000_0000 * p
  {
    MulMono(t + 1, r, e);
    MulMono(e, p - 1, r);
    assert e * r == r * e && (p - 1) * r == 2 * B - r;
    if p == 2 { assert r == B; }
    else if p == 3 { assert r * 3 == 2 * B; }
  }

  /** The two-word divisor case: with D cut down to its top 32 significant bits, the
      quotient is the true one or one more. */
  lemma TruncatedDivisor(n: int, d: int, v: int, p: int, r: int)
    requires 0 <= n < B64 && p >= 2 && r * p == 2 * B && 0x8000_0000 <= v && v * p <= d < v * p + p
    ensures v * p > 0 && n / d <= n / (v * p) <= n / d + 1
  {
    MulMono(0x8000_0000, v, p);
    QuotientBounds(n, d);
    CutDivisor(n, d, v * p, p, r, n / d);
  }

  lemma CutDivisor(n: int, d: int, big: int, p: int, r: int, t: int)
    requires 0 <= n < B64 && p >= 2 && r * p == 2 * B && 0x8000_0000 * p <= big <= d < big + p
    requires t >= 0 && t * d <= n < (t + 1) * d
    ensures t <= n / big <= t + 1
  {
    QuotientBelow(t, d, p, r);
    RoundingLoss(t, d - big, p, r);
    CloseDivisor(n, d, big, t);
  }

  lemma CloseDivisor(n: int, d: int, big: int, t: int)
    requires 0 < big <= d && t >= 0 && t * d <= n < (t + 1) * d && (t + 1) * (d - big) <= big
    ensures t <= n / big <= t + 1
  {
    Difference(t + 1, d, big);
    Distribute(t + 1, 1, big);
    MulMono(big, d, t);
    QuotientBetween(n, big, t, t + 1);
  }

  lemma Difference(x: int, y: int, z: int)
    ensures x * (y - z) == x * y - x * z
  {
  }

  /** udiv64: the floor of n/d for every 64-bit n and nonzero d; the divl trap is never met. */
  method Udiv64(n: U64, d: U64) returns (q: U64)
    requires d != 0
    ensures q as int == n as int / d as int
  {
    if d as int / B == 0 {
      q := OneWord(n, d as int as U32);
    } else if n < d {
      QuotientUnique(n as int, d as int, 0);
      q := 0;
    } else {
      q := TwoWords(n, d);
    }
  }

  method OneWord(n: U64, d: U32) returns (q: U64)
    requires d != 0
    ensures q as int == n as int / d as int
  {
    var n1, n0, d0 := n as int / B, n as int % B, d as int;
    OneWordDivisor(n as int, d0);
    AbsQuotient(n as int, d0);
    var low := Divl((B * (n1 % d0) + n0) as U64, d);
    q := (low as int + B * (n1 / d0)) as U64;
  }

  method TwoWords(n: U64, d: U64) returns (q: U64)
    requires B <= d as int <= n as int
    ensures q as int == n as int / d as int
  {
    var d1 := d as int / B;
    var s := Nlz(d1 as U32);
    NormalizedDivisor(d as int, s);
    var v := Shl(d as int, s) % B64 / B;
    EstimateFits(n as int, v);
    var q0 := Divl((n as int / 2) as U64, v as U32);
    var est := q0 as int / Pow2(31 - s);
    Estimate(n as int, d as int, s, v);
    var m := (n as int - (est - 1) * d as int) % B64;
    OneOff(n as int, d as int, est);
    q := (if m < d as int then est - 1 else est) as U64;
  }

  /** d << s neither overflows nor leaves its top bit clear, and (d << s) >> 32 is d >> (32 - s). */
  lemma NormalizedDivisor(d: int, s: nat)
    requires B <= d < B64 && s < 32 && 0x8000_0000 <= Shl(d / B, s) < B
    ensures 0 <= Shl(d, s) < B64
    ensures Shl(d, s) / B == d / Pow2(32 - s) && 0x8000_0000 <= d / Pow2(32 - s) < B
  {
    ShlMultiplies(d, s);
    ShlMultiplies(d / B, s);
    Pow2Add(s, 32 - s);
    Pow2Words();
    CancelFactor(d, Pow2(32 - s), Pow2(s));
    QuotientBounds(d, B);
    ShiftedRange(d, d / B, Pow2(s), Pow2(32 - s));
  }

  lemma ShiftedRange(d: int, d1: int, f: int, p: int)
    requires 0 < f && f * p == B && 0x8000_0000 <= d1 * f < B && d1 * B <= d < (d1 + 1) * B
    ensures 0 <= d * f < B64 && 0x8000_0000 <= d * f / B < B
  {
    LessByOne(d1, p, f);
    MulMono(d1 + 1, p, f);
    Distribute(d1, 1, f);
    ScaledLow(d, d1, f);
    ScaledHigh(d, d1, f);
    QuotientBetween(d * f, B, 0x8000_0000, B - 1);
  }

  lemma ScaledLow(d: int, d1: int, f: int)
    requires f > 0 && d1 * B <= d
    ensures d1 * f * B <= d * f
  {
    MulMono(d1 * B, d, f);
  }

  lemma ScaledHigh(d: int, d1: int, f: int)
    requires f > 0 && d < (d1 + 1) * B
    ensures d * f < (d1 * f + f) * B
  {
    MulMono(d + 1, (d1 + 1) * B, f);
    Distribute(d, 1, f);
    Distribute(d1 * B, B, f);
  }

  lemma EstimateFits(n: int, v: int)
    requires 0 <= n < B64 && 0x8000_0000 <= v < B
    ensures 0 <= n / 2 / v < B
  {
    QuotientBounds(n / 2, v);
    QuotientFits(n / 2 / v, v, n / 2);
  }

  lemma QuotientFits(w: int, v: int, m: int)
    requires w >= 0 && w * v <= m < 0x8000_0000 * B && 0x8000_0000 <= v
    ensures w < B
  {
    MulMono(0x8000_0000, v, w);
  }

  lemma DivideThrice(n: int, v: int, h: int, p: int)
    requires n >= 0 && v > 0 && h > 0 && p == 2 * h
    ensures v * p > 0 && n / 2 / v / h == n / (v * p)
  {
    DivideTwice(n, 2, v);
    DivideTwice(n, 2 * v, h);
    assert 2 * v * h == v * p;
  }

  lemma Estimate(n: int, d: int, s: nat, v: int)
    requires 0 <= n < B64 && B <= d < B64 && s < 32 && v == d / Pow2(32 - s) && 0x8000_0000 <= v < B
    ensures n / d <= n / 2 / v / Pow2(31 - s) <= n / d + 1
  {
    Pow2Add(s + 1, 32 - s);
    Pow2Words();
    EstimateBy(n, d, v, Pow2(31 - s), Pow2(32 - s), Pow2(s + 1));
  }

  lemma EstimateBy(n: int, d: int, v: int, h: int, p: int, r: int)
    requires 0 <= n < B64 && h > 0 && p == 2 * h && r * p == 2 * B && v == d / p && 0x8000_0000 <= v && d > 0
    ensures n / d <= n / 2 / v / h <= n / d + 1
  {
    DivideThrice(n, v, h, p);
    QuotientBounds(d, p);
    assert (v + 1) * p == v * p + p;
    TruncatedDivisor(n, d, v, p, r);
  }

  lemma OneOff(n: int, d: int, est: int)
    requires 0 < d <= n < B64 && n / d <= est <= n / d + 1
    ensures var m := (n - (est - 1) * d) % B64;
            1 <= est && (if m < d then est - 1 else est) == n / d
  {
    QuotientBounds(n, d);
    assert n / d >= 1 by { LessByOne(0, n / d, d); }
    if est == n / d {
      assert (est - 1) * d == n / d * d - d;
    } else {
      assert (est - 1) * d == n / d * d;
    }
  }

  // ---- umod64, sdiv64, smod64 ----

  /** Truncation to 32 and reading 32 or 64 bits as two's complement. */
  function Signed32(x: int): int {
    var r := x % B;
    if r < 0x8000_0000 then r else r - B
  }

  function Signed64(x: int): int {
    var r := x % B64;
    if r < 0x8000_0000_0000_0000 then r else r - B64
  }

  /** C division: truncation toward zero, and the remainder that goes with it. */
  function TruncDiv(n: int, d: int): int
    requires d != 0
  {
    var q := Abs(n) / Abs(d);
    if (n < 0) == (d < 0) then q else -q
  }

  function TruncMod(n: int, d: int): int
    requires d != 0
  {
    n - d * TruncDiv(n, d)
  }

  /** They are the only quotient and remainder with a remainder less than the divisor, of the
      dividend's sign; so the quotient is rounded toward zero. */
  lemma TruncExactly(n: int, d: int, q: int, r: int)
    requires d != 0
    ensures q == TruncDiv(n, d) && r == TruncMod(n, d) <==>
              n == d * q + r && Abs(r) < Abs(d) && (r > 0 ==> n > 0) && (r < 0 ==> n < 0)
  {
    hide TruncDiv;
    TruncRemainder(n, d);
    if n == d * q + r && Abs(r) < Abs(d) && (r > 0 ==> n > 0) && (r < 0 ==> n < 0) {
      OneQuotient(n, d, q, r, TruncDiv(n, d), TruncMod(n, d));
    }
  }

  lemma OneQuotient(n: int, d: int, q: int, r: int, q': int, r': int)
    requires d != 0 && n == d * q + r == d * q' + r' && Abs(r) < Abs(d) && Abs(r') < Abs(d)
    requires (r > 0 ==> n > 0) && (r < 0 ==> n < 0) && (r' > 0 ==> n > 0) && (r' < 0 ==> n < 0)
    ensures q == q' && r == r'
  {
    Difference(d, q, q');
    NoMultiple(d, q - q');
  }

  lemma TruncRemainder(n: int, d: int)
    requires d != 0
    ensures var r := TruncMod(n, d); Abs(r) < Abs(d) && (r > 0 ==> n > 0) && (r < 0 ==> n < 0)
  {
    ModIs(n, d);
    hide TruncMod;
    RestBelow(Abs(n), Abs(d));
  }

  lemma RestBelow(a: int, b: int)
    requires a >= 0 && b > 0
    ensures 0 <= a % b < b && (a == 0 ==> a % b == 0)
  {
  }

  lemma ModIs(n: int, d: int)
    requires d != 0
    ensures TruncMod(n, d) == if n < 0 then 0 - Abs(n) % Abs(d) else Abs(n) % Abs(d)
  {
    var q, r: int := Abs(n) / Abs(d), Abs(n) % Abs(d);
    DivMod(Abs(n), Abs(d));
    Resigned(n, d, q, r);
  }

  /** Absolute values divided, with the signs put back. */
  lemma Resigned(n: int, d: int, q: int, r: int)
    requires d != 0 && Abs(n) == q * Abs(d) + r
    ensures n - d * (if (n < 0) == (d < 0) then q else -q) == if n < 0 then -r else r
  {
    if d < 0 {
      assert q * -d == -(d * q) && d * -q == -(d * q);
    } else {
      assert q * d == d * q && d * -q == -(d * q);
    }
  }

  lemma NoMultiple(d: int, e: int)
    requires d != 0 && Abs(d * e) < Abs(d)
    ensures e == 0
  {
    if e >= 1 {
      MulMono(1, e, Abs(d));
    } else if e <= -1 {
      MulMono(1, -e, Abs(d));
    }
  }

  function Abs(x: int): nat { if x < 0 then -x else x }

  /** umod64 returns only the low 32 bits of the remainder. */
  method Umod64(n: U64, d: U64) returns (r: U32)
    requires d != 0
    ensures r as int == n as int % d as int % B
  {
    var q := Udiv64(n, d);
    DivMod(n as int, d as int);
    r := ((n as int - d as int * q as int) % B64 % B) as U32;
  }

  method Sdiv64(n: I64, d: I64) returns (q: I64)
    requires d != 0
    ensures q as int == Signed64(TruncDiv(n as int, d as int))
  {
    var nAbs := Abs(n as int) as U64;
    var dAbs := Abs(d as int) as U64;
    var qAbs := Udiv64(nAbs, dAbs);
    AbsQuotient(n as int, d as int);
    NegatedTwice(qAbs as int);
    q := if (n < 0) == (d < 0) then Signed64(qAbs as int) as I64 else Signed64(-Signed64(qAbs as int)) as I64;
  }

  lemma NegatedTwice(a: int)
    requires 0 <= a <= 0x8000_0000_0000_0000
    ensures Signed64(-Signed64(a)) == Signed64(-a)
  {
  }

  lemma AbsQuotient(n: int, d: int)
    requires d != 0
    ensures 0 <= Abs(n) / Abs(d) <= Abs(n)
  {
    QuotientBounds(Abs(n), Abs(d));
    MulMono(1, Abs(d), Abs(n) / Abs(d));
  }

  method Smod64(n: I64, d: I64) returns (r: int)
    requires d != 0
    ensures r == Signed32(TruncMod(n as int, d as int))
  {
    var q := Sdiv64(n, d);
    SdivExactly(n as int, d as int);
    WrappedRemainder(n as int, d as int, q as int);
    r := Signed32(Signed64(n as int - Signed64(d as int * q as int)));
  }

  /** Wrapping 64-bit arithmetic on the way changes nothing in the low 32 bits. */
  lemma WrappedRemainder(n: int, d: int, q: int)
    requires d != 0 && -0x8000_0000_0000_0000 <= n < 0x8000_0000_0000_0000
    requires q == TruncDiv(n, d) || (n == -0x8000_0000_0000_0000 && d == -1 && q == -0x8000_0000_0000_0000)
    ensures Signed32(Signed64(n - Signed64(d * q))) == Signed32(TruncMod(n, d))
  {
    LowBits(d * q);
    LowBits(n - Signed64(d * q));
    var j, k := Wraps(d * q), Wraps(n - Signed64(d * q));
    SameLowBits(n - d * q, j - k);
    assert Signed64(n - Signed64(d * q)) == (n - d * q) + (j - k) * B64;
    if q != TruncDiv(n, d) { SameLowBits(TruncMod(n, d), -1); }
  }

  /** How many times 2^64 is taken off when X wraps to a signed 64-bit number. */
  function Wraps(x: int): int {
    if x % B64 < 0x8000_0000_0000_0000 then x / B64 else x / B64 + 1
  }

  lemma LowBits(x: int)
    ensures Signed64(x) == x - Wraps(x) * B64
  {
  }

  lemma SameLowBits(x: int, k: int)
    ensures Signed32(x + k * B64) == Signed32(x)
  {
    assert (x + k * B64) % B == x % B by {
      var q := x / B;
      assert x + k * B64 == (q + k * B) * B + x % B;
    }
  }

  /** sdiv64 truncates toward zero, except for the most negative number divided by -1. */
  lemma SdivExactly(n: int, d: int)
    requires d != 0 && -0x8000_0000_0000_0000 <= n < 0x8000_0000_0000_0000
    ensures Signed64(TruncDiv(n, d)) == TruncDiv(n, d) <==> !(n == -0x8000_0000_0000_0000 && d == -1)
    ensures n == -0x8000_0000_0000_0000 && d == -1 ==> Signed64(TruncDiv(n, d)) == n
  {
    AbsQuotient(n, d);
    var q := Abs(n) / Abs(d);
    assert TruncDiv(n, d) == q || TruncDiv(n, d) == -q;
    if n == -0x8000_0000_0000_0000 && d < 0 { MostNegative(-d, q); }
    FitsSigned(TruncDiv(n, d));
  }

  lemma MostNegative(d: int, q: int)
    requires d > 0 && q == 0x8000_0000_0000_0000 / d
    ensures if d == 1 then q == 0x8000_0000_0000_0000 else q < 0x8000_0000_0000_0000
  {
    if d > 1 {
      QuotientBounds(0x8000_0000_0000_0000, d);
      MulMono(2, d, q);
    }
  }

  lemma FitsSigned(x: int)
    requires -0x8000_0000_0000_0000 <= x <= 0x8000_0000_0000_0000
    ensures Signed64(x) == if x == 0x8000_0000_0000_0000 then -x else x
  {
  }

  /** umod64 is right for every n exactly when d is at most 2^32: its result type holds no
      larger remainder. */
  lemma UmodExactly(d: int)
    requires 0 < d < B64
    ensures (forall n | 0 <= n < B64 :: n % d % B == n % d) <==> d <= B
  {
    if d > B { assert B % d == B by { QuotientUnique(B, d, 0); } }
  }

  /** smod64 is right for every n exactly when the magnitude of d is at most 2^31. */
  lemma SmodExactly(d: int)
    requires d != 0 && Abs(d) <= 0x8000_0000_0000_0000
    ensures (forall n | -0x8000_0000_0000_0000 <= n < 0x8000_0000_0000_0000 ::
                Signed32(TruncMod(n, d)) == TruncMod(n, d))
       <==> Abs(d) <= 0x8000_0000
  {
    forall n | -0x8000_0000_0000_0000 <= n < 0x8000_0000_0000_0000 ensures Abs(TruncMod(n, d)) < Abs(d) {
      RemainderSmall(n, d);
    }
    if Abs(d) > 0x8000_0000 {
      QuotientUnique(0x8000_0000, Abs(d), 0);
      assert TruncMod(0x8000_0000, d) == 0x8000_0000;
    }
  }

  lemma RemainderSmall(n: int, d: int)
    requires d != 0
    ensures Abs(TruncMod(n, d)) < Abs(d)
  {
    var q := Abs(n) / Abs(d);
    QuotientBounds(Abs(n), Abs(d));
    assert (q + 1) * Abs(d) == q * Abs(d) + Abs(d);
    assert d * TruncDiv(n, d) == (if n < 0 then -(q * Abs(d)) else q * Abs(d));
  }
}
