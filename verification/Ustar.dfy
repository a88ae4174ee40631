/** lib/ustar.c: headers of ustar archives. Characters are bytes. */
module Ustar {
  import opened Common
  import opened Printf
  import opened Vprintf
  import opened Formats

  const HEADER_SIZE: nat := 512
  const REGULAR: char := '0'
  const DIRECTORY: char := '5'
  const ULONG_MAX: nat := 0xFFFF_FFFF
  const INT_MAX: nat := 0x7FFF_FFFF

  // ---- names ----

  /** strip_antisocial_prefixes */
  function Strip(s: string): string {
    if "/" <= s then Strip(s[1..])
    else if "./" <= s then Strip(s[2..])
    else if "../" <= s then Strip(s[3..])
    else if s == "" || s == ".." then "."
    else s
  }

  /** strchr (s, '/') + 1 */
  function AfterSlash(s: string): (r: string)
    requires '/' in s
    ensures |r| < |s|
  {
    if s[0] == '/' then s[1..] else AfterSlash(s[1..])
  }

  /** Its loop; each round drops up to the next slash. */
  method StripPrefixes(name: string) returns (s: string)
    ensures s == Strip(name)
  {
    s := name;
    while "/" <= s || "./" <= s || "../" <= s
      invariant Strip(s) == Strip(name)
      decreases |s|
    {
      DropsPrefix(s);
      s := AfterSlash(s);
    }
    if s == "" || s == ".." {
      s := ".";
    }
  }

  lemma DropsPrefix(s: string)
    requires "/" <= s || "./" <= s || "../" <= s
    ensures '/' in s && AfterSlash(s) == if "/" <= s then s[1..] else if "./" <= s then s[2..] else s[3..]
  {
    if "/" <= s {
      assert s[0] == '/';
    } else if "./" <= s {
      assert s[0] == '.' && s[1] == '/' && s[1..][0] == '/' && s[1..][1..] == s[2..];
    } else {
      assert s[0] == '.' && s[1] == '.' && s[2] == '/' && s[1..][0] == '.' && s[1..][1..] == s[2..] && s[2..][0] == '/'
             && s[2..][1..] == s[3..];
    }
  }

  /** The result is harmless and stripping it again changes nothing. */
  lemma {:induction false} StripSafe(s: string)
    ensures var r := Strip(s);
            && !("/" <= r) && !("./" <= r) && !("../" <= r) && r != "" && r != ".." && Strip(r) == r
            && (r == "." || (|r| <= |s| && r == s[|s| - |r|..]))
    ensures |Strip(s)| <= |s| + 1
    decreases |s|
  {
    if "/" <= s {
      StripSafe(s[1..]);
    } else if "./" <= s {
      StripSafe(s[2..]);
    } else if "../" <= s {
      StripSafe(s[3..]);
    } else {
      assert "."[0] == '.' && (s != "" ==> s[|s| - |s|..] == s);
    }
  }

  /** The prefixes that are not wanted. */
  predicate IsPiece(x: string) { x == "/" || x == "./" || x == "../" }

  ghost predicate Harmless(r: string) { forall x | IsPiece(x) :: !(x <= r) }

  function Concat(xs: seq<string>): string { if xs == [] then "" else xs[0] + Concat(xs[1..]) }

  /** What is stripped is all such prefixes in a row and nothing else: the rest is kept as it is,
      or "." stands for it if it is empty or "..". */
  lemma {:induction false} StripExactly(xs: seq<string>, r: string)
    requires (forall x | x in xs :: IsPiece(x)) && Harmless(r)
    ensures Strip(Concat(xs) + r) == if r == "" || r == ".." then "." else r
  {
    if xs == [] {
      assert "" + r == r && IsPiece("/") && IsPiece("./") && IsPiece("../");
    } else {
      assert xs[0] in xs;
      var rest := Concat(xs[1..]) + r;
      assert Concat(xs) + r == xs[0] + rest;
      OnePiece(xs[0], rest);
      StripExactly(xs[1..], r);
    }
  }

  lemma OnePiece(x: string, rest: string)
    requires IsPiece(x)
    ensures Strip(x + rest) == Strip(rest)
  {
    var s := x + rest;
    assert s[|x|..] == rest;
    if x == "/" {
      assert s[0] == '/';
    } else if x == "./" {
      assert s[0] == '.' && s[1] == '/';
    } else {
      assert s[0] == '.' && s[1] == '.' && s[2] == '/';
    }
  }

  /** Every name is of that form. */
  lemma {:induction false} StripSplits(s: string) returns (xs: seq<string>, r: string)
    ensures (forall x | x in xs :: IsPiece(x)) && Harmless(r) && s == Concat(xs) + r
    decreases |s|
  {
    var n := if "/" <= s then 1 else if "./" <= s then 2 else if "../" <= s then 3 else 0;
    if n == 0 {
      xs, r := [], s;
    } else {
      var ys;
      ys, r := StripSplits(s[n..]);
      xs := [s[..n]] + ys;
      assert xs[1..] == ys && s == s[..n] + s[n..];
      assert s == s[..n] + (Concat(ys) + r) == s[..n] + Concat(ys) + r;
    }
  }

  // ---- octal fields ----

  /** parse_octal_field on the rest S of a field; FIRST at its first character. */
  function OctalField(s: string, acc: nat, first: bool): Option<nat> {
    if s == [] then None
    else if '0' <= s[0] <= '7' then
      if acc > ULONG_MAX / 8 then None else OctalField(s[1..], s[0] as int - '0' as int + acc * 8, false)
    else if s[0] == ' ' || s[0] == '\0' then if first then None else Some(acc)
    else None
  }

  method ParseOctalField(s: string) returns (r: Option<nat>)
    ensures r == OctalField(s, 0, true)
  {
    var value, ofs := 0, 0;
    while ofs < |s|
      invariant value >= 0 && ofs <= |s| && OctalField(s, 0, true) == OctalField(s[ofs..], value, ofs == 0)
    {
      var c := s[ofs];
      assert s[ofs..][0] == c && s[ofs..][1..] == s[ofs + 1..];
      if '0' <= c <= '7' {
        if value > ULONG_MAX / 8 {
          return None;
        }
        value := c as int - '0' as int + value * 8;
      } else if c == ' ' || c == '\0' {
        return if ofs > 0 then Some(value) else None;
      } else {
        return None;
      }
      ofs := ofs + 1;
    }
    return None;
  }

  /** S starts with N octal digits, then a space or a null byte. */
  predicate IsField(s: string, n: nat) {
    n < |s| && OctalDigits(s[..n]) && (s[n] == ' ' || s[n] == '\0')
  }

  /** The octal digits at the start of field S, up to a space or a null byte, stand for V. */
  ghost predicate ReadsAs(s: string, v: int) {
    exists n: nat :: 0 < n && IsField(s, n) && Up(s[..n], 0) == v <= ULONG_MAX
  }

  /** A field is accepted exactly if it starts with octal digits, at least one, that are followed by a
      space or a null byte and stand for a number that fits; and that number is its value. */
  lemma OctalFieldExactly(s: string, v: nat)
    ensures OctalField(s, 0, true) == Some(v) <==> ReadsAs(s, v)
  {
    if OctalField(s, 0, true) == Some(v) {
      var n := FieldAccepted(s, 0, true, v);
      assert IsField(s, n);
    }
    if n: nat :| 0 < n && IsField(s, n) && Up(s[..n], 0) == v <= ULONG_MAX {
      assert s == s[..n] + s[n..];
      DigitsRead(s[..n], s[n..], 0, true);
    }
  }

  lemma OneMoreDigit(s: string, n: nat, acc: nat)
    requires n < |s| && '0' <= s[0] <= '7' && OctalDigits(s[1..][..n])
    ensures OctalDigits(s[..n + 1]) && Up(s[..n + 1], acc) == Up(s[1..][..n], s[0] as int - '0' as int + acc * 8)
    ensures n + 1 < |s| ==> s[1..][n] == s[n + 1]
  {
    var d, e := s[..n + 1], s[1..][..n];
    assert d[0] == s[0];
    assert d[1..] == e;
    assert d == [d[0]] + e;
  }

  lemma {:induction false} FieldAccepted(s: string, acc: nat, first: bool, v: nat) returns (n: nat)
    requires acc <= ULONG_MAX && OctalField(s, acc, first) == Some(v)
    ensures IsField(s, n) && Up(s[..n], acc) == v <= ULONG_MAX && (first ==> n > 0)
  {
    if '0' <= s[0] <= '7' {
      n := FieldAccepted(s[1..], s[0] as int - '0' as int + acc * 8, false, v);
      OneMoreDigit(s, n, acc);
      n := n + 1;
    } else {
      n := 0;
      assert s[..0] == "";
    }
  }

  /** What "%0No" prints. */
  function Octal(value: nat, n: nat): string { Rendered(value, false, false, BASE_O, ZeroPadded(n)) }

  predicate OctalDigits(s: string) { forall ch | ch in s :: '0' <= ch <= '7' }

  lemma {:induction false} ReversedOctal(value: nat, cnt: nat)
    ensures OctalDigits(Reversed(value, BASE_O, false, cnt))
  {
    if value > 0 { ReversedOctal(value / 8, cnt + 1); }
  }

  lemma {:induction false} OctalLength(value: nat, cnt: nat, n: nat)
    requires value < Power(8, n)
    ensures |Reversed(value, BASE_O, false, cnt)| <= n
    decreases n
  {
    if value > 0 { OctalLength(value / 8, cnt + 1, n - 1); }
  }

  /** The number that octal digits after ACC stand for. */
  function Up(s: string, acc: nat): nat
    requires OctalDigits(s)
  {
    if s == [] then acc else
      assert s[0] in s && forall ch | ch in s[1..] :: ch in s;
      Up(s[1..], acc * 8 + DigitValue(s[0]))
  }

  lemma {:induction false} UpAtLeast(s: string, acc: nat)
    requires OctalDigits(s)
    ensures acc <= Up(s, acc) && (s != [] ==> 8 * acc <= Up(s, acc))
  {
    if s != [] {
      assert s[0] in s && forall ch | ch in s[1..] :: ch in s;
      UpAtLeast(s[1..], acc * 8 + DigitValue(s[0]));
    }
  }

  /** Digits and an end parse to what they stand for. */
  lemma {:induction false} DigitsRead(s: string, t: string, acc: nat, first: bool)
    requires OctalDigits(s) && Up(s, acc) <= ULONG_MAX && (s != [] || !first)
    requires t != [] && (t[0] == ' ' || t[0] == '\0')
    ensures OctalField(s + t, acc, first) == Some(Up(s, acc))
  {
    if s == [] {
      assert s + t == t;
    } else {
      assert s[0] in s && forall ch | ch in s[1..] :: ch in s;
      UpAtLeast(s, acc);
      assert (s + t)[0] == s[0] && (s + t)[1..] == s[1..] + t;
      DigitsRead(s[1..], t, acc * 8 + DigitValue(s[0]), false);
    }
  }

  lemma {:induction false} UpMore(s: string, ch: char, acc: nat)
    requires OctalDigits(s) && '0' <= ch <= '7'
    ensures OctalDigits(s + [ch]) && Up(s + [ch], acc) == Up(s, acc) * 8 + DigitValue(ch)
  {
    var t := s + [ch];
    if s == [] {
      assert t == [ch] && t[1..] == [];
    } else {
      assert s[0] in s && forall c | c in s[1..] :: c in s;
      assert t[0] == s[0] && t[1..] == s[1..] + [ch];
      UpMore(s[1..], ch, acc * 8 + DigitValue(s[0]));
    }
  }

  lemma {:induction false} UpBackwards(f: string)
    requires OctalDigits(f)
    ensures OctalDigits(Backwards(f)) && Up(Backwards(f), 0) == Value(f, 8)
  {
    if f != [] {
      assert f[0] in f && forall ch | ch in f[1..] :: ch in f;
      UpBackwards(f[1..]);
      UpMore(Backwards(f[1..]), f[0], 0);
    }
  }

  lemma {:induction false} BackwardsZeros(f: string, n: nat)
    ensures Backwards(f + Zeros(n)) == Zeros(n) + Backwards(f)
    decreases |f| + n
  {
    if f != [] {
      assert (f + Zeros(n))[1..] == f[1..] + Zeros(n) && (f + Zeros(n))[0] == f[0];
      BackwardsZeros(f[1..], n);
    } else if n > 0 {
      var z := f + Zeros(n);
      assert z[1..] == [] + Zeros(n - 1) && z[0] == '0';
      BackwardsZeros([], n - 1);
      assert Zeros(n - 1) + [] + ['0'] == Zeros(n) + [];
    }
  }

  /** A number that N octal digits can hold is rendered in just N of them and read back. */
  lemma OctalRoundTrip(value: nat, n: nat)
    requires 0 < n && value < Power(8, n) && value <= ULONG_MAX
    ensures |Octal(value, n)| == n && OctalDigits(Octal(value, n))
    ensures OctalField(Octal(value, n) + "\0", 0, true) == Some(value)
  {
    hide OctalField, Reversed, Value, Backwards, Up;
    var f := Field(value, BASE_O, ZeroPadded(n));
    ReversedOctal(value, 0);
    OctalLength(value, 0, n);
    FieldValue(value, BASE_O, ZeroPadded(n));
    assert OctalDigits(f) && |f| <= n;
    var pad := n - |f|;
    ZerosAbove(f, 8, pad);
    BackwardsZeros(f, pad);
    UpBackwards(f + Zeros(pad));
    assert Octal(value, n) == Zeros(pad) + Backwards(f);
    DigitsRead(Octal(value, n), "\0", 0, true);
  }

  // ---- checksums ----

  predicate AreBytes(s: string) { forall i | 0 <= i < |s| :: s[i] as int < 256 }

  /** The sum over the first N bytes, with the checksum field taken as spaces. */
  function Sum(h: string, n: nat): (r: nat)
    requires n <= |h| && AreBytes(h)
    ensures r <= 255 * n
  {
    if n == 0 then 0 else Sum(h, n - 1) + if 148 <= n - 1 < 156 then ' ' as int else h[n - 1] as int
  }

  /** calculate_chksum */
  method CalculateChksum(h: string) returns (chksum: nat)
    requires |h| == HEADER_SIZE && AreBytes(h)
    ensures chksum == Sum(h, HEADER_SIZE)
  {
    chksum := 0;
    for i := 0 to HEADER_SIZE
      invariant chksum == Sum(h, i)
    {
      var inField := i >= 148 && i < 156;
      chksum := chksum + if inField then ' ' as int else h[i] as int;
    }
  }

  /** The checksum does not depend on its own field. */
  lemma {:induction false} SumIgnoresField(g: string, h: string, n: nat)
    requires n <= |g| == |h| && AreBytes(g) && AreBytes(h)
             && forall i | 0 <= i < |g| && !(148 <= i < 156) :: g[i] == h[i]
    ensures Sum(g, n) == Sum(h, n)
  {
    if n > 0 { SumIgnoresField(g, h, n - 1); }
  }

  /** A header of null bytes sums up to eight spaces. */
  lemma {:induction false} SumBlank(h: string, n: nat)
    requires n <= |h| && AreBytes(h) && forall i | 0 <= i < |h| :: h[i] == '\0'
    ensures Sum(h, n) == if n <= 148 then 0 else if n <= 156 then 32 * (n - 148) else 256
  {
    if n > 0 { SumBlank(h, n - 1); }
  }

  /** A change of one byte changes the sum as much, unless it is in the field: with the blank header,
      this determines every sum. */
  lemma {:induction false} SumChanged(h: string, k: nat, ch: char, n: nat)
    requires n <= |h| && k < |h| && AreBytes(h) && ch as int < 256
    ensures AreBytes(h[k := ch])
    ensures Sum(h[k := ch], n) - Sum(h, n) == if k < n && !(148 <= k < 156) then ch as int - h[k] as int else 0
  {
    if n > 0 { SumChanged(h, k, ch, n - 1); }
  }

  // ---- headers ----

  /** H with DATA written over it at OFS. */
  function Over(h: string, ofs: nat, data: string): (r: string)
    requires ofs + |data| <= |h|
    ensures |r| == |h|
  {
    seq(|h|, i requires 0 <= i < |h| => if ofs <= i < ofs + |data| then data[i - ofs] else h[i])
  }

  function Mode(kind: char): nat { if kind == REGULAR then 0x1A4 else 0x1ED }    // 0644, 0755

  const MTIME: nat := 1136102400

  /** The fields up to the size. */
  function FrontPart(name: string, kind: char, size: nat): (h: string)
    requires |name| <= 99 && |Octal(Mode(kind), 7)| == 7 && |Octal(size, 11)| == 11
    ensures |h| == HEADER_SIZE
  {
    var h := Over(seq(HEADER_SIZE, _ => '\0'), 0, name);
    Over(Over(Over(Over(h, 100, Octal(Mode(kind), 7) + "\0"), 108, "0000000"), 116, "0000000"), 124,
         Octal(size, 11) + "\0")
  }

  /** ustar_make_header's fields except for the checksum. */
  function Unchecked(name: string, kind: char, size: nat): (h: string)
    requires |name| <= 99 && |Octal(Mode(kind), 7)| == 7 && |Octal(size, 11)| == 11 && |Octal(MTIME, 11)| == 11
    ensures |h| == HEADER_SIZE
  {
    var h := Over(FrontPart(name, kind, size), 136, Octal(MTIME, 11) + "\0");
    Over(Over(Over(Over(Over(h, 156, [kind]), 257, "ustar"), 263, "00"), 297, "root"), 265, "root")
  }

  /** The octal digits of a number, first to last. */
  function Octals(value: nat, cnt: nat): string { Backwards(Reversed(value, BASE_O, false, cnt)) }

  lemma MoreOctal(value: nat, cnt: nat, d: char, t: string) returns (u: string)
    requires value > 0 && d == "01234567"[value % 8] && Octals(value / 8, cnt + 1) == t
    ensures u == t + [d] && Octals(value, cnt) == u
  {
    u := t + [d];
    var r := Reversed(value / 8, BASE_O, false, cnt + 1);
    assert Reversed(value, BASE_O, false, cnt) == [d] + r && ([d] + r)[1..] == r;
  }

  lemma ModeFields()
    ensures Octals(0x1A4, 0) == "644" && Octals(0x1ED, 0) == "755"
  {
    hide Octals;
    NoOctals(3);
    var a2 := MoreOctal(6, 2, '6', "");
    var a1 := MoreOctal(52, 1, '4', a2);
    var a0 := MoreOctal(420, 0, '4', a1);
    var b2 := MoreOctal(7, 2, '7', "");
    var b1 := MoreOctal(61, 1, '5', b2);
    var b0 := MoreOctal(493, 0, '5', b1);
  }

  lemma TimeField()
    ensures Octals(MTIME, 0) == "10355706000"
  {
    hide Octals;
    NoOctals(11);
    var t10 := MoreOctal(1, 10, '1', "");
    var t9 := MoreOctal(8, 9, '0', t10);
    var t8 := MoreOctal(67, 8, '3', t9);
    var t7 := MoreOctal(541, 7, '5', t8);
    var t6 := MoreOctal(4333, 6, '5', t7);
    var t5 := MoreOctal(34671, 5, '7', t6);
    var t4 := MoreOctal(277368, 4, '0', t5);
    var t3 := MoreOctal(2218950, 3, '6', t4);
    var t2 := MoreOctal(17751600, 2, '0', t3);
    var t1 := MoreOctal(142012800, 1, '0', t2);
    var t0 := MoreOctal(1136102400, 0, '0', t1);
  }

  lemma NoOctals(cnt: nat)
    ensures Octals(0, cnt) == ""
  {
  }

  /** Octal digits filled up with zeros. */
  lemma Filled(value: nat, n: nat)
    requires value > 0 && |Octals(value, 0)| <= n
    ensures Octal(value, n) == Zeros(n - |Octals(value, 0)|) + Octals(value, 0)
  {
    var d := Reversed(value, BASE_O, false, 0);
    assert d + Zeros(0) == d;
    assert Field(value, BASE_O, ZeroPadded(n)) == d;
  }

  /** The two modes and the time in octal. */
  lemma ConstantFields()
    ensures Octal(0x1A4, 7) == "0000644" && Octal(0x1ED, 7) == "0000755" && Octal(MTIME, 11) == "10355706000"
  {
    hide Octal, Octals;
    ModeFields();
    TimeField();
    Filled(0x1A4, 7);
    Filled(0x1ED, 7);
    Filled(MTIME, 11);
    assert Zeros(4) == "0000" && Zeros(0) == "";
  }

  /** What a header without its checksum holds, field by field. */
  ghost predicate HasFields(h: string, name: string, kind: char, size: nat) {
    && |h| == HEADER_SIZE && AreBytes(h)
    && |name| <= 99 && h[..|name|] == name && (forall i | |name| <= i < 100 :: h[i] == '\0')
    && h[100..108] == (if kind == REGULAR then "0000644" else "0000755") + "\0"
    && h[108..116] == "0000000\0" && h[116..124] == "0000000\0"
    && h[124..136] == Octal(size, 11) + "\0" && h[136..148] == "10355706000\0"
    && h[155] == '\0' && h[156] == kind && (forall i | 157 <= i < 257 :: h[i] == '\0')
    && h[257..263] == "ustar\0" && h[263..265] == "00" && IsName(h, 265) && IsName(h, 297)
    && forall i | 329 <= i < HEADER_SIZE :: h[i] == '\0'
  }

  /** The owner's or the group's name, 32 bytes. */
  predicate IsName(h: string, at: nat)
    requires at + 32 <= |h|
  {
    h[at..at + 4] == "root" && forall i | at + 4 <= i < at + 32 :: h[i] == '\0'
  }

  lemma FieldLengths(kind: char, size: nat)
    requires size <= ULONG_MAX
    ensures |Octal(Mode(kind), 7)| == 7 && |Octal(size, 11)| == 11 && |Octal(MTIME, 11)| == 11
    ensures AreBytes(Octal(Mode(kind), 7)) && AreBytes(Octal(size, 11)) && AreBytes(Octal(MTIME, 11))
  {
    hide Octal;
    OctalPowers();
    OctalRoundTrip(Mode(kind), 7);
    OctalRoundTrip(size, 11);
    OctalRoundTrip(MTIME, 11);
    DigitsAreBytes(Octal(Mode(kind), 7));
    DigitsAreBytes(Octal(size, 11));
    DigitsAreBytes(Octal(MTIME, 11));
  }

  lemma OctalPowers()
    ensures Power(8, 7) == 0x20_0000 && Power(8, 11) == 0x2_0000_0000
  {
    assert Power(8, 4) == 0x1000;
    PowerAdd(8, 4, 3);
    assert Power(8, 3) == 0x200;
    PowerAdd(8, 4, 4);
    PowerAdd(8, 8, 3);
  }

  lemma DigitsAreBytes(s: string)
    requires OctalDigits(s)
    ensures AreBytes(s)
  {
    forall i | 0 <= i < |s| ensures s[i] as int < 256 { assert s[i] in s; }
  }

  lemma OverBytes(h: string, ofs: nat, data: string)
    requires ofs + |data| <= |h| && AreBytes(h) && AreBytes(data)
    ensures AreBytes(Over(h, ofs, data))
  {
  }

  lemma FrontFields(name: string, kind: char, size: nat)
    requires |name| <= 99 && AreBytes(name) && size <= ULONG_MAX && |Octal(Mode(kind), 7)| == 7
             && |Octal(size, 11)| == 11
    ensures var h := FrontPart(name, kind, size);
            && AreBytes(h) && h[..|name|] == name && (forall i | |name| <= i < 100 :: h[i] == '\0')
            && h[100..108] == Octal(Mode(kind), 7) + "\0" && h[108..116] == "0000000\0" && h[116..124] == "0000000\0"
            && h[124..135] == Octal(size, 11) && forall i | 135 <= i < HEADER_SIZE :: h[i] == '\0'
  {
    hide Octal;
    FieldLengths(kind, size);
    var h0 := Over(seq(HEADER_SIZE, _ => '\0'), 0, name);
    OverBytes(seq(HEADER_SIZE, _ => '\0'), 0, name);
    var h1 := Over(h0, 100, Octal(Mode(kind), 7) + "\0");
    OverBytes(h0, 100, Octal(Mode(kind), 7) + "\0");
    var h2 := Over(h1, 108, "0000000");
    OverBytes(h1, 108, "0000000");
    var h3 := Over(h2, 116, "0000000");
    OverBytes(h2, 116, "0000000");
    OverBytes(h3, 124, Octal(size, 11) + "\0");
    var h4 := Over(h3, 124, Octal(size, 11) + "\0");
    assert h4 == FrontPart(name, kind, size);
    FrontSlices(h0, h1, h2, h3, h4, Octal(Mode(kind), 7), Octal(size, 11) + "\0");
  }

  lemma FrontSlices(h0: string, h1: string, h2: string, h3: string, h4: string, mode: string, size: string)
    requires |h0| == HEADER_SIZE && |mode| == 7 && |size| == 12 && forall i | 100 <= i < HEADER_SIZE :: h0[i] == '\0'
    requires h1 == Over(h0, 100, mode + "\0") && h2 == Over(h1, 108, "0000000") && h3 == Over(h2, 116, "0000000")
             && h4 == Over(h3, 124, size)
    ensures h4[100..108] == mode + "\0" && h4[108..116] == "0000000\0" && h4[116..124] == "0000000\0"
  {
    Slice(h0, 100, mode + "\0");
    Slice(h1, 108, "0000000");
    Slice(h2, 116, "0000000");
    assert h4[100..108] == h1[100..108] && h4[108..115] == h2[108..115] && h4[116..123] == h3[116..123];
    assert h4[115] == '\0' && h4[123] == '\0';
    assert h4[108..116] == h4[108..115] + [h4[115]] && h4[116..124] == h4[116..123] + [h4[123]];
    assert "0000000\0" == "0000000" + ['\0'];
  }

  lemma Slice(h: string, ofs: nat, data: string)
    requires ofs + |data| <= |h|
    ensures Over(h, ofs, data)[ofs..ofs + |data|] == data
  {
  }

  lemma UncheckedFields(name: string, kind: char, size: nat)
    requires |name| <= 99 && AreBytes(name) && size <= ULONG_MAX && (kind == REGULAR || kind == DIRECTORY)
    requires |Octal(Mode(kind), 7)| == 7 && |Octal(size, 11)| == 11 && |Octal(MTIME, 11)| == 11
    ensures HasFields(Unchecked(name, kind, size), name, kind, size)
  {
    hide Octal, FrontPart;
    FrontFields(name, kind, size);
    FieldLengths(kind, size);
    var h0 := FrontPart(name, kind, size);
    var h1 := Over(h0, 136, Octal(MTIME, 11) + "\0");
    OverBytes(h0, 136, Octal(MTIME, 11) + "\0");
    var h2 := Over(h1, 156, [kind]);
    OverBytes(h1, 156, [kind]);
    var h3 := Over(h2, 257, "ustar");
    OverBytes(h2, 257, "ustar");
    var h4 := Over(h3, 263, "00");
    OverBytes(h3, 263, "00");
    var h5 := Over(h4, 297, "root");
    OverBytes(h4, 297, "root");
    var h6 := Over(h5, 265, "root");
    OverBytes(h5, 265, "root");
    assert h6 == Unchecked(name, kind, size);
    BackFields(h1, h2, h3, h4, h5, h6, kind);
    assert forall i | 0 <= i < 136 :: h6[i] == h0[i];
    assert h6[..|name|] == h0[..|name|] && h6[124..136] == h0[124..135] + [h0[135]];
    assert h6[100..108] == h0[100..108] && h6[108..116] == h0[108..116] && h6[116..124] == h0[116..124];
    Slice(h0, 136, Octal(MTIME, 11) + "\0");
    assert h6[136..148] == h1[136..148];
    ConstantFields();
  }

  lemma BackFields(h1: string, h2: string, h3: string, h4: string, h5: string, h6: string, kind: char)
    requires |h1| == HEADER_SIZE && forall i | 147 <= i < HEADER_SIZE :: h1[i] == '\0'
    requires h2 == Over(h1, 156, [kind]) && h3 == Over(h2, 257, "ustar") && h4 == Over(h3, 263, "00")
             && h5 == Over(h4, 297, "root") && h6 == Over(h5, 265, "root")
    ensures h6[155] == '\0' && h6[156] == kind && h6[257..263] == "ustar\0" && h6[263..265] == "00"
    ensures IsName(h6, 265) && IsName(h6, 297)
    ensures (forall i | 157 <= i < 257 :: h6[i] == '\0') && forall i | 329 <= i < HEADER_SIZE :: h6[i] == '\0'
    ensures forall i | 0 <= i < 156 :: h6[i] == h1[i]
  {
    forall k | 0 <= k < 5 ensures h6[257 + k] == "ustar"[k] {}
    assert h6[257..262] == "ustar" && h6[257..263] == h6[257..262] + [h6[262]];
    assert "ustar\0" == "ustar" + ['\0'];
    Slice(h4, 297, "root");
    Slice(h5, 265, "root");
    assert h6[297..301] == h5[297..301];
  }

  /** The checksum filled in. */
  function Checked(h: string): (r: string)
    requires |h| == HEADER_SIZE && AreBytes(h) && |Octal(Sum(h, HEADER_SIZE), 7)| == 7
    ensures |r| == HEADER_SIZE
  {
    Over(h, 148, Octal(Sum(h, HEADER_SIZE), 7) + "\0")
  }

  lemma ChecksumFits(h: string)
    requires |h| == HEADER_SIZE && AreBytes(h)
    ensures |Octal(Sum(h, HEADER_SIZE), 7)| == 7 && OctalDigits(Octal(Sum(h, HEADER_SIZE), 7))
    ensures OctalField(Octal(Sum(h, HEADER_SIZE), 7) + "\0", 0, true) == Some(Sum(h, HEADER_SIZE))
  {
    hide Octal, OctalField;
    OctalPowers();
    OctalRoundTrip(Sum(h, HEADER_SIZE), 7);
  }

  /** Writes into the header. */
  method PutAt(header: array<char>, ofs: nat, data: string)
    requires header.Length == HEADER_SIZE && ofs + |data| <= HEADER_SIZE
    modifies header
    ensures header[..] == Over(old(header[..]), ofs, data)
  {
    forall i | 0 <= i < |data| { header[ofs + i] := data[i]; }
  }

  /** snprintf of VALUE into a field of N digits and a null byte. */
  method PutOctal(header: array<char>, ofs: nat, format: string, value: nat, n: nat)
    requires header.Length == HEADER_SIZE && ofs + n + 1 <= HEADER_SIZE && value <= ULONG_MAX
    requires n > 0 && format == "%0" + Decimal(n) + "o" && |Octal(value, n)| == n
    modifies header
    ensures header[..] == Over(old(header[..]), ofs, Octal(value, n) + "\0")
  {
    hide Octal, Over, Printed, Decimal;
    OctalPrinted(n, value);
    var field := new char[n + 1](_ => '\0');
    var length := Vsnprintf(field, n + 1, format, [Num(value)]);
    assert field[..] == field[..n] + [field[n]] == Octal(value, n) + "\0";
    PutAt(header, ofs, field[..]);
  }

  lemma OctalPrinted(n: nat, value: nat)
    requires n > 0 && value <= ULONG_MAX
    ensures Printed("%0" + Decimal(n) + "o", 0, [Num(value)]) == Some(Octal(value, n))
  {
    OctalFormat(n, value);
  }

  /** Everything but the checksum; SIZE is the int seen as unsigned. */
  method FillIn(name: string, kind: char, size: nat, header: array<char>)
    requires |name| <= 99 && size <= ULONG_MAX && (kind == REGULAR || kind == DIRECTORY) && header.Length == HEADER_SIZE
    requires |Octal(Mode(kind), 7)| == 7 && |Octal(size, 11)| == 11 && |Octal(MTIME, 11)| == 11
    modifies header
    ensures header[..] == Unchecked(name, kind, size)
  {
    hide Octal, Over;
    SevenEleven();
    forall i | 0 <= i < HEADER_SIZE { header[i] := '\0'; }
    assert header[..] == seq(HEADER_SIZE, _ => '\0');
    PutAt(header, 0, name);
    PutOctal(header, 100, "%07o", Mode(kind), 7);
    PutAt(header, 108, "0000000");
    PutAt(header, 116, "0000000");
    PutOctal(header, 124, "%011o", size, 11);
    PutOctal(header, 136, "%011o", MTIME, 11);
    PutAt(header, 156, [kind]);
    PutAt(header, 257, "ustar");
    PutAt(header, 263, "00");
    PutAt(header, 297, "root");
    PutAt(header, 265, "root");
  }

  /** ustar_make_header */
  method MakeHeader(fileName: string, kind: char, size: nat, header: array<char>) returns (ok: bool)
    requires AreBytes(fileName) && size <= ULONG_MAX && (kind == REGULAR || kind == DIRECTORY)
             && header.Length == HEADER_SIZE
    modifies header
    ensures ok <==> |Strip(fileName)| <= 99
    ensures !ok ==> header[..] == old(header[..])
    ensures ok ==> IsMade(header[..], Strip(fileName), kind, size)
  {
    hide Octal, Over, Strip, Unchecked;
    var name := StripPrefixes(fileName);
    StripBytes(fileName);
    if |name| > 99 {
      return false;
    }
    FieldLengths(kind, size);
    FillIn(name, kind, size, header);
    ghost var h := header[..];
    UncheckedFields(name, kind, size);
    ChecksumFits(h);
    var chksum := CalculateChksum(header[..]);
    SevenEleven();
    PutOctal(header, 148, "%07o", chksum, 7);
    assert header[..] == Checked(h);
    ok := true;
  }

  /** H is the header of a file: its fields and their checksum. */
  ghost predicate IsMade(h: string, name: string, kind: char, size: nat) {
    exists u :: HasFields(u, name, kind, size) && |Octal(Sum(u, HEADER_SIZE), 7)| == 7 && h == Checked(u)
  }

  lemma StripBytes(s: string)
    requires AreBytes(s)
    ensures AreBytes(Strip(s))
  {
    StripSafe(s);
  }

  // ---- parsing ----

  datatype Parsed = Eof | Bad(message: string) | File(name: string, kind: char, size: nat)

  /** The C string in a field. */
  function CStr(s: string): string { if s == [] || s[0] == '\0' then [] else [s[0]] + CStr(s[1..]) }

  lemma {:induction false} CStrOf(name: string, s: string)
    requires '\0' !in name && |name| < |s| && s[..|name|] == name && s[|name|] == '\0'
    ensures CStr(s) == name
  {
    if name != [] {
      assert s[0] == name[0] && name[0] in name;
      assert s[1..][..|name| - 1] == s[..|name|][1..] == name[1..];
      CStrOf(name[1..], s[1..]);
    }
  }

  /** ustar_parse_header */
  function Parse(h: string): Parsed
    requires |h| == HEADER_SIZE && AreBytes(h)
  {
    if forall i | 0 <= i < HEADER_SIZE :: h[i] == '\0' then Eof
    else if h[257..263] != "ustar\0" then Bad("not a ustar archive")
    else if h[263] != '0' || h[264] != '0' then Bad("invalid ustar version")
    else
      var chksum := OctalField(h[148..156], 0, true);
      if chksum.None? then Bad("corrupt chksum field")
      else if chksum.value != Sum(h, HEADER_SIZE) then Bad("checksum mismatch")
      else if h[99] != '\0' || h[345] != '\0' then Bad("file name too long")
      else if h[156] != REGULAR && h[156] != DIRECTORY then Bad("unimplemented file type")
      else if h[156] == REGULAR then
        var size := OctalField(h[124..136], 0, true);
        if size.None? then Bad("corrupt file size field")
        else if size.value > INT_MAX then Bad("file too large")
        else File(Strip(CStr(h[..100])), h[156], size.value)
      else File(Strip(CStr(h[..100])), h[156], 0)
  }

  /** No single byte of a header can be changed without notice, outside the checksum itself. */
  lemma TamperingNoticed(h: string, k: nat, ch: char)
    requires |h| == HEADER_SIZE && AreBytes(h) && Parse(h).File? && k < HEADER_SIZE && !(148 <= k < 156)
    requires ch as int < 256 && ch != h[k]
    ensures AreBytes(h[k := ch]) && Parse(h[k := ch]).Bad?
  {
    hide OctalField, Sum, CStr, Strip;
    var g := h[k := ch];
    SumChanged(h, k, ch, HEADER_SIZE);
    assert g[148..156] == h[148..156];
    var sum := Sum(h, HEADER_SIZE);
    OctalFieldExactly(h[148..156], sum);
    var n: nat :| 0 < n && IsField(h[148..156], n) && Up(h[148..156][..n], 0) == sum <= ULONG_MAX;
    assert h[148..156][..n][0] in h[148..156][..n];
    assert g[148] == h[148] != '\0';
  }

  /** A header is accepted exactly if it has the magic and the version, its checksum field reads as its
      sum, its name ends within the field and has no prefix, it is of one of the two types, and the
      size of a regular file reads as an int. */
  lemma ParseExactly(h: string)
    requires |h| == HEADER_SIZE && AreBytes(h)
    ensures Parse(h) == Eof <==> forall i | 0 <= i < HEADER_SIZE :: h[i] == '\0'
    ensures Parse(h).File? <==>
              && h[257..263] == "ustar\0" && h[263] == '0' && h[264] == '0'
              && ReadsAs(h[148..156], Sum(h, HEADER_SIZE)) && h[99] == '\0' && h[345] == '\0'
              && (h[156] == DIRECTORY || (h[156] == REGULAR
                      && exists v :: 0 <= v <= INT_MAX && ReadsAs(h[124..136], v)))
    ensures Parse(h).File? ==>
              && Parse(h).name == Strip(CStr(h[..100])) && Parse(h).kind == h[156]
              && (h[156] == DIRECTORY ==> Parse(h).size == 0)
              && (h[156] == REGULAR ==> ReadsAs(h[124..136], Parse(h).size))
  {
    hide OctalField, Sum, CStr, Strip, ReadsAs;
    forall v: nat ensures OctalField(h[148..156], 0, true) == Some(v) <==> ReadsAs(h[148..156], v) {
      OctalFieldExactly(h[148..156], v);
    }
    forall v: nat ensures OctalField(h[124..136], 0, true) == Some(v) <==> ReadsAs(h[124..136], v) {
      OctalFieldExactly(h[124..136], v);
    }
    assert h[257..263] == "ustar\0" ==> h[257] == h[257..263][0] == 'u';
  }

  /** Reading back a header that was made gives the stripped name, the type and the size. */
  lemma HeaderRoundTrip(h: string, fileName: string, kind: char, size: nat)
    requires '\0' !in fileName && size <= INT_MAX && (kind == REGULAR || kind == DIRECTORY) && |Strip(fileName)| <= 99
    requires IsMade(h, Strip(fileName), kind, size)
    ensures |h| == HEADER_SIZE && AreBytes(h)
    ensures Parse(h) == File(Strip(fileName), kind, if kind == REGULAR then size else 0)
  {
    hide Octal, OctalField, Strip, CStr, Parse;
    var name := Strip(fileName);
    var u :| HasFields(u, name, kind, size) && |Octal(Sum(u, HEADER_SIZE), 7)| == 7 && h == Checked(u);
    CheckedFields(u, h, name, kind, size);
    OctalPowers();
    OctalRoundTrip(size, 11);
    StripSafe(fileName);
    StripNoNul(fileName);
    NameRead(h, name, kind, size);
    ParseMade(h, name, kind, size);
  }

  lemma StripNoNul(s: string)
    requires '\0' !in s
    ensures '\0' !in Strip(s)
  {
    StripSafe(s);
  }

  lemma NameRead(h: string, name: string, kind: char, size: nat)
    requires HasFields(h, name, kind, size) && '\0' !in name
    ensures CStr(h[..100]) == name
  {
    hide Octal;
    assert h[..100][..|name|] == h[..|name|];
    CStrOf(name, h[..100]);
  }

  lemma ParseMade(h: string, name: string, kind: char, size: nat)
    requires HasFields(h, name, kind, size) && size <= INT_MAX && (kind == REGULAR || kind == DIRECTORY)
    requires CStr(h[..100]) == name && Strip(name) == name
    requires OctalField(h[148..156], 0, true) == Some(Sum(h, HEADER_SIZE))
             && OctalField(Octal(size, 11) + "\0", 0, true) == Some(size)
    ensures |h| == HEADER_SIZE && AreBytes(h) && Parse(h) == File(name, kind, if kind == REGULAR then size else 0)
  {
    hide Octal, OctalField, Strip, CStr, Sum;
    assert h[156] != '\0';
    assert h[263] == h[263..265][0] && h[264] == h[263..265][1];
  }

  /** The checksum is right and the other fields are as they were. */
  lemma CheckedFields(u: string, h: string, name: string, kind: char, size: nat)
    requires HasFields(u, name, kind, size) && |Octal(Sum(u, HEADER_SIZE), 7)| == 7 && h == Checked(u)
    ensures HasFields(h, name, kind, size) && OctalField(h[148..156], 0, true) == Some(Sum(h, HEADER_SIZE))
  {
    hide Octal, OctalField;
    ChecksumFits(u);
    DigitsAreBytes(Octal(Sum(u, HEADER_SIZE), 7));
    OverBytes(u, 148, Octal(Sum(u, HEADER_SIZE), 7) + "\0");
    SumIgnoresField(u, h, HEADER_SIZE);
    assert h[148..155] == Octal(Sum(u, HEADER_SIZE), 7);
    assert h[148..156] == h[148..155] + "\0";
    assert h[..|name|] == u[..|name|] && h[124..136] == u[124..136] && h[257..263] == u[257..263]
           && h[263..265] == u[263..265];
  }
}
