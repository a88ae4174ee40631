/** lib/stdio.c, integer conversions, with atoi of lib/stdlib.c. */
module Printf {
  datatype Flags = Flags(minus: bool, plus: bool, space: bool, pound: bool, zero: bool, group: bool)

  /** struct printf_conversion, without the type of the argument. */
  datatype Conversion = Conversion(flags: Flags, width: nat, precision: int)

  /** struct integer_base; '\0' when there is no `x' character. */
  datatype Base = Base(base: nat, digits: string, x: char, group: nat)

  const BASE_D: Base := Base(10, "0123456789", '\0', 3)
  const BASE_O: Base := Base(8, "01234567", '\0', 3)
  const BASE_X: Base := Base(16, "0123456789abcdef", 'x', 4)
  const BASE_UPPER_X: Base := Base(16, "0123456789ABCDEF", 'X', 4)

  predicate IsBase(b: Base) { b == BASE_D || b == BASE_O || b == BASE_X || b == BASE_UPPER_X }

  const BUF_SIZE: nat := 64

  // ---- what format_integer renders ----

  /** The digits of VALUE from the last to the first, with commas; CNT digits came before. */
  function Reversed(value: nat, b: Base, group: bool, cnt: nat): string
    requires IsBase(b)
  {
    if value == 0 then []
    else (if group && cnt > 0 && cnt % b.group == 0 then [','] else [])
         + [b.digits[value % b.base]] + Reversed(value / b.base, b, group, cnt + 1)
  }

  function Zeros(n: nat): string { seq(n, _ => '0') }

  function Spaces(n: nat): string { seq(n, _ => ' ') }

  /** The number as it is left in the buffer, last character first. */
  function Field(value: nat, b: Base, c: Conversion): string
    requires IsBase(b)
  {
    var d := Reversed(value, b, c.flags.group, 0);
    var p := if c.precision < 0 then 1 else if c.precision < BUF_SIZE - 1 then c.precision else BUF_SIZE - 1;
    var e := d + Zeros(if |d| < p then p - |d| else 0);
    if c.flags.pound && b.base == 8 && (e == [] || e[|e| - 1] != '0') then e + ['0'] else e
  }

  function Sign(isSigned: bool, negative: bool, flags: Flags): string {
    if !isSigned then "" else if negative then "-" else if flags.plus then "+" else if flags.space then " " else ""
  }

  function Prefix(value: nat, b: Base, flags: Flags): string {
    if flags.pound && value > 0 && b.x != '\0' then ['0', b.x] else ""
  }

  /** The characters that must be shown. */
  function Needed(value: nat, isSigned: bool, negative: bool, b: Base, c: Conversion): nat
    requires IsBase(b)
  {
    |Sign(isSigned, negative, c.flags)| + |Prefix(value, b, c.flags)| + |Field(value, b, c)|
  }

  function Pad(value: nat, isSigned: bool, negative: bool, b: Base, c: Conversion): nat
    requires IsBase(b)
  {
    var n := Needed(value, isSigned, negative, b, c);
    if n < c.width then c.width - n else 0
  }

  function Backwards(s: string): (r: string)
    ensures |r| == |s|
  {
    if s == [] then [] else Backwards(s[1..]) + [s[0]]
  }

  lemma {:induction false} BackwardsAt(s: string)
    ensures forall k | 0 <= k < |s| :: Backwards(s)[k] == s[|s| - 1 - k]
  {
    if s != [] { BackwardsAt(s[1..]); }
  }

  lemma BackwardsTwice(s: string)
    ensures Backwards(Backwards(s)) == s
  {
    hide Backwards;
    BackwardsAt(s);
    BackwardsAt(Backwards(s));
  }

  function Rendered(value: nat, isSigned: bool, negative: bool, b: Base, c: Conversion): string
    requires IsBase(b)
  {
    var pad := Pad(value, isSigned, negative, b, c);
    (if !c.flags.minus && !c.flags.zero then Spaces(pad) else "")
    + Sign(isSigned, negative, c.flags) + Prefix(value, b, c.flags)
    + (if c.flags.zero then Zeros(pad) else "")
    + Backwards(Field(value, b, c))
    + (if c.flags.minus then Spaces(pad) else "")
  }

  /** The field is exactly as wide as it should be, unless both '-' and '0' are in force and
      there is something to pad: then the padding is there twice. */
  lemma WidthExactly(value: nat, isSigned: bool, negative: bool, b: Base, c: Conversion)
    requires IsBase(b)
    ensures var n := Needed(value, isSigned, negative, b, c);
            |Rendered(value, isSigned, negative, b, c)| == (if n < c.width then c.width else n) <==>
                  !(c.flags.minus && c.flags.zero && n < c.width)
  {
  }

  // ---- what it means ----

  /** The value of a digit. */
  function DigitValue(ch: char): nat {
    if '0' <= ch <= '9' then ch as int - '0' as int
    else if 'a' <= ch <= 'f' then ch as int - 'a' as int + 10
    else if 'A' <= ch <= 'F' then ch as int - 'A' as int + 10
    else 0
  }

  /** The number that digits, last first, stand for; commas do not count. */
  function Value(s: string, base: nat): nat {
    if s == [] then 0 else if s[0] == ',' then Value(s[1..], base) else DigitValue(s[0]) + base * Value(s[1..], base)
  }

  lemma DigitsOf(b: Base, k: nat)
    requires IsBase(b) && k < b.base
    ensures k < |b.digits| && b.digits[k] != ',' && DigitValue(b.digits[k]) == k
  {
  }

  lemma ValueOf(ch: char, rest: string, base: nat)
    ensures Value([ch] + rest, base) == if ch == ',' then Value(rest, base)
              else DigitValue(ch) + base * Value(rest, base)
  {
    assert ([ch] + rest)[1..] == rest;
  }

  lemma Divided(value: nat, b: Base)
    requires IsBase(b)
    ensures value % b.base + b.base * (value / b.base) == value
  {
  }

  lemma {:induction false} ReversedValue(value: nat, b: Base, group: bool, cnt: nat)
    requires IsBase(b)
    ensures Value(Reversed(value, b, group, cnt), b.base) == value
  {
    hide Value, DigitValue;
    if value > 0 {
      var rest, ch := Reversed(value / b.base, b, group, cnt + 1), b.digits[value % b.base];
      ReversedValue(value / b.base, b, group, cnt + 1);
      DigitsOf(b, value % b.base);
      Divided(value, b);
      ValueOf(ch, rest, b.base);
      if group && cnt > 0 && cnt % b.group == 0 {
        ValueOf(',', [ch] + rest, b.base);
        assert Reversed(value, b, group, cnt) == [','] + ([ch] + rest);
      } else {
        assert Reversed(value, b, group, cnt) == [ch] + rest;
      }
    } else {
      NoValue(b.base);
    }
  }

  lemma NoValue(base: nat)
    ensures Value([], base) == 0
  {
  }

  lemma {:induction false} ZerosAbove(s: string, base: nat, n: nat)
    ensures Value(s + Zeros(n), base) == Value(s, base)
    decreases |s| + n
  {
    if s != [] {
      assert (s + Zeros(n))[1..] == s[1..] + Zeros(n);
      ZerosAbove(s[1..], base, n);
    } else if n > 0 {
      assert (s + Zeros(n))[1..] == [] + Zeros(n - 1);
      ZerosAbove([], base, n - 1);
    } else {
      assert s + Zeros(n) == s;
    }
  }

  /** The digits, commas removed, evaluate to the value. */
  lemma FieldValue(value: nat, b: Base, c: Conversion)
    requires IsBase(b)
    ensures Value(Field(value, b, c), b.base) == value
  {
    hide Value, Reversed;
    var d := Reversed(value, b, c.flags.group, 0);
    ReversedValue(value, b, c.flags.group, 0);
    var p := if c.precision < 0 then 1 else if c.precision < BUF_SIZE - 1 then c.precision else BUF_SIZE - 1;
    var n := if |d| < p then p - |d| else 0;
    ZerosAbove(d, b.base, n);
    ZerosAbove(d + Zeros(n), b.base, 1);
    assert Zeros(1) == ['0'];
  }

  function Power(base: nat, n: nat): nat { if n == 0 then 1 else base * Power(base, n - 1) }

  lemma {:induction false} DigitCount(value: nat, b: Base, group: bool, cnt: nat, n: nat)
    requires IsBase(b) && value < Power(b.base, n)
    ensures |Reversed(value, b, group, cnt)| <= 2 * n
    decreases n
  {
    if value > 0 { DigitCount(value / b.base, b, group, cnt + 1, n - 1); }
  }

  lemma WordDigits(value: nat, b: Base)
    requires IsBase(b) && value < 0x1_0000_0000_0000_0000
    ensures value < Power(b.base, 22)
  {
    assert Power(8, 4) == 4096 && Power(10, 4) == 10000 && Power(16, 4) == 65536;
    PowerAdd(b.base, 4, 4);
    PowerAdd(b.base, 8, 8);
    PowerAdd(b.base, 16, 4);
    PowerAdd(b.base, 20, 2);
  }

  lemma {:induction false} PowerAdd(base: nat, m: nat, n: nat)
    ensures Power(base, m + n) == Power(base, m) * Power(base, n)
  {
    if m > 0 {
      PowerAdd(base, m - 1, n);
      assert base * (Power(base, m - 1) * Power(base, n)) == Power(base, m) * Power(base, n);
    }
  }

  /** format_integer's buffer is large enough for every 64-bit value. */
  lemma FieldFits(value: nat, b: Base, c: Conversion)
    requires IsBase(b) && value < 0x1_0000_0000_0000_0000
    ensures |Reversed(value, b, c.flags.group, 0)| <= 44 && |Field(value, b, c)| < BUF_SIZE
  {
    WordDigits(value, b);
    DigitCount(value, b, c.flags.group, 0, 22);
  }

  // ---- format_integer ----

  /** The loop that accumulates digits; CP is the next free place of BUF. */
  method PutDigits(buf: array<char>, number: nat, b: Base, group: bool) returns (cp: nat)
    requires IsBase(b) && buf.Length == BUF_SIZE && number < 0x1_0000_0000_0000_0000
    modifies buf
    ensures cp <= 44 && buf[..cp] == Reversed(number, b, group, 0)
  {
    hide Reversed;
    WordDigits(number, b);
    DigitCount(number, b, group, 0, 22);
    ghost var all := Reversed(number, b, group, 0);
    cp := 0;
    var value: nat, digitCnt: nat := number, 0;
    while value > 0
      invariant cp <= |all| && buf[..cp] + Reversed(value, b, group, digitCnt) == all
      decreases value
    {
      ghost var rest := Reversed(value / b.base, b, group, digitCnt + 1);
      var ch := b.digits[value % b.base];
      ReversedStep(buf[..cp], value, b, group, digitCnt, ch, rest);
      if group && digitCnt > 0 && digitCnt % b.group == 0 {
        cp := Put(buf, cp, ',');
      }
      cp := Put(buf, cp, ch);
      value, digitCnt := value / b.base, digitCnt + 1;
    }
    NoDigits(b, group, digitCnt);
    assert buf[..cp] + [] == buf[..cp];
  }

  lemma NoDigits(b: Base, group: bool, cnt: nat)
    requires IsBase(b)
    ensures Reversed(0, b, group, cnt) == []
  {
  }

  lemma ReversedStep(before: string, value: nat, b: Base, group: bool, cnt: nat, ch: char, rest: string)
    requires IsBase(b) && value > 0 && ch == b.digits[value % b.base]
             && rest == Reversed(value / b.base, b, group, cnt + 1)
    ensures before + Reversed(value, b, group, cnt) ==
              (if group && cnt > 0 && cnt % b.group == 0 then before + [','] else before) + [ch] + rest
  {
  }

  /** *cp++ = ch */
  method Put(buf: array<char>, cp: nat, ch: char) returns (cp': nat)
    requires cp < buf.Length
    modifies buf
    ensures cp' == cp + 1 && buf[..cp'] == old(buf[..cp]) + [ch]
  {
    buf[cp] := ch;
    cp' := cp + 1;
  }

  /** The buffer from the digits to the last zero. */
  method PutField(buf: array<char>, value: nat, b: Base, c: Conversion) returns (cp: nat)
    requires IsBase(b) && buf.Length == BUF_SIZE && value < 0x1_0000_0000_0000_0000
    modifies buf
    ensures cp < BUF_SIZE && buf[..cp] == Field(value, b, c)
  {
    hide Reversed;
    FieldFits(value, b, c);
    cp := PutDigits(buf, value, b, c.flags.group);
    ghost var d := buf[..cp];
    var precision := if c.precision < 0 then 1 else c.precision;
    while cp < precision && cp < BUF_SIZE - 1
      invariant |d| <= cp < BUF_SIZE && buf[..cp] == d + Zeros(cp - |d|) && (cp == |d| || cp <= precision)
    {
      cp := Put(buf, cp, '0');
    }
    if c.flags.pound && b.base == 8 && (cp == 0 || buf[cp - 1] != '0') {
      cp := Put(buf, cp, '0');
    }
  }

  /** format_integer; OUT collects what is given to the output function. */
  method FormatInteger(value: nat, isSigned: bool, negative: bool, b: Base, c: Conversion) returns (out: string)
    requires IsBase(b) && value < 0x1_0000_0000_0000_0000
    ensures out == Rendered(value, isSigned, negative, b, c)
  {
    hide Field, Backwards, Sign;
    var sign := SignOf(isSigned, negative, c.flags);
    var x := if c.flags.pound && value > 0 then b.x else '\0';
    var prefix := if x != '\0' then ['0', x] else "";
    assert prefix == Prefix(value, b, c.flags);
    var buf := new char[BUF_SIZE](_ => '\0');
    var cp := PutField(buf, value, b, c);
    var digits := OutputReversed(buf, cp);
    var padCnt := c.width - cp - (if x != '\0' then 2 else 0) - |sign|;
    if padCnt < 0 {
      padCnt := 0;
    }
    assert padCnt == Pad(value, isSigned, negative, b, c);
    out := (if !c.flags.minus && !c.flags.zero then Spaces(padCnt) else "")
           + sign + prefix + (if c.flags.zero then Zeros(padCnt)
                   else "") + digits + (if c.flags.minus then Spaces(padCnt) else "");
  }

  method SignOf(isSigned: bool, negative: bool, flags: Flags) returns (sign: string)
    ensures sign == Sign(isSigned, negative, flags)
  {
    sign := "";
    if isSigned {
      if flags.plus {
        sign := if negative then "-" else "+";
      } else if flags.space {
        sign := if negative then "-" else " ";
      } else if negative {
        sign := "-";
      }
    }
  }

  /** while (cp > buf) output (*--cp) */
  method OutputReversed(buf: array<char>, n: nat) returns (out: string)
    requires n <= buf.Length
    ensures out == Backwards(buf[..n])
  {
    out := [];
    var cp: nat := n;
    assert buf[n..n] == [];
    assert Backwards([]) == [];
    while cp > 0
      invariant cp <= n && out == Backwards(buf[cp..n])
    {
      cp := cp - 1;
      assert buf[cp..n] == [buf[cp]] + buf[cp + 1..n];
      assert Backwards(buf[cp..n]) == Backwards(buf[cp + 1..n]) + [buf[cp]];
      out := out + [buf[cp]];
    }
  }

  // ---- atoi ----

  predicate IsDigit(ch: char) { '0' <= ch <= '9' }

  /** The character at position I; strings end with a null byte. */
  function At(s: string, i: nat): char { if i < |s| then s[i] else '\0' }

  predicate IsSpace(ch: char) {
    ch == ' ' || ch == '\t' || ch == '\n' || ch == '\r' || ch as int == 12 || ch as int == 11
  }

  /** atoi's accumulation, downwards from ACC. */
  function Accumulated(s: string, acc: int): int {
    if s == [] || !IsDigit(s[0]) then acc else Accumulated(s[1..], acc * 10 - (s[0] as int - '0' as int))
  }

  function AfterSpace(s: string): string {
    if s != [] && IsSpace(s[0]) then AfterSpace(s[1..]) else s
  }

  function AtoiValue(s: string): int {
    var t := AfterSpace(s);
    if t != [] && t[0] == '+' then -Accumulated(t[1..], 0)
    else if t != [] && t[0] == '-' then Accumulated(t[1..], 0)
    else -Accumulated(t, 0)
  }

  /** The accumulator only falls, so that it stays in range when the result does. */
  lemma {:induction false} AccumulatedFalls(s: string, acc: int)
    requires acc <= 0
    ensures Accumulated(s, acc) <= acc
  {
    if s != [] && IsDigit(s[0]) { AccumulatedFalls(s[1..], acc * 10 - (s[0] as int - '0' as int)); }
  }

  /** atoi, for a number that an int can hold: no step overflows. */
  method Atoi(s: string) returns (value: int)
    requires -0x8000_0000 <= AtoiValue(s) < 0x8000_0000
    ensures value == AtoiValue(s)
  {
    hide Accumulated;
    var i := 0;
    while IsSpace(At(s, i))
      invariant i <= |s| && AfterSpace(s) == AfterSpace(s[i..])
      decreases |s| - i
    {
      assert s[i..][1..] == s[i + 1..];
      i := i + 1;
    }
    var negative := false;
    ghost var t := s[i..];
    assert t == AfterSpace(s);
    if At(s, i) == '+' {
      assert t[1..] == s[i + 1..];
      i := i + 1;
    } else if At(s, i) == '-' {
      assert t[1..] == s[i + 1..];
      negative, i := true, i + 1;
    }
    value := AccumulateDigits(s, i);
    if !negative {
      value := -value;
    }
  }

  /** atoi's last loop; it counts down because the negative range is the larger one. */
  method AccumulateDigits(s: string, start: nat) returns (value: int)
    requires start <= |s| && -0x8000_0000 <= Accumulated(s[start..], 0)
    ensures value == Accumulated(s[start..], 0)
  {
    ghost var total := Accumulated(s[start..], 0);
    var i := start;
    value := 0;
    while i < |s| && IsDigit(s[i])
      invariant start <= i <= |s| && -0x8000_0000 <= value <= 0 && Accumulated(s[i..], value) == total
    {
      assert s[i..][1..] == s[i + 1..];
      value := value * 10 - (s[i] as int - '0' as int);
      AccumulatedFalls(s[i + 1..], value);
      i := i + 1;
    }
  }

  const PLAIN: Conversion := Conversion(Flags(false, false, false, false, false, false), 0, -1)

  predicate AllDigits(s: string) { forall ch | ch in s :: IsDigit(ch) }

  lemma {:induction false} AccumulatedMore(s: string, ch: char, acc: int)
    requires AllDigits(s) && IsDigit(ch)
    ensures Accumulated(s + [ch], acc) == Accumulated(s, acc) * 10 - DigitValue(ch)
  {
    if s == [] {
      assert s + [ch] == [ch] && [ch][1..] == [];
    } else {
      assert (s + [ch])[1..] == s[1..] + [ch];
      AccumulatedMore(s[1..], ch, acc * 10 - (s[0] as int - '0' as int));
    }
  }

  lemma {:induction false} BackwardsAccumulated(f: string)
    requires AllDigits(f)
    ensures AllDigits(Backwards(f)) && Accumulated(Backwards(f), 0) == -(Value(f, 10) as int)
  {
    if f != [] {
      BackwardsAccumulated(f[1..]);
      AccumulatedMore(Backwards(f[1..]), f[0], 0);
    }
  }

  lemma {:induction false} DecimalDigits(value: nat, cnt: nat)
    ensures AllDigits(Reversed(value, BASE_D, false, cnt))
  {
    if value > 0 { DecimalDigits(value / 10, cnt + 1); }
  }

  /** atoi undoes the plain conversion. */
  lemma AtoiUndoesPlain(v: int)
    requires -0x8000_0000 <= v < 0x8000_0000
    ensures AtoiValue(Rendered(if v < 0 then -v else v, true, v < 0, BASE_D, PLAIN)) == v
  {
    var n := if v < 0 then -v else v;
    var f := Field(n, BASE_D, PLAIN);
    DecimalDigits(n, 0);
    FieldValue(n, BASE_D, PLAIN);
    BackwardsAccumulated(f);
    var s := Rendered(n, true, v < 0, BASE_D, PLAIN);
    assert f != [] && Backwards(f) != [];
    if v < 0 {
      assert s == "-" + Backwards(f);
      assert s[1..] == Backwards(f);
    } else {
      assert s == Backwards(f) && s[0] in s;
    }
  }

  lemma {:induction false} AccumulatedStops(d: string, t: string, acc: int)
    requires AllDigits(d) && !IsDigit(At(t, 0))
    ensures Accumulated(d + t, acc) == Accumulated(d, acc)
  {
    if d == [] {
      assert d + t == t;
    } else {
      assert d[0] in d && (d + t)[0] == d[0] && (d + t)[1..] == d[1..] + t;
      AccumulatedStops(d[1..], t, acc * 10 - (d[0] as int - '0' as int));
    }
  }

  /** White space in C. */
  const WHITE: set<char> := {' ', '\t', '\n', '\r', 11 as char, 12 as char}

  lemma {:induction false} SkipsSpace(sp: string, t: string)
    requires (forall ch | ch in sp :: ch in WHITE) && At(t, 0) !in WHITE
    ensures AfterSpace(sp + t) == t
  {
    if sp == [] {
      assert sp + t == t;
    } else {
      assert sp[0] in sp && (sp + t)[0] == sp[0] && (sp + t)[1..] == sp[1..] + t;
      SkipsSpace(sp[1..], t);
    }
  }

  /** What atoi makes of white space, a sign or none, digits and whatever follows them. */
  lemma AtoiExactly(sp: string, sign: string, d: string, t: string)
    requires (forall ch | ch in sp :: ch in WHITE) && sign in {"", "+", "-"} && AllDigits(d) && !IsDigit(At(t, 0))
    requires sign + d == "" ==> At(t, 0) !in WHITE && At(t, 0) != '+' && At(t, 0) != '-'
    ensures AtoiValue(sp + (sign + (d + t))) == (if sign == "-" then -1 else 1) * Value(Backwards(d), 10)
  {
    hide Accumulated, AfterSpace, Value, Backwards;
    var u := sign + (d + t);
    assert d != [] ==> d[0] in d && (d + t)[0] == d[0];
    assert d == [] ==> d + t == t;
    assert sign == "" ==> u == d + t;
    assert sign != "" ==> u[0] == sign[0] && u[1..] == d + t;
    SkipsSpace(sp, u);
    AccumulatedStops(d, t, 0);
    BackwardsTwice(d);
    BackwardsDigits(d);
    BackwardsAccumulated(Backwards(d));
  }

  lemma BackwardsDigits(d: string)
    requires AllDigits(d)
    ensures AllDigits(Backwards(d))
  {
    BackwardsAt(d);
  }

  /** Every string is of that form. */
  lemma AtoiSplits(s: string) returns (sp: string, sign: string, d: string, t: string)
    ensures s == sp + (sign + (d + t)) && (forall ch | ch in sp :: ch in WHITE) && sign in {"", "+", "-"}
            && AllDigits(d)
    ensures !IsDigit(At(t, 0)) && (sign + d == "" ==> At(t, 0) !in WHITE && At(t, 0) != '+' && At(t, 0) != '-')
  {
    var i := LeadingSpace(s);
    sp := s[..i];
    var u := s[i..];
    sign := if u != [] && (u[0] == '+' || u[0] == '-') then [u[0]] else "";
    var w := u[|sign|..];
    var j := LeadingDigits(w);
    d, t := w[..j], w[j..];
    assert w == d + t && u == sign + w && s == sp + u;
  }

  lemma {:induction false} LeadingSpace(s: string) returns (n: nat)
    ensures n <= |s| && (forall ch | ch in s[..n] :: ch in WHITE) && At(s[n..], 0) !in WHITE
  {
    if s == [] || s[0] !in WHITE {
      n := 0;
    } else {
      n := LeadingSpace(s[1..]);
      assert s[..n + 1] == [s[0]] + s[1..][..n] && s[n + 1..] == s[1..][n..];
      n := n + 1;
    }
  }

  lemma {:induction false} LeadingDigits(s: string) returns (n: nat)
    ensures n <= |s| && AllDigits(s[..n]) && !IsDigit(At(s[n..], 0))
  {
    if s == [] || !IsDigit(s[0]) {
      n := 0;
    } else {
      n := LeadingDigits(s[1..]);
      assert s[..n + 1] == [s[0]] + s[1..][..n] && s[n + 1..] == s[1..][n..];
      n := n + 1;
    }
  }
}
