/** What printf formats mean: the output for every flag, width, precision, length and letter. */
module Formats {
  import opened Common
  import opened Printf
  import opened Vprintf

  // ---- conversion specifications, written out ----

  /** A letter cannot be taken for another part of a specification. */
  predicate IsLetter(ch: char) {
    !IsFlag(ch) && !IsDigit(ch) && ch !in {'*', '.', 'h', 'j', 'l', 't', 'z', '%', '\0'}
  }

  predicate AreFlags(f: string) { forall ch | ch in f :: IsFlag(ch) }

  predicate IsModifier(mod: string) {
    mod == "" || mod == "hh" || mod == "h" || mod == "j" || mod == "l" || mod == "ll" || mod == "t" || mod == "z"
  }

  /** What the modifiers stand for. */
  function LengthOf(mod: string): Length
    requires IsModifier(mod)
  {
    if mod == "hh" then Char else if mod == "h" then Short else if mod == "j" then IntMax else if mod == "l" then Long
    else if mod == "ll" then LongLong else if mod == "t" then PtrDiff else if mod == "z" then Size else Int
  }

  function PrecisionText(p: Option<nat>): string { match p case None => "" case Some(m) => "." + Decimal(m) }

  /** A specification after its '%': flags, width (none if 0), precision, modifier and letter. */
  function Tail(f: string, n: nat, p: Option<nat>, mod: string, ch: char): string {
    f + (Decimal(n) + (PrecisionText(p) + (mod + [ch])))
  }

  function Spec(f: string, n: nat, p: Option<nat>, mod: string, ch: char): string { "%" + Tail(f, n, p, mod, ch) }

  predicate IsSpec(f: string, mod: string, ch: char) { AreFlags(f) && IsModifier(mod) && IsLetter(ch) }

  /** What it asks for. */
  function Asked(f: string, n: nat, p: Option<nat>): Conversion {
    Conversion(Flags('-' in f, '+' in f, ' ' in f && '+' !in f, '#' in f, '0' in f && '-' !in f && p.None?, '\'' in f),
               n, if p.None? then -1 else p.value)
  }

  // ---- parsing gives them back ----

  lemma AtRest(s: string, i: nat)
    requires i <= |s|
    ensures At(s, i) == At(s[i..], 0)
  {
  }

  /** S from I on is A and then B. */
  lemma Skip(s: string, i: nat, a: string, b: string)
    requires i <= |s| && s[i..] == a + b
    ensures i + |a| <= |s| && s[i + |a|..] == b && At(s, i + |a|) == At(b, 0)
    ensures a != "" ==> At(s, i) == a[0]
  {
    assert s[i + |a|..] == s[i..][|a|..];
  }

  lemma {:induction false} FlagsEnd(s: string, i: nat, f: string, t: string)
    requires i <= |s| && s[i..] == f + t && AreFlags(f) && !IsFlag(At(t, 0))
    ensures FlagEnd(s, i) == i + |f|
    decreases |f|
  {
    Skip(s, i, f, t);
    if f != "" {
      assert f[0] in f && forall ch | ch in f[1..] :: ch in f;
      assert s[i + 1..] == s[i..][1..] == f[1..] + t;
      FlagsEnd(s, i + 1, f[1..], t);
    }
  }

  lemma FlagsSeen(s: string, i: nat, f: string, t: string, ch: char)
    requires i <= |s| && s[i..] == f + t && AreFlags(f) && !IsFlag(At(t, 0))
    ensures HasFlag(s, i, ch) <==> ch in f
  {
    FlagsEnd(s, i, f, t);
    forall k | 0 <= k < |f| ensures At(s, i + k) == f[k] {
      assert s[i..][k] == f[k];
    }
    if ch in f {
      var k :| 0 <= k < |f| && f[k] == ch;
      assert At(s, i + k) == ch;
    }
    if HasFlag(s, i, ch) {
      var k :| i <= k < FlagEnd(s, i) && At(s, k) == ch;
      assert f[k - i] == At(s, i + (k - i));
    }
  }

  /** A number in the text does not begin like a flag or with `*`. */
  lemma NumberStart(n: nat, t: string)
    requires !IsFlag(At(t, 0)) && At(t, 0) != '*' && !IsDigit(At(t, 0))
    ensures !IsFlag(At(Decimal(n) + t, 0)) && At(Decimal(n) + t, 0) != '*'
  {
    if n == 0 {
      assert Decimal(0) + t == t;
    } else {
      DecimalFirst(n);
    }
  }

  lemma LengthReads(s: string, i: nat, mod: string, ch: char, t: string)
    requires i <= |s| && s[i..] == mod + [ch] + t && IsModifier(mod) && IsLetter(ch)
    ensures LengthFrom(s, i) == (LengthOf(mod), i + |mod|) && At(s, i + |mod|) == ch && i + |mod| < |s|
    ensures At(s, i) == (if mod == "" then ch else mod[0])
  {
    assert forall k | 0 <= k < |mod| :: s[i + k] == s[i..][k] == mod[k];
    assert s[i + |mod|] == s[i..][|mod|] == ch;
  }

  lemma WidthReads(s: string, i: nat, j: nat, n: nat, t: string)
    requires i <= j == FlagEnd(s, i) <= |s| && s[j..] == Decimal(n) + t
    requires !IsFlag(At(t, 0)) && At(t, 0) != '*' && !IsDigit(At(t, 0))
    ensures !StarWidth(s, i) && NumberFrom(s, j, 0).0 == n && WidthEnd(s, i) == j + |Decimal(n)|
    ensures j + |Decimal(n)| <= |s| && s[j + |Decimal(n)|..] == t
  {
    hide FlagEnd, NumberFrom, Decimal;
    AtRest(s, j);
    NumberStart(n, t);
    NumberReadsBack(s, j, n, t);
    Skip(s, j, Decimal(n), t);
  }

  lemma PrecisionReads(s: string, i: nat, k: nat, p: Option<nat>, t: string)
    requires i <= k == WidthEnd(s, i) <= |s| && s[k..] == PrecisionText(p) + t
    requires !IsFlag(At(t, 0)) && At(t, 0) != '*' && !IsDigit(At(t, 0)) && At(t, 0) != '.'
    ensures HasPrecision(s, i) == p.Some? && !StarPrecision(s, i) && PrecisionEnd(s, i) == k + |PrecisionText(p)|
    ensures p.Some? ==> NumberFrom(s, k + 1, 0).0 == p.value
    ensures k + |PrecisionText(p)| <= |s| && s[k + |PrecisionText(p)|..] == t
  {
    hide WidthEnd, NumberFrom, Decimal;
    Skip(s, k, PrecisionText(p), t);
    AtRest(s, k);
    if p.Some? {
      var d := Decimal(p.value);
      assert s[k..] == "." + (d + t);
      Skip(s, k, ".", d + t);
      AtRest(s, k + 1);
      NumberStart(p.value, t);
      NumberReadsBack(s, k + 1, p.value, t);
    } else {
      assert PrecisionText(p) + t == t;
    }
  }

  /** The text after the flags, after the width and after the precision. */
  function Last(mod: string, ch: char, t: string): string { mod + [ch] + t }

  function AfterWidth(p: Option<nat>, mod: string, ch: char, t: string): string { PrecisionText(p) + Last(mod, ch, t) }

  function AfterFlags(n: nat, p: Option<nat>, mod: string, ch: char, t: string): string {
    Decimal(n) + AfterWidth(p, mod, ch, t)
  }

  lemma TailLength(f: string, n: nat, p: Option<nat>, mod: string, ch: char, t: string)
    ensures |Tail(f, n, p, mod, ch)| == |f| + |Decimal(n)| + |PrecisionText(p)| + |mod| + 1
    ensures Tail(f, n, p, mod, ch) + t == f + AfterFlags(n, p, mod, ch, t)
  {
    hide Decimal, PrecisionText;
  }

  lemma FlagsRead(s: string, i: nat, f: string, n: nat, p: Option<nat>, mod: string, ch: char, t: string)
    requires i <= |s| && s[i..] == Tail(f, n, p, mod, ch) + t && IsSpec(f, mod, ch)
    ensures forall c :: HasFlag(s, i, c) <==> c in f
    ensures FlagEnd(s, i) == i + |f| <= |s| && s[i + |f|..] == AfterFlags(n, p, mod, ch, t)
  {
    hide FlagEnd, HasFlag, Decimal, Tail, IsFlag, IsDigit, At, AfterFlags;
    var rest := AfterFlags(n, p, mod, ch, t);
    TailLength(f, n, p, mod, ch, t);
    assert !IsFlag(At(rest, 0)) by {
      PrecisionStart(p, mod, ch, t);
      NumberStart(n, AfterWidth(p, mod, ch, t));
      assert rest == Decimal(n) + AfterWidth(p, mod, ch, t) by { AfterFlagsDef(n, p, mod, ch, t); }
    }
    FlagsEnd(s, i, f, rest);
    forall c ensures HasFlag(s, i, c) <==> c in f { FlagsSeen(s, i, f, rest, c); }
    Skip(s, i, f, rest);
  }

  lemma AfterFlagsDef(n: nat, p: Option<nat>, mod: string, ch: char, t: string)
    ensures AfterFlags(n, p, mod, ch, t) == Decimal(n) + AfterWidth(p, mod, ch, t)
  {
  }

  /** Where the parts are. */
  lemma PartsRead(s: string, i: nat, f: string, n: nat, p: Option<nat>, mod: string, ch: char, t: string)
    requires i <= |s| && s[i..] == Tail(f, n, p, mod, ch) + t && IsSpec(f, mod, ch)
    ensures !StarWidth(s, i) && NumberFrom(s, FlagEnd(s, i), 0).0 == n
    ensures HasPrecision(s, i) == p.Some? && !StarPrecision(s, i)
    ensures p.Some? ==> NumberFrom(s, WidthEnd(s, i) + 1, 0).0 == p.value
    ensures LengthAt(s, i) == LengthOf(mod) && LetterAt(s, i) == i + |Tail(f, n, p, mod, ch)| - 1
    ensures LetterAt(s, i) < |s| && s[LetterAt(s, i)] == ch
  {
    hide FlagEnd, HasFlag, NumberFrom, Decimal, LengthFrom, LengthOf, WidthEnd, PrecisionEnd, StarWidth, HasPrecision,
         StarPrecision, PrecisionText, IsFlag, IsDigit, At, Tail, AfterFlags, AfterWidth, Last;
    FlagsRead(s, i, f, n, p, mod, ch, t);
    TailLength(f, n, p, mod, ch, t);
    PrecisionStart(p, mod, ch, t);
    AfterFlagsDef(n, p, mod, ch, t);
    var j := i + |f|;
    WidthReads(s, i, j, n, AfterWidth(p, mod, ch, t));
    var k := j + |Decimal(n)|;
    AfterWidthDef(p, mod, ch, t);
    PrecisionReads(s, i, k, p, Last(mod, ch, t));
    LengthReads(s, k + |PrecisionText(p)|, mod, ch, t);
    LetterRead(s, k + |PrecisionText(p)| + |mod|);
  }

  lemma AfterWidthDef(p: Option<nat>, mod: string, ch: char, t: string)
    ensures AfterWidth(p, mod, ch, t) == PrecisionText(p) + Last(mod, ch, t) && Last(mod, ch, t) == mod + [ch] + t
  {
  }

  lemma LetterRead(s: string, i: nat)
    requires i < |s|
    ensures At(s, i) == s[i]
  {
  }

  lemma PrecisionStart(p: Option<nat>, mod: string, ch: char, t: string)
    requires IsModifier(mod) && IsLetter(ch)
    ensures var a := At(Last(mod, ch, t), 0); !IsFlag(a) && a != '*' && !IsDigit(a) && a != '.'
    ensures var a := At(AfterWidth(p, mod, ch, t), 0); !IsFlag(a) && a != '*' && !IsDigit(a) && (a == '.' <==> p.Some?)
  {
    var last := mod + [ch] + t;
    assert last[0] == if mod == "" then ch else mod[0];
    if p.None? { assert PrecisionText(p) + last == last; }
  }

  lemma TailParses(s: string, i: nat, f: string, n: nat, p: Option<nat>, mod: string, ch: char, t: string,
                   args: seq<Arg>)
    requires i <= |s| && s[i..] == Tail(f, n, p, mod, ch) + t && IsSpec(f, mod, ch)
    ensures StarsGiven(s, i, args) && Stars(s, i) == 0 && ConversionAt(s, i, args) == Asked(f, n, p)
    ensures LengthAt(s, i) == LengthOf(mod) && LetterAt(s, i) == i + |Tail(f, n, p, mod, ch)| - 1
    ensures LetterAt(s, i) < |s| && s[LetterAt(s, i)] == ch
  {
    FlagsRead(s, i, f, n, p, mod, ch, t);
    PartsRead(s, i, f, n, p, mod, ch, t);
    hide HasFlag, FlagEnd, NumberFrom, Tail, LengthFrom, PrecisionEnd, LengthOf;
  }

  /** One conversion after a '%'. */
  lemma PrintedConversion(s: string, i: nat, args: seq<Arg>, used: nat, text: string)
    requires i < |s| && s[i] == '%' && At(s, i + 1) != '%'
    requires StarsGiven(s, i + 1, args) && LetterAt(s, i + 1) < |s| && Stars(s, i + 1) + used <= |args|
    requires Converted(s[LetterAt(s, i + 1)], ConversionAt(s, i + 1, args), LengthAt(s, i + 1),
                       args[Stars(s, i + 1)..]) == Some((text, used))
    ensures Printed(s, i, args) ==
              Prepend(text, Printed(s, LetterAt(s, i + 1) + 1, args[Stars(s, i + 1)..][used..]))
  {
    hide Converted, ConversionAt, LengthAt, StarsGiven, Stars, LetterAt;
  }

  /** A specification in the middle of a format. */
  lemma SpecAt(s: string, i: nat, f: string, n: nat, p: Option<nat>, mod: string, ch: char, t: string,
               args: seq<Arg>, more: seq<Arg>, text: string)
    requires i <= |s| && s[i..] == Spec(f, n, p, mod, ch) + t && IsSpec(f, mod, ch)
    requires Converted(ch, Asked(f, n, p), LengthOf(mod), args + more) == Some((text, |args|))
    ensures i + |Spec(f, n, p, mod, ch)| <= |s|
    ensures Printed(s, i, args + more) == Prepend(text, Printed(s, i + |Spec(f, n, p, mod, ch)|, more))
  {
    hide Converted, ConversionAt, LengthAt, LengthOf, StarsGiven, Stars, Asked, LetterAt, Printed, Tail, IsSpec, At;
    var u := Tail(f, n, p, mod, ch);
    assert s[i..] == "%" + (u + t);
    Skip(s, i, "%", u + t);
    LetterRead(s, i);
    TailStart(f, n, p, mod, ch, t);
    TailParses(s, i + 1, f, n, p, mod, ch, t, args + more);
    assert (args + more)[0..] == args + more && (args + more)[|args|..] == more;
    PrintedConversion(s, i, args + more, |args|, text);
  }

  lemma TailStart(f: string, n: nat, p: Option<nat>, mod: string, ch: char, t: string)
    requires IsSpec(f, mod, ch)
    ensures At(Tail(f, n, p, mod, ch) + t, 0) != '%'
  {
    hide Decimal;
    var last := Last(mod, ch, t);
    var r := AfterFlags(n, p, mod, ch, t);
    TailLength(f, n, p, mod, ch, t);
    PrecisionStart(p, mod, ch, t);
    if f != "" {
      assert f[0] in f;
    } else {
      assert f + r == r;
      if n == 0 { NoDecimal(); assert r == PrecisionText(p) + last; } else { DecimalFirst(n); }
      if n == 0 && p.None? { assert PrecisionText(p) + last == last && last[0] == if mod == "" then ch else mod[0]; }
    }
  }

  lemma NoDecimal()
    ensures Decimal(0) == ""
  {
  }

  /** On its own it prints what it converts to. */
  lemma SpecPrints(f: string, n: nat, p: Option<nat>, mod: string, ch: char, args: seq<Arg>, text: string)
    requires IsSpec(f, mod, ch) && Converted(ch, Asked(f, n, p), LengthOf(mod), args) == Some((text, |args|))
    ensures Printed(Spec(f, n, p, mod, ch), 0, args) == Some(text)
  {
    hide Converted, Asked, LengthOf;
    var s := Spec(f, n, p, mod, ch);
    assert s[0..] == s + "" && args + [] == args;
    SpecAt(s, 0, f, n, p, mod, ch, "", args, [], text);
    assert text + "" == text;
  }

  // ---- strings and characters ----

  /** U in a field of N places, to the left or to the right, with spaces. */
  predicate IsJustified(text: string, u: string, n: nat, left: bool) {
    && |text| == (if |u| < n then n else |u|)
    && if left then text[..|u|] == u && forall k | |u| <= k < |text| :: text[k] == ' '
       else text[|text| - |u|..] == u && forall k | 0 <= k < |text| - |u| :: text[k] == ' '
  }

  lemma FieldJustified(u: string, c: Conversion)
    ensures IsJustified(StringField(u, c), u, c.width, c.flags.minus)
  {
  }

  /** %s puts out the string, or its first characters if there is a precision, in a field as wide as
      asked for; "(null)" stands for a null pointer. */
  lemma StringFormat(f: string, n: nat, p: Option<nat>, mod: string, a: Arg, t: string)
    requires IsSpec(f, mod, 's') && (a == Text(t) || (a == Null && t == "(null)"))
    ensures var r := Printed(Spec(f, n, p, mod, 's'), 0, [a]);
            && r.Some?
            && IsJustified(r.value, if p.Some? && p.value < |t| then t[..p.value] else t, n, '-' in f)
  {
    hide StringField, Printed, Spec;
    var u := if p.Some? && p.value < |t| then t[..p.value] else t;
    FieldJustified(u, Asked(f, n, p));
    SpecPrints(f, n, p, mod, 's', [a], StringField(u, Asked(f, n, p)));
  }

  lemma PlainString(t: string)
    ensures Printed("%s", 0, [Text(t)]) == Some(t)
  {
    hide Printed;
    NoDecimal();
    assert Spec("", 0, None, "", 's') == "%s";
    StringFormat("", 0, None, "", Text(t), t);
  }

  /** %c puts out the one character. */
  lemma CharFormat(f: string, n: nat, p: Option<nat>, mod: string, v: int)
    requires IsSpec(f, mod, 'c')
    ensures var r := Printed(Spec(f, n, p, mod, 'c'), 0, [Num(v)]);
            r.Some? && IsJustified(r.value, [(v % 256) as char], n, '-' in f)
  {
    hide StringField, Printed, Spec;
    var u := [(v % 256) as char];
    FieldJustified(u, Asked(f, n, p));
    SpecPrints(f, n, p, mod, 'c', [Num(v)], StringField(u, Asked(f, n, p)));
  }

  // ---- numbers ----

  /** How many values a type has. */
  function Limit(mod: string): nat {
    if mod == "hh" then 0x100 else if mod == "h" then 0x1_0000
    else if mod == "ll" || mod == "j" then 0x1_0000_0000_0000_0000 else 0x1_0000_0000
  }

  predicate IsSigned(ch: char) { ch == 'd' || ch == 'i' }

  predicate IsNumeric(ch: char) { IsSigned(ch) || ch == 'o' || ch == 'u' || ch == 'x' || ch == 'X' }

  /** W is what the argument V is as a number of the type. */
  predicate IsShown(mod: string, ch: char, v: int, w: int) {
    && (v - w) % Limit(mod) == 0
    && if IsSigned(ch) then 0 <= 2 * w + Limit(mod) < 2 * Limit(mod) && w != -0x8000_0000_0000_0000
          else 0 <= w < Limit(mod)
  }

  function Radix(ch: char): nat { if ch == 'o' then 8 else if ch == 'x' || ch == 'X' then 16 else 10 }

  predicate IsDigitOf(d: char, ch: char) {
    || ('0' <= d <= '9' && d as int - '0' as int < Radix(ch))
    || (ch == 'x' && 'a' <= d <= 'f') || (ch == 'X' && 'A' <= d <= 'F')
  }

  predicate AreDigitsOf(r: string, ch: char) { forall d | d in r :: IsDigitOf(d, ch) }

  /** The least number of digits. */
  function Least(p: Option<nat>): nat { if p.None? then 1 else if p.value < 63 then p.value else 63 }

  /** B is V in digits, LEAST or more, without zeros in front beyond those; with a zero in front in any
      case if ZERO. */
  predicate IsBody(b: string, v: nat, ch: char, least: nat, zero: bool) {
    && AreDigitsOf(b, ch) && Value(Backwards(b), Radix(ch)) == v && |b| >= least
    && if zero then |b| > 0 && b[0] == '0' && (|b| > least && |b| > 1 ==> b[1] != '0')
       else |b| > least ==> b[0] != '0'
  }

  function SignText(f: string, ch: char, negative: bool): string {
    if !IsSigned(ch) then "" else if negative then "-" else if '+' in f then "+" else if ' ' in f then " " else ""
  }

  function PrefixText(f: string, ch: char, v: nat): string {
    if '#' in f && v > 0 && (ch == 'x' || ch == 'X') then ['0', ch] else ""
  }

  function BaseFor(ch: char): Base {
    if ch == 'o' then BASE_O else if ch == 'x' then BASE_X else if ch == 'X' then BASE_UPPER_X else BASE_D
  }

  function Magnitude(w: int): nat { if w < 0 then -w else w }

  /** The argument is seen as the type says. */
  lemma NumberConverts(f: string, n: nat, p: Option<nat>, mod: string, ch: char, v: int, w: int)
    requires IsSpec(f, mod, ch) && IsNumeric(ch) && IsShown(mod, ch, v, w)
    ensures Printed(Spec(f, n, p, mod, ch), 0, [Num(v)]) ==
              Some(Rendered(Magnitude(w), IsSigned(ch), w < 0, BaseFor(ch), Asked(f, n, p)))
  {
    hide Rendered, Printed, Spec, Asked;
    LimitIs(mod);
    if IsSigned(ch) {
      SignedShown(v, w, LengthOf(mod));
    } else {
      UnsignedShown(v, w, LengthOf(mod));
    }
    SpecPrints(f, n, p, mod, ch, [Num(v)], Rendered(Magnitude(w), IsSigned(ch), w < 0, BaseFor(ch), Asked(f, n, p)));
  }

  lemma LimitIs(mod: string)
    requires IsModifier(mod)
    ensures Modulus(LengthOf(mod)) == Limit(mod)
  {
  }

  lemma SignedShown(v: int, w: int, length: Length)
    requires var m := Modulus(length); (v - w) % m == 0 && 0 <= 2 * w + m < 2 * m
    ensures SignedValue(v, length) == w
  {
    var m := Modulus(length);
    if w >= 0 {
      SameRest(v, w, w, 0, m);
    } else {
      SameRest(v, w, w + m, -1, m);
    }
    Even(length);
  }

  lemma Even(length: Length)
    ensures Modulus(length) == 2 * (Modulus(length) / 2) > 0
  {
  }

  lemma UnsignedShown(v: int, w: int, length: Length)
    requires (v - w) % Modulus(length) == 0 && 0 <= w < Modulus(length)
    ensures UnsignedValue(v, length) == w
  {
    SameRest(v, w, w, 0, Modulus(length));
  }

  /** V is congruent to W, and W to R, which is in range. */
  lemma SameRest(v: int, w: int, r: int, a: int, m: nat)
    requires m > 0 && (v - w) % m == 0 && w == m * a + r && 0 <= r < m
    ensures v % m == r
  {
    var q := (v - w) / m;
    assert v == m * (q + a) + r by {
      assert v - w == m * q;
      assert m * (q + a) == m * q + m * a;
    }
    RestUnique(v, m, q + a, r);
  }

  lemma RestUnique(x: int, m: nat, a: int, r: int)
    requires m > 0 && x == m * a + r && 0 <= r < m
    ensures x % m == r
  {
    var d := a - x / m;
    assert m * d == m * a - m * (x / m) == x % m - r;
    assert d == 0;
  }

  lemma {:induction false} ReversedDigits(value: nat, ch: char, cnt: nat)
    requires IsNumeric(ch)
    ensures var r := Reversed(value, BaseFor(ch), false, cnt);
            && AreDigitsOf(r, ch) && (value == 0 ==> r == []) && (value > 0 ==> r != [] && r[|r| - 1] != '0')
  {
    hide Reversed, IsDigitOf, BaseFor;
    BaseKnown(ch);
    var b := BaseFor(ch);
    if value > 0 {
      Shrinks(value, b);
      ReversedDigits(value / b.base, ch, cnt + 1);
      OneDigit(value % b.base, ch);
      ReversedMore(value, b, cnt);
      MoreDigits(b.digits[value % b.base], Reversed(value / b.base, b, false, cnt + 1), ch);
    } else {
      NoDigits(b, false, cnt);
    }
  }

  lemma BaseKnown(ch: char)
    ensures IsBase(BaseFor(ch)) && BaseFor(ch).base == Radix(ch) == |BaseFor(ch).digits|
  {
  }

  lemma ReversedMore(value: nat, b: Base, cnt: nat)
    requires IsBase(b) && value > 0
    ensures Reversed(value, b, false, cnt) == [b.digits[value % b.base]] + Reversed(value / b.base, b, false, cnt + 1)
  {
  }

  lemma Shrinks(value: nat, b: Base)
    requires IsBase(b) && value > 0
    ensures value / b.base < value && 0 <= value % b.base < b.base && (value / b.base == 0 ==> value % b.base == value)
  {
  }

  lemma MoreDigits(d: char, r: string, ch: char)
    requires IsDigitOf(d, ch) && AreDigitsOf(r, ch)
    ensures AreDigitsOf([d] + r, ch) && (r != [] ==> ([d] + r)[|r|] == r[|r| - 1])
  {
  }

  lemma OneDigit(k: nat, ch: char)
    requires IsNumeric(ch) && k < BaseFor(ch).base
    ensures IsDigitOf(BaseFor(ch).digits[k], ch) && (k > 0 ==> BaseFor(ch).digits[k] != '0')
  {
  }

  lemma FieldBody(v: nat, ch: char, c: Conversion, p: Option<nat>)
    requires IsNumeric(ch) && !c.flags.group && c.precision == (if p.None? then -1 else p.value)
    ensures IsBody(Backwards(Field(v, BaseFor(ch), c)), v, ch, Least(p), c.flags.pound && ch == 'o')
  {
    hide Backwards, Reversed, Value, IsDigitOf;
    var e := Field(v, BaseFor(ch), c);
    ReversedDigits(v, ch, 0);
    FieldValue(v, BaseFor(ch), c);
    BackwardsTwice(e);
    BackwardsAt(e);
    assert AreDigitsOf(e, ch) by { ZeroDigit(ch); }
    forall d | d in Backwards(e) ensures IsDigitOf(d, ch) {
      var k :| 0 <= k < |e| && Backwards(e)[k] == d;
      assert e[|e| - 1 - k] in e;
    }
  }

  lemma ZeroDigit(ch: char)
    ensures IsDigitOf('0', ch)
  {
  }

  /** A number without a width: sign, prefix and digits as the flags, the precision and the letter say,
      and the digits stand for the argument. */
  lemma NumberFormat(f: string, p: Option<nat>, mod: string, ch: char, v: int, w: int) returns (b: string)
    requires IsSpec(f, mod, ch) && IsNumeric(ch) && IsShown(mod, ch, v, w) && '\'' !in f
    ensures var r := Printed(Spec(f, 0, p, mod, ch), 0, [Num(v)]);
            && r.Some? && r.value == SignText(f, ch, w < 0) + PrefixText(f, ch, Magnitude(w)) + b
            && IsBody(b, Magnitude(w), ch, Least(p), '#' in f && ch == 'o')
  {
    hide Printed, Spec, IsBody, Field, Backwards;
    NumberConverts(f, 0, p, mod, ch, v, w);
    var c, m := Asked(f, 0, p), Magnitude(w);
    b := Backwards(Field(m, BaseFor(ch), c));
    FieldBody(m, ch, c, p);
    NoPadding(m, IsSigned(ch), w < 0, BaseFor(ch), c);
    PartsAgree(f, 0, p, ch, m, w < 0);
  }

  lemma NoPadding(v: nat, isSigned: bool, negative: bool, b: Base, c: Conversion)
    requires IsBase(b) && c.width == 0
    ensures Rendered(v, isSigned, negative, b, c) ==
              Sign(isSigned, negative, c.flags) + Prefix(v, b, c.flags) + Backwards(Field(v, b, c))
  {
    hide Sign, Prefix, Field, Backwards;
    assert Zeros(0) == "" && Spaces(0) == "";
    assert Pad(v, isSigned, negative, b, c) == 0;
    var sign, prefix, body := Sign(isSigned, negative, c.flags), Prefix(v, b, c.flags), Backwards(Field(v, b, c));
    assert "" + sign + prefix + "" + body + "" == sign + prefix + body;
  }

  lemma PartsAgree(f: string, n: nat, p: Option<nat>, ch: char, v: nat, negative: bool)
    requires IsNumeric(ch)
    ensures Sign(IsSigned(ch), negative, Asked(f, n, p).flags) == SignText(f, ch, negative)
    ensures Prefix(v, BaseFor(ch), Asked(f, n, p).flags) == PrefixText(f, ch, v)
  {
  }

  /** A width adds spaces, in front or after... */
  lemma WidthFormat(f: string, n: nat, p: Option<nat>, mod: string, ch: char, v: int, w: int)
    requires IsSpec(f, mod, ch) && IsNumeric(ch) && IsShown(mod, ch, v, w)
    requires '0' !in f || '-' in f || p.Some?
    ensures var r, r0 := Printed(Spec(f, n, p, mod, ch), 0, [Num(v)]), Printed(Spec(f, 0, p, mod, ch), 0, [Num(v)]);
            r.Some? && r0.Some? && IsJustified(r.value, r0.value, n, '-' in f)
  {
    hide Printed, Spec, Field, Backwards;
    NumberConverts(f, n, p, mod, ch, v, w);
    NumberConverts(f, 0, p, mod, ch, v, w);
    SpacesAround(Magnitude(w), IsSigned(ch), w < 0, BaseFor(ch), Asked(f, n, p), Asked(f, 0, p));
  }

  lemma SpacesAround(v: nat, isSigned: bool, negative: bool, b: Base, c: Conversion, c0: Conversion)
    requires IsBase(b) && c0 == c.(width := 0) && !c.flags.zero
    ensures IsJustified(Rendered(v, isSigned, negative, b, c), Rendered(v, isSigned, negative, b, c0), c.width,
                        c.flags.minus)
  {
    hide Backwards, Field, Sign, Prefix;
    SameField(v, b, c, c0);
    NoPadding(v, isSigned, negative, b, c0);
    var sign, prefix, body := Sign(isSigned, negative, c.flags), Prefix(v, b, c.flags), Backwards(Field(v, b, c));
    var u, spaces := sign + prefix + body, Spaces(Pad(v, isSigned, negative, b, c));
    assert spaces + sign + prefix + "" + body + "" == spaces + u;
    assert "" + sign + prefix + "" + body + spaces == u + spaces;
    SpacesAdded(u, spaces, c.width, c.flags.minus);
  }

  lemma SpacesAdded(u: string, spaces: string, n: nat, left: bool)
    requires spaces == Spaces(if |u| < n then n - |u| else 0)
    ensures IsJustified(if left then u + spaces else spaces + u, u, n, left)
  {
  }

  /** ... or zeros between the sign and the prefix and the digits, if there is a '0' that nothing
      overrides. */
  lemma ZeroFormat(f: string, n: nat, mod: string, ch: char, v: int, w: int)
    requires IsSpec(f, mod, ch) && IsNumeric(ch) && IsShown(mod, ch, v, w) && '0' in f && '-' !in f
    ensures var r, r0 := Printed(Spec(f, n, None, mod, ch), 0, [Num(v)]),
                         Printed(Spec(f, 0, None, mod, ch), 0, [Num(v)]);
            var head := SignText(f, ch, w < 0) + PrefixText(f, ch, Magnitude(w));
            && r.Some? && r0.Some? && head <= r0.value
            && r.value == head + Zeros(if |r0.value| < n then n - |r0.value| else 0) + r0.value[|head|..]
  {
    hide Printed, Spec, Rendered, Sign, Prefix;
    NumberConverts(f, n, None, mod, ch, v, w);
    NumberConverts(f, 0, None, mod, ch, v, w);
    var m, b, c, c0 := Magnitude(w), BaseFor(ch), Asked(f, n, None), Asked(f, 0, None);
    PartsAgree(f, n, None, ch, m, w < 0);
    ZerosBetween(m, IsSigned(ch), w < 0, b, c, c0);
  }

  lemma ZerosBetween(v: nat, isSigned: bool, negative: bool, b: Base, c: Conversion, c0: Conversion)
    requires IsBase(b) && c0 == c.(width := 0) && c.flags.zero && !c.flags.minus
    ensures var r, r0 := Rendered(v, isSigned, negative, b, c), Rendered(v, isSigned, negative, b, c0);
            var head := Sign(isSigned, negative, c.flags) + Prefix(v, b, c.flags);
            head <= r0 && r == head + Zeros(if |r0| < c.width then c.width - |r0| else 0) + r0[|head|..]
  {
    hide Backwards, Field, Sign, Prefix;
    SameField(v, b, c, c0);
    NoPadding(v, isSigned, negative, b, c0);
    var head, body := Sign(isSigned, negative, c.flags) + Prefix(v, b, c.flags), Backwards(Field(v, b, c));
    var r0 := Rendered(v, isSigned, negative, b, c0);
    assert r0 == head + body && r0[|head|..] == body;
  }

  lemma SameField(v: nat, b: Base, c: Conversion, c0: Conversion)
    requires IsBase(b) && c0 == c.(width := 0)
    ensures Field(v, b, c) == Field(v, b, c0)
  {
  }

  /** %p is %#x. */
  lemma PointerFormat(f: string, n: nat, p: Option<nat>, mod: string, v: int)
    requires IsSpec(f, mod, 'p')
    ensures Printed(Spec(f, n, p, mod, 'p'), 0, [Num(v)]) == Printed(Spec("#", n, p, "", 'x'), 0, [Num(v)])
    ensures Printed(Spec(f, n, p, mod, 'p'), 0, [Num(v)]).Some?
  {
    hide Printed, Spec, Rendered;
    var w := v % 0x1_0000_0000;
    assert IsShown("", 'x', v, w) by {
      assert v - w == 0x1_0000_0000 * (v / 0x1_0000_0000);
    }
    NumberConverts("#", n, p, "", 'x', v, w);
    SpecPrints(f, n, p, mod, 'p', [Num(v)], Rendered(w, false, false, BASE_X, Asked("#", n, p)));
  }

  // ---- digits in groups ----

  /** The size of a group. */
  function Group(ch: char): nat { if ch == 'x' || ch == 'X' then 4 else 3 }

  /** Characters, last first, from place START on: a comma after every full group, digits elsewhere. */
  predicate ArePlaced(r: string, start: nat, ch: char) {
    forall k | 0 <= k < |r| ::
      if (start + k) % (Group(ch) + 1) == Group(ch) then r[k] == ',' else IsDigitOf(r[k], ch)
  }

  /** How many characters come before CNT digits and the comma that they may need. */
  function Start(cnt: nat, ch: char): nat { if cnt == 0 then 0 else cnt + (cnt - 1) / Group(ch) }

  lemma StartNext(cnt: nat, ch: char)
    ensures var g, comma := Group(ch), cnt > 0 && cnt % Group(ch) == 0;
            && Start(cnt + 1, ch) == Start(cnt, ch) + (if comma then 2 else 1)
            && (comma <==> Start(cnt, ch) % (g + 1) == g) && (comma ==> (Start(cnt, ch) + 1) % (g + 1) != g)
  {
    if cnt > 0 {
      if Group(ch) == 3 { ByThrees(cnt); } else { ByFours(cnt); }
    }
  }

  lemma ByThrees(cnt: nat)
    requires cnt > 0
    ensures var start := cnt + (cnt - 1) / 3;
            && cnt / 3 == (cnt - 1) / 3 + (if cnt % 3 == 0 then 1 else 0)
            && (cnt % 3 == 0 <==> start % 4 == 3) && (cnt % 3 == 0 ==> (start + 1) % 4 != 3)
  {
    var a := (cnt - 1) / 3;
    assert cnt - 1 == 3 * a + (cnt - 1) % 3 && cnt + a == 4 * a + (cnt - 1) % 3 + 1;
  }

  lemma ByFours(cnt: nat)
    requires cnt > 0
    ensures var start := cnt + (cnt - 1) / 4;
            && cnt / 4 == (cnt - 1) / 4 + (if cnt % 4 == 0 then 1 else 0)
            && (cnt % 4 == 0 <==> start % 5 == 4) && (cnt % 4 == 0 ==> (start + 1) % 5 != 4)
  {
    FullFours((cnt - 1) / 4, (cnt - 1) % 4);
  }

  lemma FullFours(a: nat, c: nat)
    requires c < 4
    ensures var cnt := 4 * a + c + 1; cnt / 4 == (if c == 3 then a + 1 else a) && (cnt % 4 == 0 <==> c == 3)
    ensures (5 * a + c + 1) % 5 == c + 1 && (5 * a + 5) % 5 == 0
  {
  }

  lemma Placed(r: string, start: nat, ch: char, d: char)
    requires ArePlaced(r, start + 1, ch)
    requires if start % (Group(ch) + 1) == Group(ch) then d == ',' else IsDigitOf(d, ch)
    ensures ArePlaced([d] + r, start, ch) && (r != [] ==> ([d] + r)[|r|] == r[|r| - 1])
  {
    hide IsDigitOf, Group;
    forall k | 0 <= k < |[d] + r|
      ensures if (start + k) % (Group(ch) + 1) == Group(ch) then ([d] + r)[k] == ',' else IsDigitOf(([d] + r)[k], ch)
    {
      if k > 0 { assert ([d] + r)[k] == r[k - 1] && start + k == start + 1 + (k - 1); }
    }
  }

  /** One more digit, and the comma that it may need. */
  lemma OneMorePlaced(r: string, d: char, cnt: nat, ch: char)
    requires ArePlaced(r, Start(cnt + 1, ch), ch) && IsDigitOf(d, ch)
    ensures ArePlaced(if cnt > 0 && cnt % Group(ch) == 0 then [','] + ([d] + r) else [d] + r, Start(cnt, ch), ch)
  {
    hide IsDigitOf, ArePlaced, Start, Group;
    StartNext(cnt, ch);
    if cnt > 0 && cnt % Group(ch) == 0 {
      Placed(r, Start(cnt, ch) + 1, ch, d);
      Placed([d] + r, Start(cnt, ch), ch, ',');
    } else {
      Placed(r, Start(cnt, ch), ch, d);
    }
  }

  lemma {:induction false} GroupedReversed(value: nat, ch: char, cnt: nat)
    requires IsNumeric(ch)
    ensures var r := Reversed(value, BaseFor(ch), true, cnt);
            && ArePlaced(r, Start(cnt, ch), ch) && (value == 0 ==> r == [])
            && (value > 0 ==> r != [] && r[|r| - 1] != '0' && r[|r| - 1] != ',')
  {
    hide Reversed, IsDigitOf, BaseFor, ArePlaced, Start, Group, IsNumeric, IsBase;
    BaseKnown(ch);
    var b := BaseFor(ch);
    if value > 0 {
      var r, d := Reversed(value / b.base, b, true, cnt + 1), b.digits[value % b.base];
      Shrinks(value, b);
      GroupedReversed(value / b.base, ch, cnt + 1);
      OneDigit(value % b.base, ch);
      NoComma(d, ch);
      GroupSize(ch);
      GroupedMore(value, b, cnt);
      OneMorePlaced(r, d, cnt, ch);
    } else {
      NoDigits(b, true, cnt);
      NonePlaced(Start(cnt, ch), ch);
    }
  }

  lemma NoComma(d: char, ch: char)
    requires IsDigitOf(d, ch)
    ensures d != ','
  {
  }

  lemma GroupSize(ch: char)
    ensures BaseFor(ch).group == Group(ch)
  {
  }

  lemma NonePlaced(start: nat, ch: char)
    ensures ArePlaced([], start, ch)
  {
  }

  lemma GroupedMore(value: nat, b: Base, cnt: nat)
    requires IsBase(b) && value > 0
    ensures var r := [b.digits[value % b.base]] + Reversed(value / b.base, b, true, cnt + 1);
            Reversed(value, b, true, cnt) == if cnt > 0 && cnt % b.group == 0 then [','] + r else r
  {
    var d, r := [b.digits[value % b.base]], Reversed(value / b.base, b, true, cnt + 1);
    assert [','] + d + r == [','] + (d + r) && [] + d + r == d + r;
  }

  /** V in digits with commas between groups. */
  predicate IsGrouped(b: string, v: nat, ch: char) {
    && b != [] && Value(Backwards(b), Radix(ch)) == v && ArePlaced(Backwards(b), 0, ch)
    && (v > 0 ==> b[0] != '0' && b[0] != ',') && (v == 0 ==> b == "0")
  }

  /** The flag ' separates groups of three digits, or of four hexadecimal ones, and changes nothing else. */
  lemma GroupFormat(mod: string, ch: char, v: int, w: int) returns (b: string)
    requires IsModifier(mod) && IsNumeric(ch) && IsShown(mod, ch, v, w)
    ensures var r := Printed(Spec("'", 0, None, mod, ch), 0, [Num(v)]);
            r.Some? && r.value == SignText("", ch, w < 0) + b && IsGrouped(b, Magnitude(w), ch)
  {
    hide Printed, Spec, Field, Backwards, Rendered, Sign, Prefix, IsGrouped;
    assert IsSpec("'", mod, ch);
    NumberConverts("'", 0, None, mod, ch, v, w);
    var c, m := Asked("'", 0, None), Magnitude(w);
    b := Backwards(Field(m, BaseFor(ch), c));
    GroupedField(m, ch, c);
    NoPadding(m, IsSigned(ch), w < 0, BaseFor(ch), c);
    PartsAgree("'", 0, None, ch, m, w < 0);
    var sign := SignText("", ch, w < 0);
    assert sign + "" + b == sign + b;
  }

  lemma GroupedField(v: nat, ch: char, c: Conversion)
    requires IsNumeric(ch) && c == Asked("'", 0, None)
    ensures IsGrouped(Backwards(Field(v, BaseFor(ch), c)), v, ch)
  {
    hide Backwards, Reversed, Value, ArePlaced;
    var e := Field(v, BaseFor(ch), c);
    GroupedReversed(v, ch, 0);
    FieldValue(v, BaseFor(ch), c);
    BackwardsTwice(e);
    BackwardsAt(e);
    if v == 0 {
      assert e == [] + Zeros(1) == "0";
      NonePlaced(1, ch);
      ZeroDigit(ch);
      Placed([], 0, ch, '0');
      assert ['0'] + [] == e;
    } else {
      var d := Reversed(v, BaseFor(ch), true, 0);
      assert d + Zeros(0) == d && c.flags.group;
      assert e == d;
      assert Backwards(e)[0] == e[|e| - 1];
    }
  }

  // ---- `*` ----

  /** A format that is one specification prints what it converts to. */
  lemma Alone(s: string, args: seq<Arg>, j: nat, c: Conversion, length: Length)
    requires |s| > 1 && s[0] == '%' && s[1] != '%' && StarsGiven(s, 1, args) && LetterAt(s, 1) == |s| - 1
    requires Stars(s, 1) == j <= |args| && ConversionAt(s, 1, args) == c && LengthAt(s, 1) == length
    ensures Printed(s, 0, args) == Outcome(s[|s| - 1], c, length, args[j..])
  {
    hide Converted, ConversionAt, LengthAt, StarsGiven, Stars, LetterAt;
    var r := Converted(s[|s| - 1], c, length, args[j..]);
    if r.Some? && r.value.1 <= |args[j..]| {
      assert Printed(s, |s|, args[j..][r.value.1..]) == Some("") && r.value.0 + "" == r.value.0;
    }
  }

  /** The text of a conversion, if there are arguments for it. */
  function Outcome(ch: char, c: Conversion, length: Length, args: seq<Arg>): Option<string> {
    match Converted(ch, c, length, args)
    case None => None
    case Some(r) => if r.1 > |args| then None else Some(r.0)
  }

  lemma SpecAlone(f: string, n: nat, p: Option<nat>, mod: string, ch: char, args: seq<Arg>)
    requires IsSpec(f, mod, ch)
    ensures Printed(Spec(f, n, p, mod, ch), 0, args) == Outcome(ch, Asked(f, n, p), LengthOf(mod), args)
  {
    hide Outcome, Asked, LengthOf, ConversionAt, LengthAt, StarsGiven, Stars, LetterAt, Tail, IsLetter, At, Printed;
    var s, u := Spec(f, n, p, mod, ch), Tail(f, n, p, mod, ch);
    assert s[1..] == u + "";
    TailParses(s, 1, f, n, p, mod, ch, "", args);
    TailStart(f, n, p, mod, ch, "");
    AtRest(s, 1);
    TailLength(f, n, p, mod, ch, "");
    LetterRead(s, 1);
    assert args[0..] == args;
    Alone(s, args, 0, Asked(f, n, p), LengthOf(mod));
  }

  /** A specification whose width is an argument. */
  function StarSpec(f: string, p: Option<nat>, mod: string, ch: char): string {
    "%" + (f + ("*" + AfterWidth(p, mod, ch, "")))
  }

  lemma StarParses(f: string, p: Option<nat>, mod: string, ch: char, w: int, args: seq<Arg>)
    requires IsSpec(f, mod, ch)
    ensures var s, more := StarSpec(f, p, mod, ch), [Num(w)] + args;
            && |s| > 1 && s[0] == '%' && s[1] != '%' && s[|s| - 1] == ch
            && StarsGiven(s, 1, more) && Stars(s, 1) == 1 && LetterAt(s, 1) == |s| - 1
            && LengthAt(s, 1) == LengthOf(mod)
            && ConversionAt(s, 1, more) == Conversion(Asked(f, 0, p).flags.(minus := '-' in f || w < 0), Magnitude(w),
                                                     Asked(f, 0, p).precision)
  {
    var s, more := StarSpec(f, p, mod, ch), [Num(w)] + args;
    StarPlaces(f, p, mod, ch);
    hide HasFlag, FlagEnd, NumberFrom, StarSpec, LengthFrom, PrecisionEnd, LengthOf;
    assert more[0] == Num(w) && more[1..] == args;
  }

  lemma StarPlaces(f: string, p: Option<nat>, mod: string, ch: char)
    requires IsSpec(f, mod, ch)
    ensures var s := StarSpec(f, p, mod, ch);
            && (forall c :: HasFlag(s, 1, c) <==> c in f) && StarWidth(s, 1)
            && HasPrecision(s, 1) == p.Some? && !StarPrecision(s, 1)
            && (p.Some? ==> NumberFrom(s, WidthEnd(s, 1) + 1, 0).0 == p.value)
            && LengthAt(s, 1) == LengthOf(mod) && LetterAt(s, 1) == |s| - 1
            && |s| > 1 && s[0] == '%' && s[1] != '%' && s[|s| - 1] == ch
  {
    hide FlagEnd, HasFlag, NumberFrom, Decimal, LengthFrom, LengthOf, PrecisionEnd, HasPrecision, WidthEnd, StarWidth,
         StarPrecision, PrecisionText, AfterWidth, Last, IsLetter, IsFlag, IsDigit, At, StarSpec;
    var s, rest := StarSpec(f, p, mod, ch), AfterWidth(p, mod, ch, "");
    StarLength(f, p, mod, ch);
    StarFlags(s, 1, f, rest);
    var j := 1 + |f|;
    AfterWidthDef(p, mod, ch, "");
    PrecisionStart(p, mod, ch, "");
    PrecisionReads(s, 1, j + 1, p, Last(mod, ch, ""));
    LengthReads(s, j + 1 + |PrecisionText(p)|, mod, ch, "");
    LetterRead(s, |s| - 1);
  }

  lemma StarLength(f: string, p: Option<nat>, mod: string, ch: char)
    ensures var s := StarSpec(f, p, mod, ch);
            && |s| == |f| + |PrecisionText(p)| + |mod| + 3 && s[0] == '%'
            && s[1..] == f + ("*" + AfterWidth(p, mod, ch, ""))
  {
    hide PrecisionText;
  }

  lemma StarFlags(s: string, i: nat, f: string, rest: string)
    requires i < |s| && s[i..] == f + ("*" + rest) && AreFlags(f)
    ensures (forall c :: HasFlag(s, i, c) <==> c in f) && StarWidth(s, i) && WidthEnd(s, i) == i + |f| + 1 <= |s|
    ensures s[i + |f| + 1..] == rest && s[i] != '%'
  {
    hide FlagEnd, HasFlag, NumberFrom;
    FlagsEnd(s, i, f, "*" + rest);
    forall c ensures HasFlag(s, i, c) <==> c in f { FlagsSeen(s, i, f, "*" + rest, c); }
    Skip(s, i, f, "*" + rest);
    Skip(s, i + |f|, "*", rest);
    assert s[i] == s[i..][0];
    assert f != "" ==> f[0] in f;
  }

  /** `*` takes the width from the arguments, and a negative one means '-' as well: it is as if the
      number were in the text, except that '-' then does not override '0'. */
  lemma StarWidthMeans(f: string, p: Option<nat>, mod: string, ch: char, w: int, args: seq<Arg>)
    requires IsSpec(f, mod, ch)
    ensures w >= 0 ==>
              Printed(StarSpec(f, p, mod, ch), 0, [Num(w)] + args) == Printed(Spec(f, w, p, mod, ch), 0, args)
    ensures w < 0 && ('0' !in f || '-' in f || p.Some?) ==>
              Printed(StarSpec(f, p, mod, ch), 0, [Num(w)] + args) == Printed(Spec(f + "-", -w, p, mod, ch), 0, args)
  {
    hide Outcome, LengthOf, ConversionAt, LengthAt, StarsGiven, Stars, LetterAt, StarSpec, Spec, Printed, IsLetter;
    var s, more := StarSpec(f, p, mod, ch), [Num(w)] + args;
    StarParses(f, p, mod, ch, w, args);
    assert more[1..] == args;
    Alone(s, more, 1, ConversionAt(s, 1, more), LengthOf(mod));
    if w >= 0 {
      SpecAlone(f, w, p, mod, ch, args);
    } else {
      assert AreFlags(f + "-");
      SpecAlone(f + "-", -w, p, mod, ch, args);
    }
  }

  /** A specification whose precision is an argument. */
  function StarPrecisionSpec(f: string, n: nat, mod: string, ch: char): string {
    "%" + (f + (Decimal(n) + (".*" + Last(mod, ch, ""))))
  }

  lemma StarPrecisionPlaces(f: string, n: nat, mod: string, ch: char)
    requires IsSpec(f, mod, ch)
    ensures var s := StarPrecisionSpec(f, n, mod, ch);
            && (forall c :: HasFlag(s, 1, c) <==> c in f) && !StarWidth(s, 1)
            && NumberFrom(s, FlagEnd(s, 1), 0).0 == n
            && HasPrecision(s, 1) && StarPrecision(s, 1)
            && LengthAt(s, 1) == LengthOf(mod) && LetterAt(s, 1) == |s| - 1
            && |s| > 1 && s[0] == '%' && s[1] != '%' && s[|s| - 1] == ch
  {
    hide FlagEnd, HasFlag, NumberFrom, Decimal, LengthFrom, LengthOf, WidthEnd, StarWidth, Last, IsFlag, IsDigit,
        IsLetter;
    var s, d, last := StarPrecisionSpec(f, n, mod, ch), Decimal(n), Last(mod, ch, "");
    var rest := ".*" + last;
    DotStart(last);
    assert s[1..] == f + (d + rest);
    NumberStart(n, rest);
    FlagsEnd(s, 1, f, d + rest);
    forall c ensures HasFlag(s, 1, c) <==> c in f { FlagsSeen(s, 1, f, d + rest, c); }
    Skip(s, 1, f, d + rest);
    var j := 1 + |f|;
    WidthReads(s, 1, j, n, rest);
    DotStar(s, 1, j + |d|, mod, ch);
    FirstPlain(s, f, n, rest);
  }

  lemma DotStart(t: string)
    ensures At(".*" + t, 0) == '.' && !IsFlag('.') && !IsDigit('.')
  {
  }

  lemma DotStar(s: string, i: nat, k: nat, mod: string, ch: char)
    requires i <= k == WidthEnd(s, i) <= |s| && s[k..] == ".*" + Last(mod, ch, "") && IsModifier(mod) && IsLetter(ch)
    ensures HasPrecision(s, i) && StarPrecision(s, i) && LengthAt(s, i) == LengthOf(mod)
    ensures LetterAt(s, i) == |s| - 1 >= 0 && s[|s| - 1] == ch
  {
    hide WidthEnd, LengthFrom, LengthOf, IsLetter;
    var last := Last(mod, ch, "");
    Skip(s, k, ".*", last);
    assert s[k..][1] == '*' && s[k + 1] == '*';
    LengthReads(s, k + 2, mod, ch, "");
  }

  lemma FirstPlain(s: string, f: string, n: nat, rest: string)
    requires |s| > 1 && s[1..] == f + (Decimal(n) + rest) && AreFlags(f) && At(rest, 0) == '.'
    ensures s[1] != '%'
  {
    hide Decimal;
    StartsPlain(n, rest);
    if f == "" {
      assert s[1] == s[1..][0] && f + (Decimal(n) + rest) == Decimal(n) + rest;
    } else {
      assert s[1] == s[1..][0] == f[0] && f[0] in f;
    }
  }

  lemma StartsPlain(n: nat, t: string)
    requires At(t, 0) != '%'
    ensures At(Decimal(n) + t, 0) != '%'
  {
    if n == 0 {
      NoDecimal();
      assert Decimal(0) + t == t;
    } else {
      DecimalFirst(n);
    }
  }

  /** And `.*` takes the precision from there; a negative one is none. */
  lemma StarPrecisionMeans(f: string, n: nat, mod: string, ch: char, m: int, args: seq<Arg>)
    requires IsSpec(f, mod, ch)
    ensures Printed(StarPrecisionSpec(f, n, mod, ch), 0, [Num(m)] + args) ==
              Printed(Spec(f, n, if m < 0 then None else Some(m), mod, ch), 0, args)
  {
    hide Outcome, LengthOf, LengthAt, LetterAt, StarPrecisionSpec, Spec, Printed, IsLetter, HasFlag, FlagEnd,
        NumberFrom,
         WidthEnd;
    var s, more := StarPrecisionSpec(f, n, mod, ch), [Num(m)] + args;
    StarPrecisionPlaces(f, n, mod, ch);
    assert more[0] == Num(m) && more[1..] == args;
    Alone(s, more, 1, Asked(f, n, if m < 0 then None else Some(m)), LengthOf(mod));
    SpecAlone(f, n, if m < 0 then None else Some(m), mod, ch, args);
  }

  // ---- whole formats ----

  /** Literal text, "%%", or a specification with its arguments and what it prints on its own. */
  datatype Piece =
    | Literal(text: string)
    | Percent
    | Conv(f: string, n: nat, p: Option<nat>, mod: string, ch: char, args: seq<Arg>, out: string)

  /** How many arguments a letter takes. */
  function Uses(ch: char): nat { if ch in {'d', 'i', 'o', 'u', 'x', 'X', 'p', 'c', 's'} then 1 else 0 }

  ghost predicate PieceOk(x: Piece) {
    match x
    case Literal(text) => '%' !in text
    case Percent => true
    case Conv(f, n, p, mod, ch, args, out) =>
      IsSpec(f, mod, ch) && |args| == Uses(ch) && Printed(Spec(f, n, p, mod, ch), 0, args) == Some(out)
  }

  function FormatOf(xs: seq<Piece>): string {
    if xs == [] then "" else
      (match xs[0]
       case Literal(text) => text
       case Percent => "%%"
       case Conv(f, n, p, mod, ch, _, _) => Spec(f, n, p, mod, ch)) + FormatOf(xs[1..])
  }

  function ArgsOf(xs: seq<Piece>): seq<Arg> {
    if xs == [] then [] else (if xs[0].Conv? then xs[0].args else []) + ArgsOf(xs[1..])
  }

  function OutputOf(xs: seq<Piece>): string {
    if xs == [] then "" else
      (match xs[0]
       case Literal(text) => text
       case Percent => "%"
       case Conv(_, _, _, _, _, _, out) => out) + OutputOf(xs[1..])
  }

  /** A format prints what its parts print, one after the other, each with its own arguments. */
  lemma WholeFormat(xs: seq<Piece>)
    requires forall x | x in xs :: PieceOk(x)
    ensures Printed(FormatOf(xs), 0, ArgsOf(xs)) == Some(OutputOf(xs))
  {
    var s := FormatOf(xs);
    assert s[0..] == s;
    PiecesAt(s, 0, xs);
  }

  lemma {:induction false} PiecesAt(s: string, i: nat, xs: seq<Piece>)
    requires (forall x | x in xs :: PieceOk(x)) && i <= |s| && s[i..] == FormatOf(xs)
    ensures Printed(s, i, ArgsOf(xs)) == Some(OutputOf(xs))
    decreases |xs|
  {
    hide PieceOk, Spec, Printed;
    if xs == [] {
      AtEnd(s, []);
    } else {
      assert xs[0] in xs;
      var rest, args := FormatOf(xs[1..]), ArgsOf(xs[1..]);
      match xs[0]
      case Literal(text) =>
        Skip(s, i, text, rest);
        PieceText(xs[0]);
        TextAt(s, i, text, rest, args);
        PiecesAt(s, i + |text|, xs[1..]);
        assert [] + args == args;
      case Percent =>
        Skip(s, i, "%%", rest);
        PercentAt(s, i, rest, args);
        PiecesAt(s, i + 2, xs[1..]);
        assert [] + args == args;
      case Conv(f, n, p, mod, ch, own, out) =>
        Skip(s, i, Spec(f, n, p, mod, ch), rest);
        ConvAt(s, i, xs[0], rest, args);
        PiecesAt(s, i + |Spec(f, n, p, mod, ch)|, xs[1..]);
    }
  }

  lemma AtEnd(s: string, args: seq<Arg>)
    ensures Printed(s, |s|, args) == Some("")
  {
  }

  lemma PieceText(x: Piece)
    requires x.Literal? && PieceOk(x)
    ensures '%' !in x.text
  {
  }

  lemma PercentAt(s: string, i: nat, t: string, args: seq<Arg>)
    requires i <= |s| && s[i..] == "%%" + t
    ensures i + 2 <= |s| && Printed(s, i, args) == Prepend("%", Printed(s, i + 2, args))
  {
    assert s[i] == s[i..][0] == '%' && s[i + 1] == s[i..][1] == '%';
  }

  lemma {:induction false} TextAt(s: string, i: nat, text: string, t: string, args: seq<Arg>)
    requires i <= |s| && s[i..] == text + t && '%' !in text
    ensures i + |text| <= |s| && Printed(s, i, args) == Prepend(text, Printed(s, i + |text|, args))
    decreases |text|
  {
    Skip(s, i, text, t);
    if text == "" {
      Prepended("", "", Printed(s, i, args));
    } else {
      assert text[0] in text && s[i..][0] == text[0];
      assert s[i + 1..] == s[i..][1..] == text[1..] + t;
      TextAt(s, i + 1, text[1..], t, args);
      Prepended([text[0]], text[1..], Printed(s, i + |text|, args));
      assert text == [text[0]] + text[1..];
    }
  }

  lemma ConvAt(s: string, i: nat, x: Piece, t: string, more: seq<Arg>)
    requires x.Conv? && PieceOk(x) && i <= |s| && s[i..] == Spec(x.f, x.n, x.p, x.mod, x.ch) + t
    ensures var u := Spec(x.f, x.n, x.p, x.mod, x.ch);
            && i + |u| <= |s| && Printed(s, i, x.args + more) == Prepend(x.out, Printed(s, i + |u|, more))
  {
    hide Printed, Spec, Converted, Asked, LengthOf;
    SpecAlone(x.f, x.n, x.p, x.mod, x.ch, x.args);
    TakesOwn(x.ch, Asked(x.f, x.n, x.p), LengthOf(x.mod), x.args, more);
    SpecAt(s, i, x.f, x.n, x.p, x.mod, x.ch, t, x.args, more, x.out);
  }

  /** A conversion looks at its own argument only. */
  lemma TakesOwn(ch: char, c: Conversion, length: Length, args: seq<Arg>, more: seq<Arg>)
    requires |args| == Uses(ch)
    ensures Converted(ch, c, length, args + more) == Converted(ch, c, length, args)
    ensures var r := Converted(ch, c, length, args); r.Some? ==> r.value.1 == |args|
  {
    hide Rendered, StringField;
    assert Uses(ch) == 1 ==> (args + more)[0] == args[0];
  }

  // ---- some formats ----

  /** Letters that are not supported are named in the output. */
  lemma OtherLetters(f: string, n: nat, p: Option<nat>, mod: string, ch: char)
    requires IsSpec(f, mod, ch) && Uses(ch) == 0
    ensures Printed(Spec(f, n, p, mod, ch), 0, []) ==
              Some("<<no %" + [ch] + (if ch in {'f', 'e', 'E', 'g', 'G', 'n'} then " in kernel>>" else " conversion>>"))
  {
    hide Printed, Spec, Asked, LengthOf;
    SpecAlone(f, n, p, mod, ch, []);
  }

  /** '0' and a width. */
  function ZeroPadded(n: nat): Conversion { Conversion(Flags(false, false, false, false, true, false), n, -1) }

  /** "%0No" for every N > 0: an unsigned octal number filled up with zeros to N places. */
  lemma OctalFormat(n: nat, value: nat)
    requires n > 0 && value < 0x1_0000_0000
    ensures Printed("%0" + Decimal(n) + "o", 0, [Num(value)]) ==
              Some(Rendered(value, false, false, BASE_O, ZeroPadded(n)))
  {
    hide Rendered, Decimal, Printed;
    NumberConverts("0", n, None, "", 'o', value, value);
    assert Spec("0", n, None, "", 'o') == "%0" + Decimal(n) + "o";
  }

  lemma SevenEleven()
    ensures Decimal(7) == "7" && Decimal(11) == "11"
  {
    assert Reversed(7, BASE_D, false, 0) == ['7'] + Reversed(0, BASE_D, false, 1) == "7";
    assert Reversed(1, BASE_D, false, 1) == ['1'] + Reversed(0, BASE_D, false, 2) == "1";
    assert Reversed(11, BASE_D, false, 0) == ['1'] + Reversed(1, BASE_D, false, 1) == "11";
    assert "11"[1..] == "1" && "7"[1..] == "" && "1"[1..] == "";
    assert Backwards("1") == "1" && Backwards("7") == "7";
  }

  /** atoi undoes "%d". */
  lemma AtoiUndoesPrintf(v: int)
    requires -0x8000_0000 <= v < 0x8000_0000
    ensures var t := Printed("%d", 0, [Num(v)]); t.Some? && AtoiValue(t.value) == v
  {
    hide Rendered, Printed, AtoiValue;
    NoDecimal();
    assert Spec("", 0, None, "", 'd') == "%d" && Asked("", 0, None) == PLAIN;
    NumberConverts("", 0, None, "", 'd', v, v);
    AtoiUndoesPlain(v);
  }

  const BOTH: Conversion := Conversion(Flags(true, false, false, false, true, false), 5, -1)

  lemma BothRendered()
    ensures Rendered(7, true, false, BASE_D, BOTH) == "00007    "
  {
    SevenEleven();
    var r := Reversed(7, BASE_D, false, 0);
    assert r == ['7'] + Reversed(0, BASE_D, false, 1) == "7";
    assert Field(7, BASE_D, BOTH) == "7" && Backwards("7") == "7";
    assert Zeros(4) == "0000" && Spaces(4) == "    ";
  }

  /** '-' does not override '0': "%0*d" with a width of -5 prints 7 in nine places. */
  lemma DoublePadding()
    ensures Printed("%0*d", 0, [Num(-5), Num(7)]) == Some("00007    ")
  {
    hide Rendered, Printed, ConversionAt, StarsGiven, Stars, LetterAt, LengthAt;
    var s, args := "%0*d", [Num(-5)] + [Num(7)];
    assert StarSpec("0", None, "", 'd') == s;
    StarParses("0", None, "", 'd', -5, [Num(7)]);
    BothRendered();
    assert args == [Num(-5), Num(7)] && args[1..] == [Num(7)] && SignedValue(7, Int) == 7;
    Alone(s, args, 1, BOTH, Int);
  }
}
