/** lib/stdio.c: parse_conversion, __vprintf and what is built on it. */
module Vprintf {
  import opened Common
  import opened Printf

  /** The length modifiers: hh, h, none, j, l, ll, t and z. */
  datatype Length = Char | Short | Int | IntMax | Long | LongLong | PtrDiff | Size

  /** An argument: a number of any type, a string or a null pointer. */
  datatype Arg = Num(n: int) | Text(s: string) | Null

  // ---- the parts of a conversion specification, by their place in the text ----

  predicate IsFlag(ch: char) { ch == '-' || ch == '+' || ch == ' ' || ch == '#' || ch == '0' || ch == '\'' }

  /** Where the flags that start at I end. */
  function FlagEnd(s: string, i: nat): (r: nat)
    ensures i <= r && (i <= |s| ==> r <= |s|)
    decreases |s| - i
  {
    if IsFlag(At(s, i)) then FlagEnd(s, i + 1) else i
  }

  /** They are all the flag characters in a row. */
  lemma {:induction false} FlagsInARow(s: string, i: nat)
    ensures (forall k | i <= k < FlagEnd(s, i) :: IsFlag(At(s, k))) && !IsFlag(At(s, FlagEnd(s, i)))
    decreases |s| - i
  {
    if IsFlag(At(s, i)) { FlagsInARow(s, i + 1); }
  }

  ghost predicate HasFlag(s: string, i: nat, ch: char) {
    exists k | i <= k < FlagEnd(s, i) :: At(s, k) == ch
  }

  /** The number after ACC, and where its digits end. */
  function NumberFrom(s: string, i: nat, acc: nat): (r: (nat, nat))
    ensures i <= r.1 && (i <= |s| ==> r.1 <= |s|)
    decreases |s| - i
  {
    if IsDigit(At(s, i)) then NumberFrom(s, i + 1, acc * 10 + (At(s, i) as int - '0' as int)) else (acc, i)
  }

  /** Where a width or precision ends: after `*` or after its digits. */
  function CountEnd(s: string, i: nat): (r: nat)
    ensures i <= r && (i <= |s| ==> r <= |s|)
  {
    if At(s, i) == '*' then i + 1 else NumberFrom(s, i, 0).1
  }

  predicate StarWidth(s: string, i: nat) { At(s, FlagEnd(s, i)) == '*' }

  function WidthEnd(s: string, i: nat): (r: nat)
    ensures i <= r && (i <= |s| ==> r <= |s|)
  {
    CountEnd(s, FlagEnd(s, i))
  }

  predicate HasPrecision(s: string, i: nat) { At(s, WidthEnd(s, i)) == '.' }

  predicate StarPrecision(s: string, i: nat) { HasPrecision(s, i) && At(s, WidthEnd(s, i) + 1) == '*' }

  function PrecisionEnd(s: string, i: nat): (r: nat)
    ensures i <= r && (i <= |s| ==> r <= |s|)
  {
    if HasPrecision(s, i) then CountEnd(s, WidthEnd(s, i) + 1) else WidthEnd(s, i)
  }

  function LengthFrom(s: string, i: nat): (Length, nat) {
    match At(s, i)
    case 'h' => if At(s, i + 1) == 'h' then (Char, i + 2) else (Short, i + 1)
    case 'j' => (IntMax, i + 1)
    case 'l' => if At(s, i + 1) == 'l' then (LongLong, i + 2) else (Long, i + 1)
    case 't' => (PtrDiff, i + 1)
    case 'z' => (Size, i + 1)
    case _ => (Int, i)
  }

  function LengthAt(s: string, i: nat): Length { LengthFrom(s, PrecisionEnd(s, i)).0 }

  /** Where the letter that tells the conversion is. */
  function LetterAt(s: string, i: nat): (r: nat)
    ensures i <= r && (i <= |s| ==> r <= |s|)
  {
    LengthFrom(s, PrecisionEnd(s, i)).1
  }

  /** How many arguments the specification takes for itself. */
  function Stars(s: string, i: nat): nat {
    (if StarWidth(s, i) then 1 else 0) + (if StarPrecision(s, i) then 1 else 0)
  }

  predicate StarsGiven(s: string, i: nat, args: seq<Arg>) {
    Stars(s, i) <= |args| && forall k | 0 <= k < Stars(s, i) :: args[k].Num?
  }

  /** A width or precision at I, with the argument for `*`. */
  function Count(s: string, i: nat, args: seq<Arg>): int
    requires At(s, i) == '*' ==> |args| > 0 && args[0].Num?
  {
    if At(s, i) == '*' then args[0].n else NumberFrom(s, i, 0).0
  }

  function Width(s: string, i: nat, args: seq<Arg>): int
    requires StarsGiven(s, i, args)
  {
    Count(s, FlagEnd(s, i), args)
  }

  /** -1 if there is none, or a negative one. */
  function Precision(s: string, i: nat, args: seq<Arg>): (r: int)
    requires StarsGiven(s, i, args)
    ensures r >= -1
  {
    if HasPrecision(s, i) then
      var p := Count(s, WidthEnd(s, i) + 1, if StarWidth(s, i) then args[1..] else args);
      if p < 0 then -1 else p
    else -1
  }

  /** What the text and arguments ask for: '-' overrides '0' and '+' overrides ' ', a negative
      width is '-' and a width, and a precision overrides '0'. */
  ghost function ConversionAt(s: string, i: nat, args: seq<Arg>): Conversion
    requires StarsGiven(s, i, args)
  {
    var w, p := Width(s, i, args), Precision(s, i, args);
    Conversion(Flags(HasFlag(s, i, '-') || w < 0, HasFlag(s, i, '+'), HasFlag(s, i, ' ') && !HasFlag(s, i, '+'),
                     HasFlag(s, i, '#'), HasFlag(s, i, '0') && !HasFlag(s, i, '-') && p < 0, HasFlag(s, i, '\'')),
               if w < 0 then -w else w, p)
  }

  // ---- parse_conversion ----

  /** A width or precision: a number, or the next argument for `*`. */
  method ParseCount(s: string, start: nat, args: seq<Arg>) returns (n: int, i: nat, rest: seq<Arg>)
    requires At(s, start) == '*' ==> |args| > 0 && args[0].Num?
    ensures n == Count(s, start, args) && i == CountEnd(s, start)
    ensures rest == if At(s, start) == '*' then args[1..] else args
  {
    i, rest := start, args;
    if At(s, i) == '*' {
      n, i, rest := args[0].n, i + 1, args[1..];
    } else {
      n := 0;
      while IsDigit(At(s, i))
        invariant n >= 0 && NumberFrom(s, start, 0) == NumberFrom(s, i, n)
        decreases |s| - i
      {
        n := n * 10 + (At(s, i) as int - '0' as int);
        i := i + 1;
      }
    }
  }

  /** The loop over the flags, with what '-' and '+' override. */
  method ParseFlags(s: string, start: nat) returns (flags: Flags, i: nat)
    ensures i == FlagEnd(s, start)
    ensures flags == Flags(HasFlag(s, start, '-'), HasFlag(s, start, '+'),
                           HasFlag(s, start, ' ') && !HasFlag(s, start, '+'), HasFlag(s, start, '#'),
                           HasFlag(s, start, '0') && !HasFlag(s, start, '-'), HasFlag(s, start, '\''))
  {
    i := start;
    flags := Flags(false, false, false, false, false, false);
    assert forall ch :: !Seen(s, start, start, ch);
    while IsFlag(At(s, i))
      invariant start <= i <= FlagEnd(s, start) == FlagEnd(s, i)
      invariant flags == Flags(Seen(s, start, i, '-'), Seen(s, start, i, '+'), Seen(s, start, i, ' '),
                               Seen(s, start, i, '#'), Seen(s, start, i, '0'), Seen(s, start, i, '\''))
      decreases |s| - i
    {
      SeenNext(s, start, i);
      match At(s, i) {
        case '-' => flags := flags.(minus := true);
        case '+' => flags := flags.(plus := true);
        case ' ' => flags := flags.(space := true);
        case '#' => flags := flags.(pound := true);
        case '0' => flags := flags.(zero := true);
        case _ => flags := flags.(group := true);
      }
      i := i + 1;
    }
    if flags.minus {
      flags := flags.(zero := false);
    }
    if flags.plus {
      flags := flags.(space := false);
    }
  }

  ghost predicate Seen(s: string, start: nat, i: nat, ch: char) {
    exists k | start <= k < i :: At(s, k) == ch
  }

  lemma SeenNext(s: string, start: nat, i: nat)
    requires start <= i
    ensures forall ch :: Seen(s, start, i + 1, ch) <==> Seen(s, start, i, ch) || ch == At(s, i)
  {
    forall ch ensures Seen(s, start, i + 1, ch) <==> Seen(s, start, i, ch) || ch == At(s, i) {
      if Seen(s, start, i, ch) {
        var k :| start <= k < i && At(s, k) == ch;
        assert start <= k < i + 1 && At(s, k) == ch;
      }
    }
  }

  /** The whole of it is what the places in the text and the arguments say. */
  method ParseConversion(s: string, start: nat, args: seq<Arg>)
    returns (c: Conversion, length: Length, i: nat, rest: seq<Arg>)
    requires StarsGiven(s, start, args)
    ensures c == ConversionAt(s, start, args) && length == LengthAt(s, start) && i == LetterAt(s, start)
    ensures rest == args[Stars(s, start)..]
  {
    hide FlagEnd, HasFlag, NumberFrom, Count, CountEnd, LengthFrom, Precision, PrecisionEnd, StarPrecision;
    var flags, j := ParseFlags(s, start);
    var width;
    width, i, rest := ParseCount(s, j, args);
    if width < 0 {
      width, flags := -width, flags.(minus := true);
    }
    var precision;
    precision, i, rest := ParsePrecision(s, start, args, i, rest);
    if precision >= 0 {
      flags := flags.(zero := false);
    }
    c := Conversion(flags, width, precision);
    length, i := ParseLength(s, i);
  }

  /** The precision after the width, which ends at I. */
  method ParsePrecision(s: string, ghost start: nat, ghost args: seq<Arg>, i: nat, more: seq<Arg>)
    returns (precision: int, j: nat, rest: seq<Arg>)
    requires StarsGiven(s, start, args) && i == WidthEnd(s, start)
    requires more == if StarWidth(s, start) then args[1..] else args
    ensures precision == Precision(s, start, args) && j == PrecisionEnd(s, start)
    ensures rest == if StarPrecision(s, start) then more[1..] else more
  {
    hide FlagEnd, NumberFrom, Count, CountEnd;
    precision, j, rest := -1, i, more;
    if At(s, i) == '.' {
      precision, j, rest := ParseCount(s, i + 1, more);
      if precision < 0 {
        precision := -1;
      }
    }
  }

  method ParseLength(s: string, start: nat) returns (length: Length, i: nat)
    ensures (length, i) == LengthFrom(s, start)
  {
    i, length := start, Int;
    match At(s, i) {
      case 'h' =>
        i, length := i + 1, Short;
        if At(s, i) == 'h' {
          i, length := i + 1, Char;
        }
      case 'j' => i, length := i + 1, IntMax;
      case 'l' =>
        i, length := i + 1, Long;
        if At(s, i) == 'l' {
          i, length := i + 1, LongLong;
        }
      case 't' => i, length := i + 1, PtrDiff;
      case 'z' => i, length := i + 1, Size;
      case _ =>
    }
  }

  /** '-' and '0' are both in force exactly when there is a '0' flag but no '-', the width is a
      negative argument, and there is no precision or a negative one. */
  lemma BothFlagsExactly(s: string, i: nat, args: seq<Arg>)
    requires StarsGiven(s, i, args)
    ensures var flags := ConversionAt(s, i, args).flags;
            flags.minus && flags.zero <==>
              && HasFlag(s, i, '0') && !HasFlag(s, i, '-') && StarWidth(s, i) && args[0].n < 0
              && !(HasPrecision(s, i) && Count(s, WidthEnd(s, i) + 1, args[1..]) >= 0)
  {
  }

  /** So a field comes out as wide as the text asks for, or as wide as it must be, except then. */
  lemma FieldWidthExactly(s: string, i: nat, args: seq<Arg>, value: nat, isSigned: bool, negative: bool, b: Base)
    requires StarsGiven(s, i, args) && IsBase(b)
    ensures var c, w := ConversionAt(s, i, args), Width(s, i, args);
            var n, width := Needed(value, isSigned, negative, b, c), if w < 0 then -w else w;
            |Rendered(value, isSigned, negative, b, c)| == (if n < width then width else n) <==>
              !(&& HasFlag(s, i, '0') && !HasFlag(s, i, '-') && StarWidth(s, i) && args[0].n < 0
                && !(HasPrecision(s, i) && Count(s, WidthEnd(s, i) + 1, args[1..]) >= 0)
                && n < width)
  {
    hide Rendered, Needed, HasFlag, FlagEnd, NumberFrom;
    BothFlagsExactly(s, i, args);
    WidthExactly(value, isSigned, negative, b, ConversionAt(s, i, args));
  }

  // ---- what the conversions put out ----

  /** 2 to the number of bits of the type. */
  function Modulus(length: Length): nat {
    match length
    case Char => 0x100
    case Short => 0x1_0000
    case IntMax => 0x1_0000_0000_0000_0000
    case LongLong => 0x1_0000_0000_0000_0000
    case _ => 0x1_0000_0000
  }

  function SignedValue(n: int, length: Length): int {
    var m := Modulus(length);
    if n % m < m / 2 then n % m else n % m - m
  }

  function UnsignedValue(n: int, length: Length): nat { n % Modulus(length) }

  /** format_string */
  function StringField(t: string, c: Conversion): string {
    var pad := if c.width > |t| then c.width - |t| else 0;
    if c.flags.minus then t + Spaces(pad) else Spaces(pad) + t
  }

  function Unsigned(letter: char): Base
    requires letter in {'o', 'u', 'x', 'X'}
  {
    match letter case 'o' => BASE_O case 'u' => BASE_D case 'x' => BASE_X case _ => BASE_UPPER_X
  }

  const ADDRESS_FLAGS: Flags := Flags(false, false, false, true, false, false)

  const UNSUPPORTED: set<char> := {'f', 'e', 'E', 'g', 'G', 'n'}

  /** What a conversion puts out and how many arguments it takes; None if the argument is
      missing or of another kind, or if -value overflows. */
  function Converted(letter: char, c: Conversion, length: Length, args: seq<Arg>): Option<(string, nat)> {
    if letter in {'d', 'i', 'o', 'u', 'x', 'X', 'p', 'c', 's'} then
      if args == [] then None
      else
        match args[0]
        case Num(n) =>
          if letter == 's' then None
          else if letter == 'd' || letter == 'i' then
            var v := SignedValue(n, length);
            if v == -0x8000_0000_0000_0000 then None
            else Some((Rendered(if v < 0 then -v else v, true, v < 0, BASE_D, c), 1))
          else if letter == 'p' then
            Some((Rendered(n % 0x1_0000_0000, false, false, BASE_X, c.(flags := ADDRESS_FLAGS)), 1))
          else if letter == 'c' then Some((StringField([(n % 256) as char], c), 1))
          else Some((Rendered(UnsignedValue(n, length), false, false, Unsigned(letter), c), 1))
        case Text(t) =>
          if letter != 's' then None
          else Some((StringField(if 0 <= c.precision < |t| then t[..c.precision] else t, c), 1))
        case Null =>
          if letter != 's' then None
          else Some((StringField(if 0 <= c.precision < 6 then "(null)"[..c.precision] else "(null)", c), 1))
    else if letter in UNSUPPORTED then Some(("<<no %" + [letter] + " in kernel>>", 0))
    else Some(("<<no %" + [letter] + " conversion>>", 0))
  }

  function Prepend(t: string, r: Option<string>): Option<string> {
    match r case None => None case Some(u) => Some(t + u)
  }

  lemma Prepended(t: string, u: string, r: Option<string>)
    ensures Prepend(t, Prepend(u, r)) == Prepend(t + u, r) && Prepend("", r) == r && Prepend(t, Some("")) == Some(t)
  {
    if r.Some? {
      assert t + (u + r.value) == t + u + r.value && "" + r.value == r.value;
    }
    assert t + "" == t;
  }

  /** What the format from I on puts out; None if a specification is not complete or an argument
      is not there, which C leaves undefined. */
  ghost function Printed(s: string, i: nat, args: seq<Arg>): Option<string>
    decreases |s| - i
  {
    if i >= |s| then Some("")
    else if s[i] != '%' then Prepend([s[i]], Printed(s, i + 1, args))
    else if At(s, i + 1) == '%' then Prepend("%", Printed(s, i + 2, args))
    else if !StarsGiven(s, i + 1, args) || LetterAt(s, i + 1) >= |s| then None
    else
      var j, rest := LetterAt(s, i + 1), args[Stars(s, i + 1)..];
      match Converted(s[j], ConversionAt(s, i + 1, args), LengthAt(s, i + 1), rest)
      case None => None
      case Some(r) => if r.1 > |rest| then None else Prepend(r.0, Printed(s, j + 1, rest[r.1..]))
  }

  // ---- __vprintf ----

  method FormatString(t: string, c: Conversion) returns (out: string)
    ensures out == StringField(t, c)
  {
    out := "";
    if c.width > |t| && !c.flags.minus {
      out := Spaces(c.width - |t|);
    }
    out := out + t;
    if c.width > |t| && c.flags.minus {
      out := out + Spaces(c.width - |t|);
    }
  }

  /** The switch over the letter. */
  method Convert(letter: char, c: Conversion, length: Length, args: seq<Arg>) returns (out: string, used: nat)
    requires Converted(letter, c, length, args).Some?
    ensures Converted(letter, c, length, args) == Some((out, used)) && used <= |args|
  {
    hide Rendered, StringField;
    used := 1;
    match letter {
      case 'd' | 'i' =>
        var v := SignedValue(args[0].n, length);
        out := FormatInteger(if v < 0 then -v else v, true, v < 0, BASE_D, c);
      case 'o' | 'u' | 'x' | 'X' =>
        out := FormatInteger(UnsignedValue(args[0].n, length), false, false, Unsigned(letter), c);
      case 'c' =>
        out := FormatString([(args[0].n % 256) as char], c);
      case 's' =>
        var t := if args[0].Null? then "(null)" else args[0].s;
        out := FormatString(if 0 <= c.precision < |t| then t[..c.precision] else t, c);
      case 'p' =>
        out := FormatInteger(args[0].n % 0x1_0000_0000, false, false, BASE_X, c.(flags := ADDRESS_FLAGS));
      case 'f' | 'e' | 'E' | 'g' | 'G' | 'n' =>
        out, used := "<<no %" + [letter] + " in kernel>>", 0;
      case _ =>
        out, used := "<<no %" + [letter] + " conversion>>", 0;
    }
  }

  /** __vprintf, for every format and arguments for which C defines what happens; OUT collects
      what is given to the output function. */
  method Vprintf(format: string, args: seq<Arg>) returns (out: string)
    requires Printed(format, 0, args).Some?
    ensures Printed(format, 0, args) == Some(out)
  {
    hide Converted, ConversionAt, LengthAt, LetterAt, Stars, StarsGiven;
    var i, rest := 0, args;
    out := "";
    Prepended("", "", Printed(format, 0, args));
    while i < |format|
      invariant Printed(format, i, rest).Some? && Printed(format, 0, args) == Prepend(out, Printed(format, i, rest))
      decreases |format| - i
    {
      if format[i] != '%' {
        Prepended(out, [format[i]], Printed(format, i + 1, rest));
        out := out + [format[i]];
        i := i + 1;
      } else if At(format, i + 1) == '%' {
        Prepended(out, "%", Printed(format, i + 2, rest));
        out := out + "%";
        i := i + 2;
      } else {
        var c, length, j, more := ParseConversion(format, i + 1, rest);
        var text, used := Convert(format[j], c, length, more);
        Prepended(out, text, Printed(format, j + 1, more[used..]));
        out := out + text;
        i, rest := j + 1, more[used..];
      }
    }
    Prepended(out, "", Some(""));
  }

  // ---- vsnprintf ----

  /** vsnprintf: of what __vprintf puts out, the longest prefix that fits is stored and
      terminated, and the full length returned. */
  method Vsnprintf(buffer: array<char>, bufSize: nat, format: string, args: seq<Arg>) returns (length: nat)
    requires bufSize <= buffer.Length && Printed(format, 0, args).Some?
    modifies buffer
    ensures var out := Printed(format, 0, args).value;
            && length == |out|
            && (bufSize == 0 ==> buffer[..] == old(buffer[..]))
            && (bufSize > 0 ==>
                  var n := if |out| < bufSize then |out| else bufSize - 1;
                  buffer[..n] == out[..n] && buffer[n] == '\0' && buffer[n + 1..] == old(buffer[n + 1..]))
  {
    hide Printed;
    var out := Vprintf(format, args);
    var maxLength := if bufSize > 0 then bufSize - 1 else 0;
    length := 0;
    var p := 0;
    while length < |out|
      invariant length <= |out| && p == if length < maxLength then length else maxLength
      invariant (forall k | 0 <= k < p :: buffer[k] == out[k])
      invariant (forall k | p <= k < buffer.Length :: buffer[k] == old(buffer[k]))
    {
      if length < maxLength {
        buffer[p] := out[length];
        p := p + 1;
      }
      length := length + 1;
    }
    if bufSize > 0 {
      buffer[p] := '\0';
      assert buffer[..p] == out[..p];
    }
  }

  // ---- formats and what they print ----

  /** Text without '%' is copied. */
  lemma {:induction false} LiteralText(s: string, i: nat, args: seq<Arg>)
    requires '%' !in s && i <= |s|
    ensures Printed(s, i, args) == Some(s[i..])
    decreases |s| - i
  {
    if i < |s| {
      LiteralText(s, i + 1, args);
      assert s[i] in s && s[i..] == [s[i]] + s[i + 1..];
    } else {
      assert s[i..] == "";
    }
  }

  /** A number in decimal. */
  function Decimal(n: nat): string { Backwards(Reversed(n, BASE_D, false, 0)) }

  lemma {:induction false} NumberAccumulates(s: string, i: nat, acc: nat)
    requires i <= |s|
    ensures NumberFrom(s, i, acc).0 == -Accumulated(s[i..], -(acc as int))
    decreases |s| - i
  {
    if IsDigit(At(s, i)) {
      assert s[i..][0] == s[i] && s[i..][1..] == s[i + 1..];
      NumberAccumulates(s, i + 1, acc * 10 + (At(s, i) as int - '0' as int));
    }
  }

  lemma DecimalReads(n: nat)
    ensures AllDigits(Decimal(n)) && Accumulated(Decimal(n), 0) == -(n as int)
  {
    hide Reversed, Backwards, Accumulated;
    DecimalDigits(n, 0);
    BackwardsAccumulated(Reversed(n, BASE_D, false, 0));
    ReversedValue(n, BASE_D, false, 0);
  }

  lemma {:induction false} DigitsEnd(s: string, i: nat, d: string, t: string, acc: nat)
    requires i <= |s| && s[i..] == d + t && AllDigits(d) && !IsDigit(At(t, 0))
    ensures NumberFrom(s, i, acc).1 == i + |d|
    decreases |d|
  {
    if d == [] {
      assert s[i..] == t && At(s, i) == At(t, 0);
    } else {
      assert (d + t)[0] == s[i] == d[0] && d[0] in d;
      assert s[i + 1..] == s[i..][1..] == d[1..] + t;
      DigitsEnd(s, i + 1, d[1..], t, acc * 10 + (d[0] as int - '0' as int));
    }
  }

  /** A width or precision in the text is the number that it is the decimal of. */
  lemma NumberReadsBack(s: string, i: nat, n: nat, t: string)
    requires i <= |s| && s[i..] == Decimal(n) + t && !IsDigit(At(t, 0))
    ensures NumberFrom(s, i, 0) == (n, i + |Decimal(n)|)
  {
    hide NumberFrom, Accumulated, IsDigit, AllDigits, At, Decimal;
    DecimalReads(n);
    AccumulatedStops(Decimal(n), t, 0);
    NumberAccumulates(s, i, 0);
    DigitsEnd(s, i, Decimal(n), t, 0);
  }

  lemma {:induction false} FirstDigit(n: nat, cnt: nat)
    requires n > 0
    ensures var r := Reversed(n, BASE_D, false, cnt); r != [] && r[|r| - 1] != '0'
  {
    if n >= 10 { FirstDigit(n / 10, cnt + 1); } else { assert Reversed(n / 10, BASE_D, false, cnt + 1) == []; }
  }

  lemma DecimalFirst(n: nat)
    requires n > 0
    ensures var d := Decimal(n); d != [] && IsDigit(d[0]) && d[0] != '0'
  {
    hide Reversed, Backwards;
    DecimalReads(n);
    FirstDigit(n, 0);
    BackwardsAt(Reversed(n, BASE_D, false, 0));
    assert Decimal(n)[0] in Decimal(n);
  }
}
