/** userprog/process.c, setup_stack, with strtok_r of lib/string.c: the arguments laid out on
    the user stack read back as the words of the command line. */
module Stack {
  import opened Disk
  import opened Common
  import opened Directory

  const BASE: nat := PHYS_BASE - PGSIZE     // the one page of stack
  const SPACE: Byte := 32

  // ---- words of a command line ----

  /** Bytes before the first space. */
  function WordLength(s: seq<Byte>): (n: nat)
    ensures n <= |s| && (forall k | 0 <= k < n :: s[k] != SPACE) && (n < |s| ==> s[n] == SPACE)
  {
    if s == [] || s[0] == SPACE then 0 else
      assert forall k | 1 <= k < |s| :: s[1..][k - 1] == s[k];
      1 + WordLength(s[1..])
  }

  /** The words between spaces. */
  function Tokens(s: seq<Byte>): seq<seq<Byte>> {
    if s == [] then []
    else if s[0] == SPACE then Tokens(s[1..])
    else [s[..WordLength(s)]] + Tokens(s[WordLength(s)..])
  }

  predicate AllSpaces(s: seq<Byte>) { forall k | 0 <= k < |s| :: s[k] == SPACE }

  predicate IsWord(t: seq<Byte>) { t != [] && SPACE !in t }

  /** Words with gaps before, between and after them. */
  function Spelled(ts: seq<seq<Byte>>, gaps: seq<seq<Byte>>): seq<Byte>
    requires |gaps| == |ts| + 1
  {
    if ts == [] then gaps[0] else gaps[0] + (ts[0] + Spelled(ts[1..], gaps[1..]))
  }

  /** Gaps are spaces, and there is one at least between two words. */
  predicate WellSpaced(ts: seq<seq<Byte>>, gaps: seq<seq<Byte>>) {
    && |gaps| == |ts| + 1
    && (forall i | 0 <= i < |ts| :: IsWord(ts[i]))
    && (forall i | 0 <= i < |gaps| :: AllSpaces(gaps[i]) && (0 < i < |ts| ==> gaps[i] != []))
  }

  /** Every string is its tokens, well spaced... */
  lemma {:induction false} Spacing(s: seq<Byte>) returns (gaps: seq<seq<Byte>>)
    ensures |gaps| == |Tokens(s)| + 1 && WellSpaced(Tokens(s), gaps) && Spelled(Tokens(s), gaps) == s
    ensures s != [] && s[0] == SPACE ==> gaps[0] != []
    decreases |s|
  {
    hide WellSpaced, Spelled, IsWord, AllSpaces;
    if s == [] {
      gaps := [[]];
      NothingSpelled();
    } else if s[0] == SPACE {
      var more := Spacing(s[1..]);
      gaps := [[SPACE] + more[0]] + more[1..];
      WiderGap(Tokens(s), more);
      assert s == [SPACE] + s[1..];
    } else {
      var n := WordLength(s);
      var more := Spacing(s[n..]);
      gaps := [[]] + more;
      FirstIsWord(s);
      WordBefore(s[..n], Tokens(s[n..]), more);
      assert s == s[..n] + s[n..];
    }
  }

  lemma NothingSpelled()
    ensures WellSpaced([], [[]]) && Spelled([], [[]]) == []
  {
  }

  lemma FirstIsWord(s: seq<Byte>)
    requires s != [] && s[0] != SPACE
    ensures var n := WordLength(s); n > 0 && IsWord(s[..n]) && (s[n..] == [] || s[n..][0] == SPACE)
  {
  }

  lemma WiderGap(ts: seq<seq<Byte>>, gaps: seq<seq<Byte>>)
    requires WellSpaced(ts, gaps)
    ensures var gaps' := [[SPACE] + gaps[0]] + gaps[1..];
            WellSpaced(ts, gaps') && Spelled(ts, gaps') == [SPACE] + Spelled(ts, gaps)
  {
    var gaps' := [[SPACE] + gaps[0]] + gaps[1..];
    assert gaps'[1..] == gaps[1..];
    forall i | 0 <= i < |gaps'| ensures AllSpaces(gaps'[i]) { assert i > 0 ==> gaps'[i] == gaps[i]; }
    if ts != [] {
      var rest := ts[0] + Spelled(ts[1..], gaps[1..]);
      assert [SPACE] + gaps[0] + rest == [SPACE] + (gaps[0] + rest);
    }
  }

  lemma WordBefore(t: seq<Byte>, ts: seq<seq<Byte>>, gaps: seq<seq<Byte>>)
    requires IsWord(t) && WellSpaced(ts, gaps) && (ts != [] ==> gaps[0] != [])
    ensures WellSpaced([t] + ts, [[]] + gaps) && Spelled([t] + ts, [[]] + gaps) == t + Spelled(ts, gaps)
  {
    var ts', gaps' := [t] + ts, [[]] + gaps;
    assert ts'[1..] == ts && gaps'[1..] == gaps;
    forall i | 0 <= i < |ts'| ensures IsWord(ts'[i]) { assert i > 0 ==> ts'[i] == ts[i - 1]; }
    forall i | 0 <= i < |gaps'| ensures AllSpaces(gaps'[i]) && (0 < i < |ts'| ==> gaps'[i] != []) {
      assert i > 0 ==> gaps'[i] == gaps[i - 1];
    }
    assert [] + (t + Spelled(ts, gaps)) == t + Spelled(ts, gaps);
  }

  /** ... and of no other words: however words are spaced, they are the tokens. */
  lemma {:induction false} TokensOf(ts: seq<seq<Byte>>, gaps: seq<seq<Byte>>)
    requires WellSpaced(ts, gaps)
    ensures Tokens(Spelled(ts, gaps)) == ts
  {
    if ts == [] {
      NoTokens(gaps[0]);
    } else {
      var rest := Spelled(ts[1..], gaps[1..]);
      assert WellSpaced(ts[1..], gaps[1..]);
      TokensOf(ts[1..], gaps[1..]);
      StartsWithGap(ts[1..], gaps[1..]);
      GapSkipped(gaps[0], ts[0] + rest);
      WordFirst(ts[0], rest);
      assert ts == [ts[0]] + ts[1..];
    }
  }

  /** What follows a word starts with a space, or is empty. */
  lemma StartsWithGap(ts: seq<seq<Byte>>, gaps: seq<seq<Byte>>)
    requires |gaps| == |ts| + 1 && AllSpaces(gaps[0]) && (ts != [] ==> gaps[0] != [])
    ensures var s := Spelled(ts, gaps); s == [] || s[0] == SPACE
  {
  }

  lemma {:induction false} GapSkipped(gap: seq<Byte>, s: seq<Byte>)
    requires AllSpaces(gap)
    ensures Tokens(gap + s) == Tokens(s)
  {
    if gap == [] {
      assert gap + s == s;
    } else {
      assert (gap + s)[1..] == gap[1..] + s;
      GapSkipped(gap[1..], s);
    }
  }

  lemma WordFirst(t: seq<Byte>, rest: seq<Byte>)
    requires IsWord(t) && (rest == [] || rest[0] == SPACE)
    ensures Tokens(t + rest) == [t] + Tokens(rest)
  {
    var s := t + rest;
    forall k | 0 <= k < |t| ensures s[k] != SPACE { assert s[k] == t[k] && t[k] in t; }
    WordEnds(s, |t|);
    assert s[..|t|] == t && s[|t|..] == rest;
  }

  /** strtok_r with " " on the string A[..N], continuing at S. */
  method Strtok(a: array<Byte>, n: nat, s: nat) returns (token: Option<nat>, save: nat)
    requires s <= n < a.Length && a[n] == 0 && forall k | s <= k < n :: a[k] != 0
    modifies a
    ensures s <= save <= n && a[n] == 0 && forall k | save <= k < n :: a[k] == old(a[k]) != 0
    ensures token.None? ==> Tokens(old(a[s..n])) == []
    ensures token.Some? ==> Tokens(old(a[s..n])) != [] && IsCString(a[..n + 1], token.value, Tokens(old(a[s..n]))[0])
    ensures token.Some? ==> Tokens(a[save..n]) == Tokens(old(a[s..n]))[1..] && save > s
  {
    hide Tokens, IsCString;
    var i := s;
    ghost var was := a[s..n];
    while a[i] == SPACE || a[i] == 0
      invariant s <= i <= n && forall k | s <= k < i :: a[k] == SPACE
      decreases n - i
    {
      if a[i] == 0 {
        NoTokens(was);
        return None, i;
      }
      i := i + 1;
    }
    var t := i;
    while a[i] != SPACE && a[i] != 0
      invariant t <= i <= n && forall k | t <= k < i :: a[k] != SPACE
      decreases n - i
    {
      i := i + 1;
    }
    FirstToken(was, t - s, i - s);
    if a[i] != 0 {
      a[i] := 0;
      save := i + 1;
      assert a[save..n] == was[save - s..];
    } else {
      save := i;
      assert a[save..n] == was[i - s..];
    }
    token := Some(t);
    CutOut(was, a[..n + 1], s, t, i);
  }

  /** The bytes from T up to the null byte at I are a C string. */
  lemma CutOut(was: seq<Byte>, mem: seq<Byte>, s: nat, t: nat, i: nat)
    requires s <= t <= i < |mem| && i - s <= |was| && mem[i] == 0
    requires forall k | t <= k < i :: mem[k] == was[k - s] != 0
    ensures IsCString(mem, t, was[t - s..i - s])
  {
    var w := was[t - s..i - s];
    forall k | 0 <= k < |w| ensures mem[t + k] == w[k] != 0 { assert w[k] == was[t + k - s]; }
  }

  lemma {:induction false} NoTokens(s: seq<Byte>)
    requires forall k | 0 <= k < |s| :: s[k] == SPACE
    ensures Tokens(s) == []
  {
    if s != [] { NoTokens(s[1..]); }
  }

  /** Spaces up to T, a word up to I. */
  lemma FirstToken(s: seq<Byte>, t: nat, i: nat)
    requires t < i <= |s| && (forall k | 0 <= k < t :: s[k] == SPACE) && (forall k | t <= k < i :: s[k] != SPACE)
             && (i < |s| ==> s[i] == SPACE)
    ensures Tokens(s) == [s[t..i]] + Tokens(if i < |s| then s[i + 1..] else s[i..])
  {
    hide Tokens;
    SpacesSkipped(s, t);
    FirstWord(s[t..], i - t);
    assert s[t..][..i - t] == s[t..i] && s[t..][i - t..] == s[i..] && (i < |s| ==> s[t..][i - t + 1..] == s[i + 1..]);
  }

  lemma {:induction false} SpacesSkipped(s: seq<Byte>, t: nat)
    requires t <= |s| && forall k | 0 <= k < t :: s[k] == SPACE
    ensures Tokens(s) == Tokens(s[t..])
  {
    if t > 0 {
      SpacesSkipped(s[1..], t - 1);
      assert s[1..][t - 1..] == s[t..];
    } else {
      assert s[0..] == s;
    }
  }

  lemma FirstWord(s: seq<Byte>, i: nat)
    requires 0 < i <= |s| && (forall k | 0 <= k < i :: s[k] != SPACE) && (i < |s| ==> s[i] == SPACE)
    ensures Tokens(s) == [s[..i]] + Tokens(if i < |s| then s[i + 1..] else s[i..])
  {
    WordEnds(s, i);
    assert i < |s| ==> s[i..][1..] == s[i + 1..];
  }

  lemma {:induction false} WordEnds(s: seq<Byte>, n: nat)
    requires n <= |s| && (forall k | 0 <= k < n :: s[k] != SPACE) && (n < |s| ==> s[n] == SPACE)
    ensures WordLength(s) == n
  {
  }

  /** MEM has the C string T at index I. */
  ghost predicate IsCString(mem: seq<Byte>, i: nat, t: seq<Byte>) {
    i + |t| < |mem| && mem[i + |t|] == 0 && 0 !in t && forall k | 0 <= k < |t| :: mem[i + k] == t[k]
  }

  // ---- the stack page ----

  /** MEM is the page at BASE; the C string T is at address A. */
  ghost predicate StringAt(mem: seq<Byte>, a: nat, t: seq<Byte>) {
    |mem| == PGSIZE && BASE <= a && IsCString(mem, a - BASE, t)
  }

  /** The word at address A. */
  ghost predicate WordAt(mem: seq<Byte>, a: nat, x: nat) {
    |mem| == PGSIZE && BASE <= a && a + 4 <= PHYS_BASE && Word(mem[a - BASE..a - BASE + 4]) == x
  }

  /** What the process finds at ESP: return slot, argc, argv, the null-terminated pointers. */
  ghost predicate IsFrame(mem: seq<Byte>, esp: nat, argv: seq<nat>, ts: seq<seq<Byte>>) {
    && esp % 4 == 0 && WordAt(mem, esp, 0) && WordAt(mem, esp + 4, |ts|) && WordAt(mem, esp + 8, esp + 12)
    && Pointers(mem, esp + 12, argv, ts)
  }

  ghost predicate Pointers(mem: seq<Byte>, a: nat, argv: seq<nat>, ts: seq<seq<Byte>>) {
    && |argv| == |ts| && WordAt(mem, a + 4 * |ts|, 0)
    && forall i | 0 <= i < |ts| :: WordAt(mem, a + 4 * i, argv[i]) && StringAt(mem, argv[i], ts[i])
  }

  /** Reading the frame as a C program does. */
  ghost function Decoded(mem: seq<Byte>, esp: nat): seq<seq<Byte>>
    requires |mem| == PGSIZE
  {
    var argc, argv := ReadWord(mem, esp + 4), ReadWord(mem, esp + 8);
    seq(argc, i requires 0 <= i => CString(FromAddress(mem, ReadWord(mem, argv + 4 * i))))
  }

  ghost function ReadWord(mem: seq<Byte>, a: nat): nat
    requires |mem| == PGSIZE
  {
    if BASE <= a && a + 4 <= PHYS_BASE then Word(mem[a - BASE..a - BASE + 4]) else 0
  }

  ghost function FromAddress(mem: seq<Byte>, a: nat): seq<Byte>
    requires |mem| == PGSIZE
  {
    if BASE <= a <= PHYS_BASE then mem[a - BASE..] else []
  }

  lemma DecodedFrame(mem: seq<Byte>, esp: nat, argv: seq<nat>, ts: seq<seq<Byte>>)
    requires |mem| == PGSIZE && IsFrame(mem, esp, argv, ts)
    ensures Decoded(mem, esp) == ts
  {
    hide StringAt, CString, FromAddress;
    var r := Decoded(mem, esp);
    forall i | 0 <= i < |ts| ensures r[i] == ts[i] {
      assert WordAt(mem, esp + 12 + 4 * i, argv[i]) && StringAt(mem, argv[i], ts[i]);
      DecodedString(mem, argv[i], ts[i]);
    }
  }

  lemma DecodedString(mem: seq<Byte>, a: nat, t: seq<Byte>)
    requires StringAt(mem, a, t)
    ensures CString(FromAddress(mem, a)) == t
  {
    var rest, n := mem[a - BASE..], |t|;
    forall k | 0 <= k < n ensures rest[k] == t[k] { assert mem[a - BASE + k] == t[k]; }
    assert rest == t + [0] + rest[n + 1..];
    CStringOf(t, rest[n + 1..]);
  }

  /** *esp -= |data|, then memcpy. */
  method Push(page: array<Byte>, esp: nat, data: seq<Byte>) returns (esp': nat)
    requires page.Length == PGSIZE && BASE + |data| <= esp <= PHYS_BASE
    modifies page
    ensures esp' == esp - |data| && Pushed(old(page[..]), page[..], esp, data)
  {
    esp' := esp - |data|;
    forall i | 0 <= i < |data| { page[esp' - BASE + i] := data[i]; }
  }

  /** DATA is below ESP now and nothing above changed. */
  ghost predicate Pushed(mem: seq<Byte>, mem': seq<Byte>, esp: nat, data: seq<Byte>) {
    && |mem| == |mem'| == PGSIZE && BASE + |data| <= esp <= PHYS_BASE
    && (forall k | esp - BASE <= k < PGSIZE :: mem'[k] == mem[k])
    && (forall k | 0 <= k < |data| :: mem'[esp - |data| - BASE + k] == data[k])
  }

  lemma StringKept(mem: seq<Byte>, mem': seq<Byte>, esp: nat, data: seq<Byte>, a: nat, t: seq<Byte>)
    requires Pushed(mem, mem', esp, data) && StringAt(mem, a, t) && esp <= a
    ensures StringAt(mem', a, t)
  {
  }

  lemma WordStays(mem: seq<Byte>, mem': seq<Byte>, esp: nat, data: seq<Byte>, a: nat, x: nat)
    requires Pushed(mem, mem', esp, data) && WordAt(mem, a, x) && esp <= a
    ensures WordAt(mem', a, x)
  {
    assert mem'[a - BASE..a - BASE + 4] == mem[a - BASE..a - BASE + 4];
  }

  lemma WordPushed(mem: seq<Byte>, mem': seq<Byte>, esp: nat, x: nat)
    requires x < 0x1_0000_0000 && Pushed(mem, mem', esp, WordBytes(x))
    ensures WordAt(mem', esp - 4, x)
  {
    assert mem'[esp - 4 - BASE..esp - 4 - BASE + 4] == WordBytes(x);
  }

  lemma StringPushed(mem: seq<Byte>, mem': seq<Byte>, esp: nat, t: seq<Byte>)
    requires Pushed(mem, mem', esp, t + [0]) && 0 !in t
    ensures StringAt(mem', esp - |t| - 1, t)
  {
    var a := esp - |t| - 1 - BASE;
    forall k | 0 <= k < |t| ensures mem'[a + k] == t[k] { assert (t + [0])[k] == t[k]; }
    assert (t + [0])[|t|] == 0;
  }

  // ---- setup_stack ----

  /** Bytes that the strings take. */
  function StringBytes(ts: seq<seq<Byte>>): nat {
    if ts == [] then 0 else StringBytes(ts[..|ts| - 1]) + |ts[|ts| - 1]| + 1
  }

  /** Strings, padding, pointers and the three last words fit the page. */
  predicate FitsPage(ts: seq<seq<Byte>>) {
    StringBytes(ts) + (PHYS_BASE - StringBytes(ts)) % 4 + 4 * (|ts| + 1) + 12 <= PGSIZE
  }

  lemma {:induction false} PrefixFits(ts: seq<seq<Byte>>, i: nat)
    requires i <= |ts|
    ensures StringBytes(ts[..i]) <= StringBytes(ts)
    decreases |ts| - i
  {
    if i < |ts| {
      assert ts[..i + 1][..i] == ts[..i];
      PrefixFits(ts, i + 1);
    } else {
      assert ts[..i] == ts;
    }
  }

  /** The copy of the command line that strtok_r takes apart. */
  method Copy(cmd: seq<Byte>) returns (a: array<Byte>)
    ensures fresh(a) && a.Length == |cmd| + 1 && a[|cmd|] == 0 && a[..|cmd|] == cmd
  {
    a := new Byte[|cmd| + 1](_ => 0);
    forall i | 0 <= i < |cmd| { a[i] := cmd[i]; }
  }

  method CountTokens(cmd: seq<Byte>) returns (argc: nat)
    requires 0 !in cmd
    ensures argc == |Tokens(cmd)|
  {
    hide Tokens;
    var n := |cmd|;
    var a := Copy(cmd);
    assert forall k | 0 <= k < n :: a[k] == a[..n][k];
    assert a[0..n] == cmd;
    argc := 0;
    var token, save := Strtok(a, n, 0);
    while token.Some?
      invariant save <= n && a[n] == 0 && (forall k | save <= k < n :: a[k] != 0)
      invariant argc + (if token.Some? then 1 + |Tokens(a[save..n])| else 0) == |Tokens(cmd)|
      decreases token.Some?, n - save
    {
      argc := argc + 1;
      token, save := Strtok(a, n, save);
    }
  }

  lemma StringEnds(mem: seq<Byte>, i: nat, t: seq<Byte>, j: nat)
    requires IsCString(mem, i, t) && i <= j <= i + |t|
    ensures mem[j] == 0 <==> j == i + |t|
  {
    if j < i + |t| { assert mem[i + (j - i)] == t[j - i] && t[j - i] in t; }
  }

  /** strlen (token) and the bytes that memcpy takes. */
  method TokenBytes(a: array<Byte>, n: nat, i: nat, ghost t: seq<Byte>) returns (s: seq<Byte>)
    requires n < a.Length && IsCString(a[..n + 1], i, t)
    ensures s == t + [0]
  {
    var j := i;
    StringEnds(a[..n + 1], i, t, j);
    while a[j] != 0
      invariant i <= j <= i + |t| && (a[j] == 0 <==> j == i + |t|)
      decreases n - j
    {
      j := j + 1;
      StringEnds(a[..n + 1], i, t, j);
    }
    s := a[i..j + 1];
    forall k | 0 <= k < |t| ensures s[k] == t[k] { assert a[..n + 1][i + k] == t[k]; }
  }

  /** The strings are at the addresses ARGV, none below ESP. */
  ghost predicate StringsAt(mem: seq<Byte>, esp: nat, argv: seq<nat>, ts: seq<seq<Byte>>) {
    |argv| == |ts| && forall i | 0 <= i < |ts| :: esp <= argv[i] < PHYS_BASE && StringAt(mem, argv[i], ts[i])
  }

  method PushStrings(cmd: seq<Byte>, page: array<Byte>) returns (esp: nat, argv: seq<nat>)
    requires 0 !in cmd && page.Length == PGSIZE && StringBytes(Tokens(cmd)) <= PGSIZE
    modifies page
    ensures esp == PHYS_BASE - StringBytes(Tokens(cmd)) && StringsAt(page[..], esp, argv, Tokens(cmd))
  {
    hide Tokens, StringsAt, StringBytes, IsCString, Pushed;
    var n := |cmd|;
    var a := Copy(cmd);
    assert forall k | 0 <= k < n :: a[k] == a[..n][k];
    assert a[0..n] == cmd;
    ghost var ts := Tokens(cmd);
    esp, argv := PHYS_BASE, [];
    NoStrings(page[..]);
    assert ts[..0] == [];
    var token, save := Strtok(a, n, 0);
    while token.Some?
      invariant save <= n && a[n] == 0 && (forall k | save <= k < n :: a[k] != 0)
      invariant |argv| <= |ts| && (token.None? <==> |argv| == |ts|)
      invariant token.Some? ==> IsCString(a[..n + 1], token.value, ts[|argv|]) && Tokens(a[save..n]) == ts[|argv| + 1..]
      invariant BASE <= esp == PHYS_BASE - StringBytes(ts[..|argv|])
      invariant StringsAt(page[..], esp, argv, ts[..|argv|])
      decreases token.Some?, n - save
    {
      ghost var t, i := ts[|argv|], |argv|;
      PrefixFits(ts, i + 1);
      NextBytes(ts, i);
      NoNul(a[..n + 1], token.value, t);
      var data := TokenBytes(a, n, token.value, t);
      ghost var mem := page[..];
      var esp' := Push(page, esp, data);
      OneMoreString(mem, page[..], esp, argv, ts[..i], t);
      assert ts[..i] + [t] == ts[..i + 1];
      esp, argv := esp', argv + [esp'];
      token, save := Strtok(a, n, save);
      if token.Some? { assert ts[i + 1..][0] == ts[i + 1] && ts[i + 1..][1..] == ts[i + 2..]; }
    }
    assert ts[..|argv|] == ts;
  }

  lemma NextBytes(ts: seq<seq<Byte>>, i: nat)
    requires i < |ts|
    ensures StringBytes(ts[..i + 1]) == StringBytes(ts[..i]) + |ts[i]| + 1
  {
    assert ts[..i + 1][..i] == ts[..i];
  }

  lemma NoNul(mem: seq<Byte>, i: nat, t: seq<Byte>)
    requires IsCString(mem, i, t)
    ensures 0 !in t
  {
  }

  lemma NoStrings(mem: seq<Byte>)
    ensures StringsAt(mem, PHYS_BASE, [], []) && StringBytes([]) == 0
  {
  }

  lemma OneMoreString(mem: seq<Byte>, mem': seq<Byte>, esp: nat, argv: seq<nat>, ts: seq<seq<Byte>>, t: seq<Byte>)
    requires StringsAt(mem, esp, argv, ts) && Pushed(mem, mem', esp, t + [0]) && 0 !in t
    ensures StringsAt(mem', esp - |t| - 1, argv + [esp - |t| - 1], ts + [t])
  {
    StringPushed(mem, mem', esp, t);
    forall i | 0 <= i < |ts|
      ensures StringAt(mem', argv[i], ts[i])
    {
      StringKept(mem, mem', esp, t + [0], argv[i], ts[i]);
    }
  }

  /** Pads ESP down to a multiple of four with bytes of the null pointer. */
  method Pad(page: array<Byte>, esp: nat, ghost argv: seq<nat>, ghost ts: seq<seq<Byte>>) returns (esp': nat)
    requires page.Length == PGSIZE && BASE + esp % 4 <= esp <= PHYS_BASE && StringsAt(page[..], esp, argv, ts)
    modifies page
    ensures esp' == esp - esp % 4 && StringsAt(page[..], esp', argv, ts)
  {
    hide StringAt;
    ghost var mem := page[..];
    esp' := esp;
    var i := esp % 4;
    if i > 0 {
      var zeros := seq(i, _ => 0);
      esp' := Push(page, esp, zeros);
      forall k | 0 <= k < |ts|
        ensures StringAt(page[..], argv[k], ts[k])
      {
        StringKept(mem, page[..], esp, zeros, argv[k], ts[k]);
      }
    }
  }

  /** Pointers from the I-th on are on the stack, ESP at the I-th. */
  ghost predicate PointersFrom(mem: seq<Byte>, esp: nat, argv: seq<nat>, i: nat) {
    i <= |argv| && forall k: nat | i <= k <= |argv| :: WordAt(mem, esp + 4 * (k - i), Pointer(argv, k))
  }

  /** argv[k], with the null pointer at the end. */
  function Pointer(argv: seq<nat>, k: nat): nat { if k < |argv| then argv[k] else 0 }

  /** The loop that pushes argv[argc] down to argv[0]. */
  method PushPointers(page: array<Byte>, start: nat, argv: seq<nat>, ghost ts: seq<seq<Byte>>) returns (esp: nat)
    requires page.Length == PGSIZE && BASE + 4 * (|argv| + 1) <= start <= PHYS_BASE
             && StringsAt(page[..], start, argv, ts)
    modifies page
    ensures esp == start - 4 * (|argv| + 1) && StringsAt(page[..], esp, argv, ts)
            && PointersFrom(page[..], esp, argv, 0)
  {
    hide StringAt, WordAt, Pushed;
    ghost var mem := page[..];
    esp := Push(page, start, WordBytes(0));
    StringsKept(mem, page[..], start, WordBytes(0), argv, ts);
    WordPushed(mem, page[..], start, 0);
    var i: nat := |argv|;
    while i > 0
      invariant i <= |argv| && esp == start - 4 * (|argv| + 1 - i) && StringsAt(page[..], esp, argv, ts)
                && PointersFrom(page[..], esp, argv, i)
    {
      i := i - 1;
      mem := page[..];
      ghost var top := esp;
      esp := Push(page, esp, WordBytes(argv[i]));
      StringsKept(mem, page[..], top, WordBytes(argv[i]), argv, ts);
      OneMorePointer(mem, page[..], top, argv, i);
    }
  }

  lemma StringsKept(mem: seq<Byte>, mem': seq<Byte>, esp: nat, data: seq<Byte>, argv: seq<nat>, ts: seq<seq<Byte>>)
    requires Pushed(mem, mem', esp, data) && StringsAt(mem, esp, argv, ts)
    ensures StringsAt(mem', esp - |data|, argv, ts)
  {
    forall k | 0 <= k < |ts|
      ensures StringAt(mem', argv[k], ts[k])
    {
      StringKept(mem, mem', esp, data, argv[k], ts[k]);
    }
  }

  lemma OneMorePointer(mem: seq<Byte>, mem': seq<Byte>, esp: nat, argv: seq<nat>, i: nat)
    requires PointersFrom(mem, esp, argv, i + 1) && i < |argv| && argv[i] < 0x1_0000_0000
             && Pushed(mem, mem', esp, WordBytes(argv[i]))
    ensures PointersFrom(mem', esp - 4, argv, i)
  {
    hide WordAt, Pushed;
    WordPushed(mem, mem', esp, argv[i]);
    forall k: nat | i <= k <= |argv| ensures WordAt(mem', esp - 4 + 4 * (k - i), Pointer(argv, k)) {
      if k > i {
        var x := Pointer(argv, k);
        assert WordAt(mem, esp + 4 * (k - (i + 1)), x);
        WordStays(mem, mem', esp, WordBytes(argv[i]), esp + 4 * (k - (i + 1)), x);
      }
    }
  }

  /** setup_stack's layout on the zeroed page PAGE, when it fits. */
  method SetupStack(cmd: seq<Byte>, page: array<Byte>) returns (esp: nat, ghost argv: seq<nat>)
    requires 0 !in cmd && page.Length == PGSIZE && FitsPage(Tokens(cmd))
    modifies page
    ensures BASE <= esp && IsFrame(page[..], esp, argv, Tokens(cmd))
    ensures Decoded(page[..], esp) == Tokens(cmd)
  {
    hide Tokens, StringsAt, PointersFrom, WordAt, Pushed, IsFrame, Decoded;
    ghost var ts := Tokens(cmd);
    var argc := CountTokens(cmd);
    var pointers;
    esp, pointers := PushStrings(cmd, page);
    argv := pointers;
    SameCount(page[..], esp, argv, ts);
    esp := Pad(page, esp, argv, ts);
    esp := PushPointers(page, esp, pointers, ts);
    esp := PushFrame(page, esp, argc, argv, ts);
    DecodedFrame(page[..], esp, argv, ts);
  }

  /** argv itself, argc and the return address. */
  method PushFrame(page: array<Byte>, bottom: nat, argc: nat, ghost argv: seq<nat>, ghost ts: seq<seq<Byte>>)
    returns (esp: nat)
    requires page.Length == PGSIZE && bottom % 4 == 0 && BASE + 12 <= bottom < PHYS_BASE && argc == |ts| < PGSIZE
    requires StringsAt(page[..], bottom, argv, ts) && PointersFrom(page[..], bottom, argv, 0)
    modifies page
    ensures esp == bottom - 12 && IsFrame(page[..], esp, argv, ts)
  {
    hide StringsAt, PointersFrom, WordAt, Pushed, IsFrame, WordBytes;
    ghost var m0 := page[..];
    esp := Push(page, bottom, WordBytes(bottom));
    ghost var m1 := page[..];
    esp := Push(page, esp, WordBytes(argc));
    ghost var m2 := page[..];
    esp := Push(page, esp, WordBytes(0));
    FrameDone(m0, m1, m2, page[..], bottom, argv, ts);
  }

  lemma SameCount(mem: seq<Byte>, esp: nat, argv: seq<nat>, ts: seq<seq<Byte>>)
    requires StringsAt(mem, esp, argv, ts)
    ensures |argv| == |ts|
  {
  }

  /** The three last words. */
  lemma FrameDone(m0: seq<Byte>, m1: seq<Byte>, m2: seq<Byte>, m3: seq<Byte>, bottom: nat, argv: seq<nat>,
                  ts: seq<seq<Byte>>)
    requires bottom % 4 == 0 && BASE + 12 <= bottom < PHYS_BASE && |ts| < PGSIZE
    requires StringsAt(m0, bottom, argv, ts) && PointersFrom(m0, bottom, argv, 0)
    requires Pushed(m0, m1, bottom, WordBytes(bottom)) && Pushed(m1, m2, bottom - 4, WordBytes(|ts|))
             && Pushed(m2, m3, bottom - 8, WordBytes(0))
    ensures IsFrame(m3, bottom - 12, argv, ts)
  {
    hide StringAt, WordAt, Pushed;
    WordPushed(m0, m1, bottom, bottom);
    WordPushed(m1, m2, bottom - 4, |ts|);
    WordPushed(m2, m3, bottom - 8, 0);
    WordStays(m1, m2, bottom - 4, WordBytes(|ts|), bottom - 4, bottom);
    WordStays(m2, m3, bottom - 8, WordBytes(0), bottom - 4, bottom);
    WordStays(m2, m3, bottom - 8, WordBytes(0), bottom - 8, |ts|);
    StringsKept(m0, m1, bottom, WordBytes(bottom), argv, ts);
    StringsKept(m1, m2, bottom - 4, WordBytes(|ts|), argv, ts);
    StringsKept(m2, m3, bottom - 8, WordBytes(0), argv, ts);
    forall k: nat | k <= |argv|
      ensures WordAt(m3, bottom + 4 * k, Pointer(argv, k))
    {
      PointerKept(m0, m1, m2, m3, bottom, argv, |ts|, k);
    }
    forall i | 0 <= i < |ts| ensures WordAt(m3, bottom + 4 * i, argv[i]) { assert Pointer(argv, i) == argv[i]; }
    assert Pointer(argv, |ts|) == 0;
  }

  lemma PointerKept(m0: seq<Byte>, m1: seq<Byte>, m2: seq<Byte>, m3: seq<Byte>, bottom: nat, argv: seq<nat>, argc: nat,
                    k: nat)
    requires BASE + 12 <= bottom < PHYS_BASE && argc < PGSIZE && PointersFrom(m0, bottom, argv, 0) && k <= |argv|
    requires Pushed(m0, m1, bottom, WordBytes(bottom)) && Pushed(m1, m2, bottom - 4, WordBytes(argc))
             && Pushed(m2, m3, bottom - 8, WordBytes(0))
    ensures WordAt(m3, bottom + 4 * k, Pointer(argv, k))
  {
    hide WordAt, Pushed;
    var x := Pointer(argv, k);
    assert WordAt(m0, bottom + 4 * (k - 0), x);
    WordStays(m0, m1, bottom, WordBytes(bottom), bottom + 4 * k, x);
    WordStays(m1, m2, bottom - 4, WordBytes(argc), bottom + 4 * k, x);
    WordStays(m2, m3, bottom - 8, WordBytes(0), bottom + 4 * k, x);
  }
}
