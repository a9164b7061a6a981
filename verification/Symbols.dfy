/**
  Symbol lookup for stack traces: the symbol map is scanned line by line and edited in place while
  a name is copied out of it. A line is 16 hexadecimal digits, a separator and a name.
 */
module Symbols {
  import opened Bits
  import opened Options

  const NUL: char := 0 as char
  const NEWLINE: char := '\n'

  // ---------------------------------------------------------------- numbers

  /** What `s_pointer_to_number` adds for a character: 0 if it is no hexadecimal digit. */
  function Digit(c: char): nat {
    if '0' <= c <= '9' then (c - '0') as nat
    else if 'a' <= c <= 'f' then (c - 'a') as nat + 0xa
    else if 'A' <= c <= 'F' then (c - 'A') as nat + 0xa
    else 0
  }

  lemma DigitIsSmall(c: char)
    ensures Digit(c) < 16
  {}

  /** The number a string of digits denotes, the first digit counting most. */
  function Value(s: string): nat {
    if s == [] then 0 else 16 * Value(s[..|s| - 1]) + Digit(s[|s| - 1])
  }

  function Pow16(n: nat): nat {
    if n == 0 then 1 else 16 * Pow16(n - 1)
  }

  lemma {:induction false} ValueBound(s: string)
    ensures Value(s) < Pow16(|s|)
  {
    if s != [] {
      ValueBound(s[..|s| - 1]);
      DigitIsSmall(s[|s| - 1]);
    }
  }

  lemma SixteenDigits()
    ensures Pow16(16) == TWO_64
  {
    assert Pow16(4) == 0x1_0000;
    assert Pow16(8) == 0x1_0000 * Pow16(4);
    assert Pow16(12) == 0x1_0000 * Pow16(8);
  }

  lemma {:induction false} Pow16Monotone(m: nat, n: nat)
    requires m <= n
    ensures Pow16(m) <= Pow16(n)
  {
    if m < n {
      Pow16Monotone(m, n - 1);
    }
  }

  /** The hexadecimal digit for a value below 16, in either case. */
  function HexChar(d: nat, upper: bool): char
    requires d < 16
  {
    if d < 10 then '0' + d as char
    else if upper then 'A' + (d - 10) as char
    else 'a' + (d - 10) as char
  }

  /** `n` hexadecimal digits of `v`; `upper` says for each position which case a letter has. */
  function Print(v: nat, n: nat, upper: seq<bool>): (s: string)
    requires |upper| == n
    ensures |s| == n
  {
    if n == 0 then [] else Print(v / 16, n - 1, upper[..n - 1]) + [HexChar(v % 16, upper[n - 1])]
  }

  /** Reading undoes printing, for every value and every mix of cases. */
  lemma {:induction false} ReadPrinted(v: nat, n: nat, upper: seq<bool>)
    requires |upper| == n && v < Pow16(n)
    ensures Value(Print(v, n, upper)) == v
  {
    if n > 0 {
      ReadPrinted(v / 16, n - 1, upper[..n - 1]);
      var s := Print(v, n, upper);
      assert s[..n - 1] == Print(v / 16, n - 1, upper[..n - 1]);
      assert Digit(HexChar(v % 16, upper[n - 1])) == v % 16;
    }
  }

  /** Every 64-bit address printed with 16 digits is read back. */
  lemma PointerRoundTrip(v: u64, upper: seq<bool>)
    requires |upper| == 16
    ensures Value(Print(v, 16, upper)) == v
  {
    SixteenDigits();
    ReadPrinted(v, 16, upper);
  }

  /** `s_pointer_to_number`: the 16 characters at `str`. */
  method PointerToNumber(buf: array<char>, str: nat) returns (n: u64)
    requires str + 16 <= buf.Length
    ensures n == Value(buf[str..str + 16])
  {
    n := 0;
    var i := 0;
    assert Value(buf[str..str + 0]) == 0;
    hide Value;
    while i < 16
      invariant i <= 16 && n == Value(buf[str..str + i])
    {
      var c := buf[str + i];
      NextDigit(buf[str..str + i], c);
      NextSlice(buf[..], str, i);
      n := Wrap(n * 16);
      if '0' <= c <= '9' {
        n := n + (c - '0') as int;
      } else if 'a' <= c <= 'f' {
        n := n + (c - 'a') as int + 0xa;
      } else if 'A' <= c <= 'F' {
        n := n + (c - 'A') as int + 0xa;
      }
      i := i + 1;
    }
  }

  lemma NextSlice(b: seq<char>, from: nat, n: nat)
    requires from + n < |b|
    ensures b[from..from + n + 1] == b[from..from + n] + [b[from + n]]
  {}

  /** Letters beyond the hexadecimal ones, and all other characters, count as 0. */
  lemma OtherCharacters(s: string, c: char)
    requires !('0' <= c <= '9') && !('a' <= c <= 'f') && !('A' <= c <= 'F')
    ensures Value(s + [c]) == 16 * Value(s)
  {
    ValueNext(s, c);
  }

  /** Shifting in one more of at most 16 digits loses nothing. */
  lemma NextDigit(s: string, c: char)
    requires |s| < 16
    ensures Value(s + [c]) == 16 * Value(s) + Digit(c) < TWO_64 && Wrap(Value(s) * 16) == 16 * Value(s)
  {
    ValueNext(s, c);
    hide Value, Digit, Pow16;
    ValueBound(s + [c]);
    SixteenDigits();
    Pow16Monotone(|s| + 1, 16);
  }

  lemma ValueNext(s: string, c: char)
    ensures Value(s + [c]) == 16 * Value(s) + Digit(c)
  {
    var t := s + [c];
    assert t[..|t| - 1] == s;
  }

  // ---------------------------------------------------------------- strings

  predicate Plain(s: string) {
    NUL !in s
  }

  /** The position of the first `ch` before the terminator. */
  function FindChar(s: seq<char>, ch: char): Option<nat> {
    if s == [] || s[0] == NUL then None
    else if s[0] == ch then Some(0)
    else
      match FindChar(s[1..], ch)
      case None => None
      case Some(i) => Some(i + 1)
  }

  /** The first occurrence before the terminator, or none exactly if there is none before it. */
  lemma {:induction false} FindCharIff(s: seq<char>, ch: char)
    ensures match FindChar(s, ch)
            case Some(i) => i < |s| && s[i] == ch && ch != NUL && forall j | 0 <= j < i :: s[j] != ch && s[j] != NUL
            case None => forall i | 0 <= i < |s| && s[i] == ch :: exists j :: 0 <= j <= i && s[j] == NUL
  {
    if s != [] && s[0] != NUL && s[0] != ch {
      FindCharIff(s[1..], ch);
      if FindChar(s[1..], ch) == None {
        forall i | 0 <= i < |s| && s[i] == ch ensures exists j :: 0 <= j <= i && s[j] == NUL {
          assert s[1..][i - 1] == ch;
          var j :| 0 <= j <= i - 1 && s[1..][j] == NUL;
          assert s[j + 1] == NUL;
        }
      }
    }
  }

  lemma {:induction false} FindAfter(text: string, rest: seq<char>, ch: char)
    requires Plain(text) && ch !in text && ch != NUL
    ensures FindChar(text + [ch] + rest, ch) == Some(|text|)
  {
    var s := text + [ch] + rest;
    if text != [] {
      assert s[0] == text[0] && s[1..] == text[1..] + [ch] + rest;
      FindAfter(text[1..], rest, ch);
    }
  }

  /** `strchr`. */
  method StrChr(buf: array<char>, str: nat, ch: char) returns (r: Option<nat>)
    requires str < buf.Length && buf[buf.Length - 1] == NUL
    ensures match FindChar(buf[str..], ch) case None => r == None case Some(i) => r == Some(str + i)
  {
    var i := str;
    while buf[i] != NUL
      invariant str <= i < buf.Length
      invariant match FindChar(buf[i..], ch)
                case None => FindChar(buf[str..], ch) == None
                case Some(j) => FindChar(buf[str..], ch) == Some(i - str + j)
      decreases buf.Length - i
    {
      if buf[i] == ch {
        return Some(i);
      }
      assert buf[i..][1..] == buf[i + 1..];
      i := i + 1;
    }
    return None;
  }

  /** The C string at the start of a sequence, cut to `max` characters. */
  function CString(s: seq<char>, max: nat): string {
    if s == [] || s[0] == NUL || max == 0 then [] else [s[0]] + CString(s[1..], max - 1)
  }

  lemma {:induction false} CStringIs(text: string, rest: seq<char>, max: nat)
    requires Plain(text) && (max <= |text| || (rest != [] && rest[0] == NUL))
    ensures CString(text + rest, max) == text[..if |text| < max then |text| else max]
  {
    if text == [] {
      assert text + rest == rest;
    } else if max > 0 {
      assert (text + rest)[1..] == text[1..] + rest;
      CStringIs(text[1..], rest, max - 1);
    }
  }

  /** `strncpy` of at most `length` characters of the string at `src`; it terminates the copy. */
  method StrNCpy(dst: array<char>, buf: array<char>, src: nat, length: nat, ghost text: string)
    requires dst != buf && length < dst.Length
    requires src + |text| < buf.Length && buf[src..src + |text|] == text && Plain(text) && buf[src + |text|] == NUL
    modifies dst
    ensures var n := if |text| < length then |text| else length;
            && dst[..n] == text[..n] && dst[n] == NUL && dst[n + 1..] == old(dst[n + 1..])
            && CString(dst[..], dst.Length) == text[..n]
  {
    var i := 0;
    while i < length && buf[src + i] != NUL
      invariant i <= length && i <= |text| && dst[..i] == text[..i]
      invariant forall j | i <= j < dst.Length :: dst[j] == old(dst[j])
    {
      assert buf[src + i] == (buf[src..src + |text|] + [NUL])[i];
      assert i < |text|;
      dst[i] := buf[src + i];
      i := i + 1;
    }
    assert i < |text| ==> buf[src + i] == text[i] by {
      if i < |text| {
        assert buf[src + i] == buf[src..src + |text|][i];
      }
    }
    dst[i] := NUL;
    ghost var n := if |text| < length then |text| else length;
    assert i == n;
    assert dst[..] == text[..n] + dst[n..];
    CStringIs(text[..n], dst[n..], dst.Length);
  }

  // ---------------------------------------------------------------- the scan

  /** A line of the file, without its newline. */
  predicate IsLine(line: string) {
    Plain(line) && NEWLINE !in line
  }

  predicate AreLines(lines: seq<string>) {
    forall i | 0 <= i < |lines| :: IsLine(lines[i])
  }

  /** Well-formed lines: 16 digits, a separator and a name. */
  predicate AreEntries(lines: seq<string>) {
    AreLines(lines) && forall i | 0 <= i < |lines| :: |lines[i]| >= 17
  }

  function Address(line: string): nat
    requires |line| >= 17
  {
    Value(line[..16])
  }

  /** The part of a name that `function_name` can hold. */
  function Cut(name: string): string {
    if |name| < 63 then name else name[..63]
  }

  function Name(line: string): string
    requires |line| >= 17
  {
    Cut(line[17..])
  }

  /** The bytes of a map file. */
  function Text(lines: seq<string>): string {
    if lines == [] then [] else lines[0] + [NEWLINE] + Text(lines[1..])
  }

  /** The address read at a line; a line that is too short is read past its end. */
  function AddressAt(lines: seq<string>): nat {
    var text := Text(lines);
    Value(if |text| < 16 then text else text[..16])
  }

  /** What is copied from 17 characters into a line, its newline blanked out: the name, or text after the line. */
  function NameAt(lines: seq<string>): string
    requires lines != []
  {
    var line, after := lines[0], Text(lines[1..]);
    if |line| >= 17 then Cut(line[17..])
    else if |line| + |after| >= 16 then Cut(after[16 - |line|..])
    else []
  }

  /** The name the scan leaves: that of the last line before the first whose address exceeds `target`. */
  function Scan(lines: seq<string>, target: u64, current: string): string {
    if lines == [] || AddressAt(lines) > target then current
    else Scan(lines[1..], target, NameAt(lines))
  }

  /** The scan does not begin at all if the first newline is among the first eleven characters. */
  function Found(lines: seq<string>, target: u64, current: string): string {
    if lines != [] && |lines[0]| <= 10 then current else Scan(lines, target, current)
  }

  /** It does begin if the first line has eleven characters or more. */
  lemma FirstLine(lines: seq<string>, target: u64, current: string)
    requires lines != []
    ensures |lines[0]| == 10 ==> Found(lines, target, current) == current
    ensures |lines[0]| == 11 ==> Found(lines, target, current) == Scan(lines, target, current)
  {}

  /** The file is long enough for what is read at any of its lines. */
  predicate Readable(lines: seq<string>) {
    lines == [] || |lines[|lines| - 1]| >= 16
  }

  lemma {:induction false} ReadableText(lines: seq<string>)
    requires Readable(lines) && lines != []
    ensures 17 <= |Text(lines)| == |lines[0]| + 1 + |Text(lines[1..])|
  {
    if |lines| > 1 {
      ReadableText(lines[1..]);
    } else {
      assert lines[1..] == [];
    }
  }

  /** The same for well-formed lines, which are read one at a time. */
  function Lookup(lines: seq<string>, target: u64, current: string): string
    requires AreEntries(lines)
  {
    if lines == [] || Address(lines[0]) > target then current
    else Lookup(lines[1..], target, Name(lines[0]))
  }

  /** On a well-formed map the scan reads each line by itself. */
  lemma {:induction false} FoundIsLookup(lines: seq<string>, target: u64, current: string)
    requires AreEntries(lines)
    ensures Readable(lines) && Found(lines, target, current) == Lookup(lines, target, current)
  {
    if lines != [] {
      assert Text(lines)[..16] == lines[0][..16];
      FoundIsLookup(lines[1..], target, Name(lines[0]));
    }
  }

  ghost predicate Sorted(lines: seq<string>)
    requires AreEntries(lines)
  {
    forall i, j | 0 <= i < j < |lines| :: Address(lines[i]) <= Address(lines[j])
  }

  /** Line `k` is the last one whose address is at most `target`. */
  ghost predicate IsPredecessor(lines: seq<string>, target: u64, k: nat)
    requires AreEntries(lines)
  {
    k < |lines| && Address(lines[k]) <= target && forall j | k < j < |lines| :: Address(lines[j]) > target
  }

  /** If the first address is at most `target`, some line is the last such. */
  lemma {:induction false} PredecessorExists(lines: seq<string>, target: u64) returns (k: nat)
    requires AreEntries(lines) && lines != [] && Address(lines[0]) <= target
    ensures IsPredecessor(lines, target, k)
  {
    var last := |lines| - 1;
    if Address(lines[last]) <= target {
      k := last;
    } else {
      k := PredecessorExists(lines[..last], target);
      assert lines[..last][k] == lines[k];
      forall j | k < j < |lines| ensures Address(lines[j]) > target {
        assert j < last ==> lines[..last][j] == lines[j];
      }
    }
  }

  /**
    On a sorted map the scan is predecessor search: it finds the last line whose address is at most
    `target` and leaves its name, cut to 63 characters; or there is none and the earlier name stays.
   */
  lemma LookupIsPredecessor(lines: seq<string>, target: u64, current: string)
    requires AreEntries(lines) && Sorted(lines)
    ensures var found := Lookup(lines, target, current);
            if forall k | 0 <= k < |lines| :: Value(lines[k][..16]) > target
            then found == current
            else exists k ::
                   && 0 <= k < |lines| && Value(lines[k][..16]) <= target
                   && (forall j | k < j < |lines| :: Value(lines[j][..16]) > target)
                   && |found| == (if |lines[k]| - 17 < 63 then |lines[k]| - 17 else 63)
                   && found == lines[k][17..17 + |found|]
  {
    if lines != [] && Address(lines[0]) <= target {
      var k := PredecessorExists(lines, target);
      LookupAt(lines, target, current, k);
      NameIs(lines[k]);
      hide Lookup, Value, Name;
      assert Value(lines[k][..16]) == Address(lines[k]) <= target;
    } else {
      forall k | 0 <= k < |lines| ensures Value(lines[k][..16]) > target {
        assert Address(lines[0]) <= Address(lines[k]);
      }
    }
  }

  lemma NameIs(line: string)
    requires |line| >= 17
    ensures |Name(line)| == (if |line| - 17 < 63 then |line| - 17 else 63) && Name(line) == line[17..17 + |Name(line)|]
  {}

  lemma {:induction false} LookupAt(lines: seq<string>, target: u64, current: string, k: nat)
    requires AreEntries(lines) && Sorted(lines) && IsPredecessor(lines, target, k)
    ensures Lookup(lines, target, current) == Name(lines[k])
  {
    assert Address(lines[0]) <= Address(lines[k]);
    var rest := lines[1..];
    if k == 0 {
      if rest != [] {
        assert Address(rest[0]) == Address(lines[1]) > target;
      }
    } else {
      assert rest[k - 1] == lines[k];
      forall i, j | 0 <= i < j < |rest| ensures Address(rest[i]) <= Address(rest[j]) {
        assert rest[i] == lines[i + 1] && rest[j] == lines[j + 1];
      }
      forall j | k - 1 < j < |rest| ensures Address(rest[j]) > target {
        assert rest[j] == lines[j + 1];
      }
      LookupAt(rest, target, Name(lines[0]), k - 1);
    }
  }

  /**
    The buffer for the name is static: a lookup leaves whatever an earlier one found exactly if
    the map's first address is above the target.
   */
  lemma StaleIff(lines: seq<string>, target: u64)
    requires AreEntries(lines)
    ensures (forall current :: Lookup(lines, target, current) == current)
            <==> lines == [] || Address(lines[0]) > target
  {
    if lines != [] && Address(lines[0]) <= target {
      var found := Lookup(lines[1..], target, Name(lines[0]));
      var other := found + ['?'];
      assert Lookup(lines, target, other) == found;
      assert |other| == |found| + 1;
      assert Lookup(lines, target, other) != other;
    }
  }

  /** What lies ahead of the scan: at a line, its text and its newline; else the terminator. */
  lemma LineAhead(b: seq<char>, curr: nat, rest: seq<string>)
    requires AreLines(rest) && curr < |b| && b[curr..] == Text(rest) + [NUL]
    ensures rest == [] ==> curr == |b| - 1
    ensures rest != [] ==>
              var end := curr + |rest[0]|;
              && end < |b| - 1 && b[curr..end] == rest[0] && b[end] == NEWLINE
              && FindChar(b[curr..], NEWLINE) == Some(|rest[0]|)
              && b[end + 1..] == Text(rest[1..]) + [NUL]
  {
    if rest != [] {
      var line, tail := rest[0], Text(rest[1..]) + [NUL];
      var s := b[curr..];
      assert s == line + [NEWLINE] + tail;
      FindAfter(line, tail, NEWLINE);
      assert b[curr..curr + |line|] == s[..|line|] == line;
      assert b[curr + |line|] == s[|line|];
      assert b[curr + |line| + 1..] == s[|line| + 1..] == tail;
    }
  }

  /** What is reported for a line is the string 17 characters on, cut to 63, with the line's newline blanked out. */
  lemma NameIsCopy(rest: seq<string>)
    requires AreLines(rest) && rest != [] && Readable(rest)
    ensures |rest[0] + [NUL] + Text(rest[1..]) + [NUL]| > 17
    ensures NameAt(rest) == CString((rest[0] + [NUL] + Text(rest[1..]) + [NUL])[17..], 63)
  {
    ReadableText(rest);
    PlainText(rest[1..]);
    var line, after := rest[0], Text(rest[1..]);
    hide Text, CString;
    if |line| >= 17 {
      assert (line + [NUL] + after + [NUL])[17..] == line[17..] + ([NUL] + after + [NUL]);
      CStringIs(line[17..], [NUL] + after + [NUL], 63);
    } else {
      assert (line + [NUL] + after + [NUL])[17..] == after[16 - |line|..] + [NUL];
      CStringIs(after[16 - |line|..], [NUL], 63);
    }
  }

  lemma {:induction false} PlainText(lines: seq<string>)
    requires AreLines(lines)
    ensures Plain(Text(lines))
  {
    if lines != [] {
      PlainText(lines[1..]);
    }
  }

  /** The string that is copied when the newline at the end of the line is blanked out. */
  function CopiedText(rest: seq<string>): string
    requires rest != [] && Readable(rest)
  {
    if |rest[0]| >= 17 then rest[0][17..]
    else
      ReadableText(rest);
      Text(rest[1..])[16 - |rest[0]|..]
  }

  lemma CopiedIsName(rest: seq<string>)
    requires AreLines(rest) && rest != [] && Readable(rest)
    ensures Plain(CopiedText(rest)) && Cut(CopiedText(rest)) == NameAt(rest)
  {
    ReadableText(rest);
    PlainText(rest[1..]);
  }

  lemma CopiedFrom(b: seq<char>, curr: nat, rest: seq<string>)
    requires AreLines(rest) && rest != [] && Readable(rest) && curr < |b| && b[curr..] == Text(rest) + [NUL]
    ensures var text, end := CopiedText(rest), curr + |rest[0]|;
            && curr + 17 + |text| < |b| && end < |b|
            && b[end := NUL][curr + 17..curr + 17 + |text|] == text && b[end := NUL][curr + 17 + |text|] == NUL
  {
    LineAhead(b, curr, rest);
    ReadableText(rest);
    CopiedSlice(b, curr, rest);
    hide Text, Plain, FindChar, Readable, CopiedText;
    Blanked(b, curr + |rest[0]|, curr + 17, curr + 17 + |CopiedText(rest)|);
  }

  lemma CopiedSlice(b: seq<char>, curr: nat, rest: seq<string>)
    requires rest != [] && Readable(rest) && curr + |rest[0]| < |b| && b[curr..curr + |rest[0]|] == rest[0]
    requires b[curr + |rest[0]| + 1..] == Text(rest[1..]) + [NUL]
    ensures var text, end := CopiedText(rest), curr + |rest[0]|;
            && curr + 17 + |text| < |b| && b[curr + 17..curr + 17 + |text|] == text
            && (curr + 17 + |text| == end || (end < curr + 17 && b[curr + 17 + |text|] == NUL))
  {
    ReadableText(rest);
    hide Text, Readable;
    if |rest[0]| >= 17 {
      SliceOfLine(b, curr, rest[0]);
    } else {
      SuffixEnds(b, curr + |rest[0]| + 1, Text(rest[1..]), 16 - |rest[0]|);
    }
  }

  lemma SliceOfLine(b: seq<char>, curr: nat, line: string)
    requires curr + |line| <= |b| && b[curr..curr + |line|] == line && |line| >= 17
    ensures b[curr + 17..curr + |line|] == line[17..]
  {
    assert b[curr..curr + |line|][17..] == b[curr + 17..curr + |line|];
  }

  /** Blanking out a character at the end of a slice, or before it, leaves the slice alone. */
  lemma Blanked(b: seq<char>, end: nat, from: nat, to: nat)
    requires from <= to < |b| && end < |b| && (to == end || (end < from && b[to] == NUL))
    ensures b[end := NUL][from..to] == b[from..to] && b[end := NUL][to] == NUL
  {}

  lemma SuffixEnds(b: seq<char>, from: nat, text: string, skip: nat)
    requires from <= |b| && b[from..] == text + [NUL] && skip <= |text|
    ensures |b| == from + |text| + 1 && b[from + skip..from + |text|] == text[skip..] && b[from + |text|] == NUL
  {
    assert b[from..][skip..|text|] == text[skip..];
    assert b[from..][|text|] == NUL;
  }

  /** `*end_of_line = 0; strncpy(function_name, curr_data + 17, 63); *end_of_line = '\n'`. */
  method CopyName(buf: array<char>, functionName: array<char>, curr: nat, endOfLine: nat, ghost rest: seq<string>)
    requires buf != functionName && functionName.Length == 64
    requires AreLines(rest) && rest != [] && Readable(rest) && curr < buf.Length && buf[curr..] == Text(rest) + [NUL]
    requires endOfLine == curr + |rest[0]| < buf.Length && buf[endOfLine] == NEWLINE
    modifies buf, functionName
    ensures buf[..] == old(buf[..]) && CString(functionName[..], 64) == NameAt(rest)
    ensures |rest[0]| >= 17 ==>
              CString(functionName[..], 64) == rest[0][17..if |rest[0]| < 80 then |rest[0]| else 80]
  {
    hide CString, NameAt, Text, Plain, CopiedText;
    ghost var before := buf[..];
    assert before[curr..] == buf[curr..];
    ghost var text := CopiedText(rest);
    CopiedFrom(before, curr, rest);
    CopiedIsName(rest);
    buf[endOfLine] := NUL;
    assert buf[..] == before[endOfLine := NUL];
    assert buf[curr + 17..curr + 17 + |text|] == buf[..][curr + 17..curr + 17 + |text|];
    StrNCpy(functionName, buf, curr + 17, 63, text);
    buf[endOfLine] := NEWLINE;
    assert buf[..] == before;
    NameAtLong(rest);
  }

  lemma NameAtLong(rest: seq<string>)
    requires rest != []
    ensures |rest[0]| >= 17 ==> NameAt(rest) == rest[0][17..if |rest[0]| < 80 then |rest[0]| else 80]
  {}

  lemma AddressText(b: seq<char>, curr: nat, rest: seq<string>)
    requires Readable(rest) && rest != [] && curr < |b| && b[curr..] == Text(rest) + [NUL]
    ensures curr + 17 < |b| && Value(b[curr..curr + 16]) == AddressAt(rest)
  {
    ReadableText(rest);
    assert b[curr..curr + 16] == b[curr..][..16] == Text(rest)[..16];
  }

  /**
    The scan of `s_print_function_name`: afterwards the static name buffer holds the name found, and the
    file is byte for byte what it was. `nullOffset` is whatever a null pointer minus `data` gives.
   */
  method FindName(buf: array<char>, functionName: array<char>, target: u64, nullOffset: int, ghost lines: seq<string>)
    requires buf != functionName && functionName.Length == 64
    requires AreLines(lines) && Readable(lines) && buf[..] == Text(lines) + [NUL]
    modifies buf, functionName
    ensures buf[..] == old(buf[..])
    ensures CString(functionName[..], 64) == Found(lines, target, old(CString(functionName[..], 64)))
  {
    hide CString, Value, FindChar, Text, Plain, AddressAt, NameAt;
    ghost var rest, current := lines, CString(functionName[..], 64);
    var size := buf.Length - 1;
    var curr := 0;
    var done := false;
    while !done
      invariant 0 <= curr <= size == buf.Length - 1 && AreLines(rest) && Readable(rest)
      invariant buf[..] == old(buf[..]) && buf[curr..] == Text(rest) + [NUL]
      invariant CString(functionName[..], 64) == current && (curr > 10 || (curr == 0 && rest == lines))
      invariant Found(lines, target, old(CString(functionName[..], 64)))
                == if done then current
                   else if curr == 0 then Found(rest, target, current)
                   else Scan(rest, target, current)
      decreases !done, |rest|
    {
      LineAhead(buf[..], curr, rest);
      var next := StrChr(buf, curr, NEWLINE);
      var offset := if next.Some? then next.value else nullOffset;
      if offset > 10 && curr < size {
        AddressText(buf[..], curr, rest);
        var addr := PointerToNumber(buf, curr);
        if addr > target {
          done := true;
        } else {
          CopyName(buf, functionName, curr, next.value, rest);
          curr := next.value + 1;
          current := NameAt(rest);
          rest := rest[1..];
        }
      } else {
        done := true;
      }
    }
  }
}
