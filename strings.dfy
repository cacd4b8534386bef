/**
 * Character classes and string helpers shared by the preprocessing stages.
 * Whitespace is Python's; digits and letters are the ASCII parts of `\d` and
 * `[A-Za-z]`.
 */
module Strings {
  import opened Wrappers

  /**
   * Python's `str.isspace()`: the characters `\s` matches in a `str` pattern
   * and `str.strip()` removes.
   */
  predicate IsSpace(c: char) {
    '\t' <= c <= '\r' || '\U{001C}' <= c <= ' ' || c == '\U{0085}' || c == '\U{00A0}' ||
    c == '\U{1680}' || '\U{2000}' <= c <= '\U{200A}' || c == '\U{2028}' || c == '\U{2029}' ||
    c == '\U{202F}' || c == '\U{205F}' || c == '\U{3000}'
  }

  predicate IsDigit(c: char) { '0' <= c <= '9' }

  predicate IsLetter(c: char) { 'a' <= c <= 'z' || 'A' <= c <= 'Z' }

  predicate IsBlank(c: char) { c == ' ' }

  predicate IsNewline(c: char) { c == '\n' }

  function Lower(c: char): char {
    if 'A' <= c <= 'Z' then (c as int + 32) as char else c
  }

  function Upper(c: char): char {
    if 'a' <= c <= 'z' then (c as int - 32) as char else c
  }

  /** `str.lower()` on ASCII letters. */
  function LowerAll(s: string): (r: string)
    ensures |r| == |s| && forall i :: 0 <= i < |s| ==> r[i] == Lower(s[i])
  {
    seq(|s|, i requires 0 <= i < |s| => Lower(s[i]))
  }

  /** `str.upper()` on ASCII letters. */
  function UpperAll(s: string): (r: string)
    ensures |r| == |s| && forall i :: 0 <= i < |s| ==> r[i] == Upper(s[i])
  {
    seq(|s|, i requires 0 <= i < |s| => Upper(s[i]))
  }

  /** `s.replace(a, b)` for single characters. */
  function ReplaceChar(s: string, a: char, b: char): (r: string)
    ensures |r| == |s|
    ensures forall i :: 0 <= i < |s| ==> r[i] == (if s[i] == a then b else s[i])
  {
    seq(|s|, i requires 0 <= i < |s| => if s[i] == a then b else s[i])
  }

  /** Length of the longest prefix of `s` whose characters all satisfy `p`. */
  function Span(s: string, p: char -> bool): (n: nat)
    ensures n <= |s|
    ensures forall i :: 0 <= i < n ==> p(s[i])
    ensures n < |s| ==> !p(s[n])
  {
    if s != [] && p(s[0]) then 1 + Span(s[1..], p) else 0
  }

  /** Length of the prefix of `s` up to (not including) its first newline: `[^\n]*`. */
  function LineLength(s: string): (n: nat)
    ensures n <= |s|
    ensures forall i :: 0 <= i < n ==> s[i] != '\n'
    ensures n < |s| ==> s[n] == '\n'
  {
    if s != [] && s[0] != '\n' then 1 + LineLength(s[1..]) else 0
  }

  /** `t in s` for strings. */
  predicate IsSubstring(t: string, s: string)
    decreases |s|
  {
    t <= s || (s != [] && IsSubstring(t, s[1..]))
  }

  /** `t` occurs in `s` starting at index `i`. */
  predicate OccursAt(t: string, s: string, i: int) {
    0 <= i <= |s| - |t| && s[i..i + |t|] == t
  }

  lemma {:induction false} OccursIsSubstring(t: string, s: string, i: int)
    requires OccursAt(t, s, i)
    ensures IsSubstring(t, s)
    decreases i
  {
    if i == 0 {
      assert s[..|t|] == t;
    } else {
      assert s[1..][i - 1..i - 1 + |t|] == s[i..i + |t|];
      OccursIsSubstring(t, s[1..], i - 1);
    }
  }

  lemma {:induction false} SubstringOccurs(t: string, s: string)
    requires IsSubstring(t, s)
    ensures exists i :: OccursAt(t, s, i)
    decreases |s|
  {
    if t <= s {
      assert OccursAt(t, s, 0);
    } else {
      SubstringOccurs(t, s[1..]);
      var i :| OccursAt(t, s[1..], i);
      assert s[i + 1..i + 1 + |t|] == s[1..][i..i + |t|];
      assert OccursAt(t, s, i + 1);
    }
  }

  /** `s.find(t)`: the first index where `t` occurs, if any. */
  function FindFirst(s: string, t: string): (r: Option<nat>)
    ensures r.Some? ==> OccursAt(t, s, r.value)
    ensures r.Some? ==> forall j :: 0 <= j < r.value ==> !OccursAt(t, s, j)
    ensures r.None? ==> forall j :: !OccursAt(t, s, j)
    decreases |s|
  {
    if t <= s then
      assert s[..|t|] == t;
      Some(0)
    else if s == [] then None
    else
      var r := FindFirst(s[1..], t);
      forall j | 1 <= j <= |s| - |t|
        ensures OccursAt(t, s, j) == OccursAt(t, s[1..], j - 1)
      {
        assert s[j..j + |t|] == s[1..][j - 1..j - 1 + |t|];
      }
      assert !OccursAt(t, s, 0);
      match r
      case None => None
      case Some(i) => Some(i + 1)
  }

  predicate EndsWith(s: string, t: string) {
    |t| <= |s| && s[|s| - |t|..] == t
  }

  /** Index of the first occurrence of `c`, as `str.find` on one character. */
  function IndexOf(s: string, c: char): (r: Option<nat>)
    ensures r.Some? ==> r.value < |s| && s[r.value] == c && c !in s[..r.value]
    ensures r.None? ==> c !in s
  {
    if s == [] then None
    else if s[0] == c then Some(0)
    else match IndexOf(s[1..], c)
      case None => None
      case Some(i) => assert s[..i + 1] == [s[0]] + s[1..][..i]; Some(i + 1)
  }

  /** Index of the last occurrence of `c`, as `str.rfind` on one character. */
  function LastIndexOf(s: string, c: char): (r: Option<nat>)
    ensures r.Some? ==> r.value < |s| && s[r.value] == c && c !in s[r.value + 1..]
    ensures r.None? ==> c !in s
  {
    if s == [] then None
    else if s[|s| - 1] == c then Some(|s| - 1)
    else match LastIndexOf(s[..|s| - 1], c)
      case None => assert s == s[..|s| - 1] + [s[|s| - 1]]; None
      case Some(i) => assert s[i + 1..] == s[..|s| - 1][i + 1..] + [s[|s| - 1]]; Some(i)
  }

  /** The text after the last '/' (the whole text when there is none). */
  function AfterLastSlash(s: string): (r: string)
    ensures '/' !in r
    ensures EndsWith(s, r)
  {
    match LastIndexOf(s, '/')
    case None => s
    case Some(i) => s[i + 1..]
  }

  /** `s.strip()`: leading and trailing whitespace removed. */
  function Strip(s: string): (r: string)
    ensures |r| <= |s|
    ensures r != [] ==> !IsSpace(r[0]) && !IsSpace(r[|r| - 1])
  {
    DropTrailing(s[Span(s, IsSpace)..])
  }

  /** `s.rstrip()`. */
  function DropTrailing(t: string): (r: string)
    ensures |r| <= |t| && r == t[..|r|]
    ensures r != [] ==> !IsSpace(r[|r| - 1])
  {
    t[..|t| - TrailingSpaces(t)]
  }

  /** Number of whitespace characters at the end of `s`. */
  function TrailingSpaces(s: string): (n: nat)
    ensures n <= |s|
    ensures forall i :: |s| - n <= i < |s| ==> IsSpace(s[i])
    ensures n < |s| ==> !IsSpace(s[|s| - n - 1])
  {
    if s != [] && IsSpace(s[|s| - 1]) then 1 + TrailingSpaces(s[..|s| - 1]) else 0
  }

  /** `s` with every character satisfying `p` taken out. */
  function Erase(s: string, p: char -> bool): (r: string)
    ensures |r| <= |s|
    ensures forall i :: 0 <= i < |r| ==> !p(r[i])
  {
    if s == [] then [] else (if p(s[0]) then [] else [s[0]]) + Erase(s[1..], p)
  }

  lemma {:induction false} EraseAppend(a: string, b: string, p: char -> bool)
    ensures Erase(a + b, p) == Erase(a, p) + Erase(b, p)
  {
    if a != [] {
      assert (a + b)[1..] == a[1..] + b;
      EraseAppend(a[1..], b, p);
    } else {
      assert a + b == b;
    }
  }

  /** Erasing a run of characters that all satisfy `p` leaves nothing. */
  lemma {:induction false} EraseAll(s: string, p: char -> bool)
    requires forall i :: 0 <= i < |s| ==> p(s[i])
    ensures Erase(s, p) == []
  {
    if s != [] {
      EraseAll(s[1..], p);
    }
  }

  /** Dropping leading whitespace keeps the visible characters. */
  lemma {:induction false} SpanKeepsVisible(s: string)
    ensures Erase(s[Span(s, IsSpace)..], IsSpace) == Erase(s, IsSpace)
    decreases |s|
  {
    if s != [] && IsSpace(s[0]) {
      SpanKeepsVisible(s[1..]);
      assert s[1..][Span(s[1..], IsSpace)..] == s[Span(s, IsSpace)..];
    }
  }

  /** Dropping trailing whitespace keeps the visible characters. */
  lemma DropTrailingKeepsVisible(t: string)
    ensures Erase(DropTrailing(t), IsSpace) == Erase(t, IsSpace)
  {
    var n := |t| - TrailingSpaces(t);
    assert t == t[..n] + t[n..];
    EraseAppend(t[..n], t[n..], IsSpace);
    EraseAll(t[n..], IsSpace);
  }

  /** Stripping only takes away whitespace: the visible characters are those of the input. */
  lemma StripKeepsVisible(s: string)
    ensures Erase(Strip(s), IsSpace) == Erase(s, IsSpace)
  {
    SpanKeepsVisible(s);
    DropTrailingKeepsVisible(s[Span(s, IsSpace)..]);
  }

  /** Python's `str.split(sep)` for a one-character separator. */
  function Split(s: string, sep: char): (parts: seq<string>)
    ensures |parts| >= 1
    ensures forall k :: 0 <= k < |parts| ==> sep !in parts[k]
    decreases |s|
  {
    match IndexOf(s, sep)
    case None => [s]
    case Some(i) => [s[..i]] + Split(s[i + 1..], sep)
  }

  /** `sep.join(parts)`. */
  function Join(parts: seq<string>, sep: string): string {
    if parts == [] then []
    else if |parts| == 1 then parts[0]
    else parts[0] + sep + Join(parts[1..], sep)
  }

  /** A join ends with its last piece. */
  lemma {:induction false} JoinEndsWithLast(parts: seq<string>, sep: string)
    requires parts != []
    ensures EndsWith(Join(parts, sep), parts[|parts| - 1])
  {
    if |parts| > 1 {
      JoinEndsWithLast(parts[1..], sep);
      var j := Join(parts[1..], sep);
      var last := parts[|parts| - 1];
      assert Join(parts, sep) == (parts[0] + sep) + j;
      assert j[|j| - |last|..] == last;
      assert ((parts[0] + sep) + j)[|(parts[0] + sep) + j| - |last|..] == j[|j| - |last|..];
    }
  }

  /** Joining the pieces of a split gives the text back. */
  lemma {:induction false} JoinSplit(s: string, sep: char)
    ensures Join(Split(s, sep), [sep]) == s
    decreases |s|
  {
    match IndexOf(s, sep)
    case None =>
    case Some(i) =>
      var rest := Split(s[i + 1..], sep);
      JoinSplit(s[i + 1..], sep);
      assert Split(s, sep) == [s[..i]] + rest;
      assert s == s[..i] + [sep] + s[i + 1..];
  }

  /** The first `c` in `a + [c] + b` is the one after `a` when `a` holds none. */
  lemma {:induction false} IndexOfAfter(a: string, c: char, b: string)
    requires c !in a
    ensures IndexOf(a + [c] + b, c) == Some(|a|)
  {
    if a != [] {
      IndexOfAfter(a[1..], c, b);
      assert (a + [c] + b)[1..] == a[1..] + [c] + b;
    }
  }

  /** Splitting `a + [sep] + b` where `a` holds no separator yields `a` followed by the pieces of `b`. */
  lemma SplitPrefix(a: string, sep: char, b: string)
    requires sep !in a
    ensures Split(a + [sep] + b, sep) == [a] + Split(b, sep)
  {
    var s := a + [sep] + b;
    IndexOfAfter(a, sep, b);
    assert s[..|a|] == a;
    assert s[|a| + 1..] == b;
  }

  /** A text holding no separator is a single piece. */
  lemma SplitNoSeparator(a: string, sep: char)
    requires sep !in a
    ensures Split(a, sep) == [a]
  {
  }

  /** The digit character for `d`. */
  function DigitChar(d: nat): (c: char)
    requires d < 10
    ensures IsDigit(c)
  {
    ('0' as int + d) as char
  }

  /** `str(n)` for a natural number: its decimal digits, most significant first. */
  function NatDecimal(n: nat): (s: string)
    ensures s != []
  {
    if n < 10 then [DigitChar(n)] else NatDecimal(n / 10) + [DigitChar(n % 10)]
  }

  /** `str(n)` for an integer: a minus sign before the digits of a negative number. */
  function Decimal(n: int): (s: string)
    ensures s != []
  {
    if n < 0 then "-" + NatDecimal(-n) else NatDecimal(n)
  }
}
