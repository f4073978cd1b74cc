/**
 * The character and span operations of the .NET runtime that the validators
 * rely on: searching a character sequence (IndexOf, LastIndexOf), ASCII
 * character classes, splitting at a separator, and the runtime services whose
 * full definition lives outside the library (Unicode character categories,
 * the case mapping of StringComparer.OrdinalIgnoreCase, IPAddress.TryParse).
 */
module Text {

  /** `k` is the position of the first occurrence of `c` in `s`. */
  predicate IsFirst(s: string, c: char, k: int) {
    0 <= k < |s| && s[k] == c && forall j :: 0 <= j < k ==> s[j] != c
  }

  /** ReadOnlySpan<char>.IndexOf(c): index of the first `c`, or -1 if there is none. */
  function IndexOf(s: string, c: char): (r: int)
    ensures -1 <= r < |s|
    ensures r == -1 <==> c !in s
    ensures r >= 0 ==> IsFirst(s, c, r)
    decreases |s|
  {
    if |s| == 0 then -1
    else if s[0] == c then 0
    else
      var k := IndexOf(s[1..], c);
      if k < 0 then -1 else k + 1
  }

  /** The first occurrence is unique, so any position that is first is what IndexOf finds. */
  lemma IndexOfIsFirst(s: string, c: char, k: int)
    requires IsFirst(s, c, k)
    ensures IndexOf(s, c) == k
  {
  }

  /** ReadOnlySpan<char>.LastIndexOf(c): index of the last `c`, or -1 if there is none. */
  function LastIndexOf(s: string, c: char): (r: int)
    ensures -1 <= r < |s|
    ensures r == -1 <==> c !in s
    ensures r >= 0 ==> s[r] == c && forall j :: r < j < |s| ==> s[j] != c
    decreases |s|
  {
    if |s| == 0 then -1
    else if s[|s| - 1] == c then |s| - 1
    else
      var k := LastIndexOf(s[..|s| - 1], c);
      assert s == s[..|s| - 1] + [s[|s| - 1]];
      k
  }

  /** ReadOnlySpan<char>.StartsWith(prefix) with ordinal comparison: `prefix` agrees with the start of `s` position by position. */
  predicate StartsWith(s: string, prefix: string): (r: bool)
    ensures r <==> |prefix| <= |s| && forall i :: 0 <= i < |prefix| ==> s[i] == prefix[i]
  {
    |prefix| <= |s| && s[..|prefix|] == prefix
  }

  /**
   * The number of UTF-16 code units .NET stores for one character: two (a
   * surrogate pair) from U+10000 on, one below.
   */
  function CodeUnits(c: char): nat {
    if c as int >= 0x10000 then 2 else 1
  }

  /** String.Length and ReadOnlySpan<char>.Length: the number of UTF-16 code units. */
  function Utf16Length(s: string): (n: nat)
    ensures |s| <= n <= 2 * |s|
    ensures s == [] <==> n == 0
    decreases |s|
  {
    if s == [] then 0 else CodeUnits(s[0]) + Utf16Length(s[1..])
  }

  /** The code units of a concatenation are those of its parts. */
  lemma {:induction false} Utf16LengthAppend(a: string, b: string)
    ensures Utf16Length(a + b) == Utf16Length(a) + Utf16Length(b)
    decreases |a|
  {
    if a == [] {
      assert a + b == b;
    } else {
      assert (a + b)[0] == a[0] && (a + b)[1..] == a[1..] + b;
      Utf16LengthAppend(a[1..], b);
    }
  }

  /** Text of the Basic Multilingual Plane has one code unit per character. */
  lemma {:induction false} Utf16LengthBmp(s: string)
    requires forall i :: 0 <= i < |s| ==> s[i] as int < 0x10000
    ensures Utf16Length(s) == |s|
    decreases |s|
  {
    if s != [] {
      Utf16LengthBmp(s[1..]);
    }
  }

  /** Text made only of characters from U+10000 on has two code units per character. */
  lemma {:induction false} Utf16LengthAstral(s: string)
    requires forall i :: 0 <= i < |s| ==> s[i] as int >= 0x10000
    ensures Utf16Length(s) == 2 * |s|
    decreases |s|
  {
    if s != [] {
      Utf16LengthAstral(s[1..]);
    }
  }

  predicate IsAscii(c: char) { c as int < 128 }
  predicate IsAsciiUpper(c: char) { 'A' <= c <= 'Z' }
  predicate IsAsciiLower(c: char) { 'a' <= c <= 'z' }
  predicate IsAsciiDigit(c: char) { '0' <= c <= '9' }
  predicate IsAsciiLetterOrDigit(c: char) { IsAsciiUpper(c) || IsAsciiLower(c) || IsAsciiDigit(c) }

  /** The characters char.IsWhiteSpace accepts below 128: tab, line feed, vertical tab, form feed, carriage return, space. */
  predicate IsAsciiWhiteSpace(c: char) { c == ' ' || 9 <= c as int <= 13 }

  /** The ASCII upper-case mapping: a lower-case ASCII letter becomes its capital, every other character stays. */
  function AsciiUpper(c: char): char {
    if IsAsciiLower(c) then (c as int - 32) as char else c
  }

  /**
   * The runtime services the validators call but whose definitions are
   * Unicode tables or a foreign parser:
   *  - isLetterOrDigit: char.IsLetterOrDigit (Unicode letter and digit
   *    categories, applied to one UTF-16 code unit);
   *  - isWhiteSpace: char.IsWhiteSpace (also one code unit);
   *  - foldChar: the per-character mapping under which
   *    StringComparer.OrdinalIgnoreCase calls two characters equal;
   *  - tryParseIp: whether IPAddress.TryParse succeeds on a string.
   */
  datatype Runtime = Runtime(
    isLetterOrDigit: char -> bool,
    isWhiteSpace: char -> bool,
    foldChar: char -> char,
    tryParseIp: string -> bool)
  {
    /**
     * What the model relies on: on ASCII characters the character classes
     * are the ASCII ones and the case mapping is ASCII upper-casing. A
     * character from U+10000 on reaches the character classes as two
     * surrogate code units, neither of which is a letter, a digit or white
     * space, so for such a character both classes are false. Nothing else is
     * assumed about characters from 128 on.
     */
    predicate Valid() {
      (forall c: char :: IsAscii(c) ==> (isLetterOrDigit(c) <==> IsAsciiLetterOrDigit(c))) &&
      (forall c: char :: IsAscii(c) ==> (isWhiteSpace(c) <==> IsAsciiWhiteSpace(c))) &&
      (forall c: char :: IsAscii(c) ==> foldChar(c) == AsciiUpper(c)) &&
      (forall c: char :: c as int >= 0x10000 ==> !isLetterOrDigit(c) && !isWhiteSpace(c))
    }
  }

  /** A string with every character mapped by the runtime's case folding. */
  function FoldCase(rt: Runtime, s: string): (r: string)
    ensures |r| == |s|
    ensures forall i :: 0 <= i < |s| ==> r[i] == rt.foldChar(s[i])
    decreases |s|
  {
    if s == [] then [] else [rt.foldChar(s[0])] + FoldCase(rt, s[1..])
  }

  /** StringComparer.OrdinalIgnoreCase.Equals: same length and the same folded character at every position. */
  predicate EqualsIgnoreCase(rt: Runtime, a: string, b: string): (r: bool)
    ensures a == b ==> r
  {
    |a| == |b| && forall i :: 0 <= i < |a| ==> rt.foldChar(a[i]) == rt.foldChar(b[i])
  }

  /** The character-wise comparison and the comparison of folded strings agree. */
  lemma EqualsIgnoreCaseIffFoldCase(rt: Runtime, a: string, b: string)
    ensures EqualsIgnoreCase(rt, a, b) <==> FoldCase(rt, a) == FoldCase(rt, b)
  {
    if FoldCase(rt, a) == FoldCase(rt, b) {
      forall i | 0 <= i < |a| ensures rt.foldChar(a[i]) == rt.foldChar(b[i]) {
        assert FoldCase(rt, a)[i] == FoldCase(rt, b)[i];
      }
    }
  }

  /**
   * Splitting at a separator, as String.Split(sep) without options would:
   * the pieces between consecutive separators, from left to right, empty
   * pieces included. The validators never split; Split and Join only give
   * the declarative readings of their scans (dot-separated atoms, labels).
   */
  function Split(s: string, sep: char): (parts: seq<string>)
    ensures |parts| >= 1
    decreases |s|
  {
    var k := IndexOf(s, sep);
    if k < 0 then [s] else [s[..k]] + Split(s[k + 1..], sep)
  }

  /** Joining pieces with a separator between them: the inverse of Split (a reading, not a call of the validators). */
  function Join(parts: seq<string>, sep: char): string
    requires |parts| >= 1
    decreases |parts|
  {
    if |parts| == 1 then parts[0] else parts[0] + [sep] + Join(parts[1..], sep)
  }

  /** Splitting at the first separator, at a position known to be first. */
  lemma SplitAtFirst(s: string, sep: char, k: int)
    requires IsFirst(s, sep, k)
    ensures Split(s, sep) == [s[..k]] + Split(s[k + 1..], sep)
  {
    IndexOfIsFirst(s, sep, k);
  }

  /** Joining the pieces gives back the string. */
  lemma {:induction false} JoinSplit(s: string, sep: char)
    ensures Join(Split(s, sep), sep) == s
    decreases |s|
  {
    var k := IndexOf(s, sep);
    if k >= 0 {
      var rest := s[k + 1..];
      var parts := Split(s, sep);
      assert parts[0] == s[..k] && parts[1..] == Split(rest, sep);
      assert Join(parts, sep) == s[..k] + [sep] + Join(Split(rest, sep), sep);
      JoinSplit(rest, sep);
      assert s == s[..k] + [sep] + rest;
    }
  }

  /** Splitting a join of separator-free pieces gives back the pieces. */
  lemma {:induction false} SplitJoin(parts: seq<string>, sep: char)
    requires |parts| >= 1
    requires forall i :: 0 <= i < |parts| ==> sep !in parts[i]
    ensures Split(Join(parts, sep), sep) == parts
    decreases |parts|
  {
    if |parts| > 1 {
      var s := Join(parts, sep);
      var k := |parts[0]|;
      assert s == parts[0] + [sep] + Join(parts[1..], sep);
      assert s[..k] == parts[0];
      assert s[k + 1..] == Join(parts[1..], sep);
      SplitAtFirst(s, sep, k);
      SplitJoin(parts[1..], sep);
    }
  }

  /**
   * The first piece of `p + d` when `p` holds no separator and `d` does not
   * start with one: it extends `p` by the first character of `d`.
   */
  lemma FirstPieceExtends(p: string, d: string, sep: char)
    requires sep !in p && d != [] && d[0] != sep
    ensures |Split(p + d, sep)[0]| > |p| && Split(p + d, sep)[0][|p|] == d[0]
  {
    var s := p + d;
    var k := IndexOf(s, sep);
    if k >= 0 {
      assert Split(s, sep)[0] == s[..k];
    }
  }

  /** A leading separator makes the first piece empty. */
  lemma SplitLeading(s: string, sep: char)
    requires |s| > 0 && s[0] == sep
    ensures Split(s, sep)[0] == []
  {
    SplitAtFirst(s, sep, 0);
  }

  /** A trailing separator makes the last piece empty. */
  lemma {:induction false} SplitTrailing(s: string, sep: char)
    requires |s| > 0 && s[|s| - 1] == sep
    ensures Split(s, sep)[|Split(s, sep)| - 1] == []
    decreases |s|
  {
    var k := IndexOf(s, sep);
    assert s[|s| - 1] == sep;
    var rest := s[k + 1..];
    assert Split(s, sep) == [s[..k]] + Split(rest, sep);
    if rest == [] {
      assert Split(rest, sep) == [rest];
    } else {
      assert rest[|rest| - 1] == sep;
      SplitTrailing(rest, sep);
    }
  }

  /** Two adjacent separators leave an empty piece between them, the `j`-th. */
  lemma {:induction false} SplitDoubled(s: string, sep: char, i: int) returns (j: int)
    requires 0 <= i < |s| - 1 && s[i] == sep && s[i + 1] == sep
    ensures 0 <= j < |Split(s, sep)| && Split(s, sep)[j] == []
    decreases |s|
  {
    var k := IndexOf(s, sep);
    assert s[i] == sep;
    var rest := s[k + 1..];
    var parts := Split(s, sep);
    assert parts == [s[..k]] + Split(rest, sep);
    if k == i {
      SplitLeading(rest, sep);
      j := 1;
    } else {
      assert rest[i - k - 1] == sep && rest[i - k] == sep;
      var j' := SplitDoubled(rest, sep, i - k - 1);
      assert parts[j' + 1] == Split(rest, sep)[j'];
      j := j' + 1;
    }
  }
}
