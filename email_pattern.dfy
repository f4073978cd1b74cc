/**
 * The pattern behind ValidatorHelpers.IsValidEmailQuick:
 *
 *   ^[a-zA-Z0-9.!#$%&'*+/=?^_`{|}~-]+@label(\.label)*$
 *   label = [a-zA-Z0-9](?:[a-zA-Z0-9-]{0,61}[a-zA-Z0-9])?
 *
 * Its language is defined here declaratively (InLanguage), and a scanning
 * automaton (Run over State) is proved to accept exactly that language.
 * IsMatch adds the one quirk of the .NET engine that changes the answer:
 * `$` also matches just before a final line feed.
 */
module EmailPattern {
  import opened Text

  /** The local-part character class [a-zA-Z0-9.!#$%&'*+/=?^_`{|}~-]. */
  predicate IsLocalClassChar(c: char) {
    IsAsciiLetterOrDigit(c) ||
    c == '.' || c == '!' || c == '#' || c == '$' || c == '%' || c == '&' || c == '\'' ||
    c == '*' || c == '+' || c == '/' || c == '=' || c == '?' || c == '^' || c == '_' ||
    c == '`' || c == '{' || c == '|' || c == '}' || c == '~' || c == '-'
  }

  /** The inner label character class [a-zA-Z0-9-]. */
  predicate IsLabelClassChar(c: char) {
    IsAsciiLetterOrDigit(c) || c == '-'
  }

  /** A label: 1 to 63 characters, ASCII letter or digit at both ends, letters, digits and hyphens inside. */
  predicate Label(p: string) {
    1 <= |p| <= 63 &&
    IsAsciiLetterOrDigit(p[0]) && IsAsciiLetterOrDigit(p[|p| - 1]) &&
    forall i :: 0 < i < |p| - 1 ==> IsLabelClassChar(p[i])
  }

  /** label(\.label)*: every dot-separated piece is a label. */
  predicate Labels(d: string) {
    var parts := Split(d, '.');
    forall j :: 0 <= j < |parts| ==> Label(parts[j])
  }

  /** The language between ^ and the end of input: local characters, the first `@`, then dot-separated labels. */
  predicate InLanguage(s: string) {
    var k := IndexOf(s, '@');
    k >= 1 && (forall i :: 0 <= i < k ==> IsLocalClassChar(s[i])) && Labels(s[k + 1..])
  }

  /** The states of the scanner: before the first character, inside the local part, just after `@` or `.`, inside a label, and the dead state. */
  datatype State =
    | Start
    | InLocal
    | AfterSeparator
    | InLabel(length: nat, endsAlnum: bool)
    | Dead

  function Step(st: State, c: char): State {
    match st
    case Start => if IsLocalClassChar(c) then InLocal else Dead
    case InLocal =>
      if IsLocalClassChar(c) then InLocal
      else if c == '@' then AfterSeparator
      else Dead
    case AfterSeparator => if IsAsciiLetterOrDigit(c) then InLabel(1, true) else Dead
    case InLabel(n, e) =>
      if c == '.' then (if e then AfterSeparator else Dead)
      else if IsLabelClassChar(c) && n < 63 then InLabel(n + 1, IsAsciiLetterOrDigit(c))
      else Dead
    case Dead => Dead
  }

  function Run(st: State, s: string): State
    decreases |s|
  {
    if s == [] then st else Run(Step(st, s[0]), s[1..])
  }

  predicate Accepting(st: State) {
    st.InLabel? && st.endsAlnum
  }

  /** The scanner reads the whole input and ends in an accepting state. */
  predicate MatchesExactly(s: string) {
    Accepting(Run(Start, s))
  }

  /**
   * Regex.IsMatch on the anchored pattern: .NET's `$` (without
   * RegexOptions.Multiline) matches at the end of the input and also just
   * before a final '\n'.
   */
  function IsMatch(s: string): (r: bool)
    ensures r <==> InLanguage(s) || (|s| >= 1 && s[|s| - 1] == '\n' && InLanguage(s[..|s| - 1]))
  {
    RecognizerCorrect(s);
    RecognizerCorrect(if |s| >= 1 then s[..|s| - 1] else s);
    MatchesExactly(s) || (|s| >= 1 && s[|s| - 1] == '\n' && MatchesExactly(s[..|s| - 1]))
  }

  /** The dead state is a sink. */
  lemma {:induction false} DeadStays(s: string)
    ensures Run(Dead, s) == Dead
    decreases |s|
  {
    if s != [] {
      DeadStays(s[1..]);
    }
  }

  /** Reading one more character is one more step. */
  lemma {:induction false} RunSnoc(st: State, s: string, c: char)
    ensures Run(st, s + [c]) == Step(Run(st, s), c)
    decreases |s|
  {
    if s != [] {
      assert (s + [c])[1..] == s[1..] + [c];
      RunSnoc(Step(st, s[0]), s[1..], c);
    }
  }

  /** A non-empty label-class string starting with a letter or digit: what InLabel has read of the current label. */
  predicate LabelPrefix(p: string) {
    1 <= |p| <= 63 && IsAsciiLetterOrDigit(p[0]) &&
    forall i :: 0 <= i < |p| ==> IsLabelClassChar(p[i])
  }

  /** A string without a dot is in label(\.label)* exactly when it is a label. */
  lemma LabelsOfOnePiece(p: string)
    requires '.' !in p
    ensures Labels(p) <==> Label(p)
  {
    var parts := Split(p, '.');
    assert parts == [p];
    if Label(p) {
      assert forall j :: 0 <= j < |parts| ==> Label(parts[j]);
    }
    if Labels(p) {
      assert Label(parts[0]);
    }
  }

  /** A string whose first piece is not a label is not in label(\.label)*. */
  lemma LabelsNeedFirst(d: string)
    requires !Label(Split(d, '.')[0])
    ensures !Labels(d)
  {
  }

  /** A piece that holds a character outside the label class, or that is longer than 63, is not a label. */
  lemma NotLabel(p: string, i: int)
    requires 0 <= i < |p|
    requires !IsLabelClassChar(p[i]) || |p| > 63
    ensures !Label(p)
  {
  }

  /** A dot right after a dot-free `p` closes the first piece: the pieces are `p` and those of the rest. */
  lemma LabelsAtDot(p: string, d: string)
    requires '.' !in p && d != [] && d[0] == '.'
    ensures Labels(p + d) == (Label(p) && Labels(d[1..]))
  {
    var s := p + d;
    assert s[..|p|] == p && s[|p| + 1..] == d[1..];
    SplitAtFirst(s, '.', |p|);
    var parts, rest := Split(s, '.'), Split(d[1..], '.');
    assert parts[0] == p && parts[1..] == rest;
    if Labels(d[1..]) && Label(p) {
      forall j | 0 <= j < |parts| ensures Label(parts[j]) {
        if j > 0 { assert parts[j] == rest[j - 1]; }
      }
    }
    if Labels(s) {
      assert Label(parts[0]);
      forall j | 0 <= j < |rest| ensures Label(rest[j]) {
        assert rest[j] == parts[j + 1];
      }
    }
  }

  /** From inside a label, the scanner accepts the rest `d` exactly when the label read so far followed by `d` is in label(\.label)*. */
  lemma {:induction false} LabelRun(p: string, d: string)
    requires LabelPrefix(p)
    ensures Accepting(Run(InLabel(|p|, IsAsciiLetterOrDigit(p[|p| - 1])), d)) == Labels(p + d)
    decreases |d|
  {
    var st := InLabel(|p|, IsAsciiLetterOrDigit(p[|p| - 1]));
    assert '.' !in p by {
      forall i | 0 <= i < |p| ensures p[i] != '.' { assert IsLabelClassChar(p[i]); }
    }
    if d == [] {
      assert p + d == p;
      assert Run(st, d) == st;
      LabelsOfOnePiece(p);
    } else if d[0] == '.' {
      LabelsAtDot(p, d);
      SeparatorRun(d[1..]);
      DeadStays(d[1..]);
    } else if IsLabelClassChar(d[0]) && |p| < 63 {
      var p' := p + [d[0]];
      assert p' + d[1..] == p + d;
      LabelRun(p', d[1..]);
    } else {
      DeadStays(d[1..]);
      FirstPieceExtends(p, d, '.');
      NotLabel(Split(p + d, '.')[0], |p|);
    }
  }

  /** A string that does not start with an ASCII letter or digit is not in label(\.label)*. */
  lemma LabelsStartAlnum(d: string)
    requires d != [] && !IsAsciiLetterOrDigit(d[0])
    ensures !Labels(d)
  {
    var parts := Split(d, '.');
    if d[0] == '.' {
      SplitAtFirst(d, '.', 0);
      assert parts[0] == [];
    } else {
      FirstPieceExtends([], d, '.');
      assert [] + d == d;
      assert parts[0][0] == d[0];
    }
    LabelsNeedFirst(d);
  }

  /** Just after `@` or `.`, the scanner accepts `d` exactly when `d` is in label(\.label)*. */
  lemma {:induction false} SeparatorRun(d: string)
    ensures Accepting(Run(AfterSeparator, d)) == Labels(d)
    decreases |d|
  {
    if d == [] {
      LabelsOfOnePiece(d);
    } else if IsAsciiLetterOrDigit(d[0]) {
      assert [d[0]] + d[1..] == d;
      LabelRun([d[0]], d[1..]);
    } else {
      DeadStays(d[1..]);
      LabelsStartAlnum(d);
    }
  }

  /** With the first `@` at `k`, membership is the local part before it and the labels after it. */
  lemma LanguageAtFirstAt(t: string, k: int)
    requires IsFirst(t, '@', k)
    ensures InLanguage(t) == (k >= 1 && (forall i :: 0 <= i < k ==> IsLocalClassChar(t[i])) && Labels(t[k + 1..]))
  {
    IndexOfIsFirst(t, '@', k);
  }

  /** A character outside the local class that comes before any `@` keeps the input out of the language. */
  lemma LanguageNeedsLocalChar(t: string, i: int)
    requires 0 <= i < |t| && !IsLocalClassChar(t[i]) && t[i] != '@'
    requires forall j :: 0 <= j < i ==> t[j] != '@'
    ensures !InLanguage(t)
  {
    var k := IndexOf(t, '@');
    if k >= 0 {
      assert k > i;
    }
  }

  /** Inside the local part, having read `q`, the scanner accepts the rest `s` exactly when `q + s` is in the language. */
  lemma {:induction false} LocalRun(q: string, s: string)
    requires q != [] && forall i :: 0 <= i < |q| ==> IsLocalClassChar(q[i])
    ensures Accepting(Run(InLocal, s)) == InLanguage(q + s)
    decreases |s|
  {
    var t := q + s;
    assert forall i :: 0 <= i < |q| ==> t[i] == q[i] && t[i] != '@';
    if s == [] {
      assert t == q;
      assert '@' !in t;
    } else if s[0] == '@' {
      assert t[|q| + 1..] == s[1..];
      assert Run(InLocal, s) == Run(AfterSeparator, s[1..]);
      assert forall i :: 0 <= i < |q| ==> IsLocalClassChar(t[i]);
      LanguageAtFirstAt(t, |q|);
      SeparatorRun(s[1..]);
    } else if IsLocalClassChar(s[0]) {
      var q' := q + [s[0]];
      assert q' + s[1..] == t;
      LocalRun(q', s[1..]);
    } else {
      DeadStays(s[1..]);
      LanguageNeedsLocalChar(t, |q|);
    }
  }

  /** The scanner accepts exactly the pattern's language. */
  lemma RecognizerCorrect(s: string)
    ensures MatchesExactly(s) <==> InLanguage(s)
  {
    if s == [] {
    } else if IsLocalClassChar(s[0]) {
      assert [s[0]] + s[1..] == s;
      LocalRun([s[0]], s[1..]);
    } else {
      DeadStays(s[1..]);
    }
  }

  /** Every accepted input ends in a letter or digit, so no input that ends in a line feed is in the language. */
  lemma LanguageEndsAlnum(s: string)
    requires InLanguage(s)
    ensures |s| >= 1 && IsAsciiLetterOrDigit(s[|s| - 1])
  {
    RecognizerCorrect(s);
    assert |s| > 0;
    var init := s[..|s| - 1];
    assert init + [s[|s| - 1]] == s;
    RunSnoc(Start, init, s[|s| - 1]);
  }
}
