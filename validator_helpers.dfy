/**
 * The grammar validator: a strict check of an address against the length
 * limits of RFC 5321 (section 4.5.3.1) and the dot-atom and quoted-string
 * local parts of RFC 5322 (section 3.4.1), plus the split of an address into
 * its parts and the quick pattern check.
 *
 * Each loop of the source is a method proved against a declarative
 * predicate (DotAtom, QuotedContent, DomainLabel, DomainName); the methods
 * that only dispatch (IsValidLocalPart, IsValidDomain, IsValidEmail) call
 * the loop methods and are proved against LocalPartOk, DomainOk and
 * StrictEmail.
 */
module ValidatorHelpers {
  import opened Text
  import EmailPattern

  const MaxLocalPartLength := 64
  const MaxDomainLength := 255
  const MaxTotalLength := 254
  const MaxLabelLength := 63

  /**
   * The result of a call that may end in the ArgumentOutOfRangeException a
   * C# range expression throws when its start lies after its end.
   */
  datatype Outcome = Returns(ok: bool) | ThrowsOutOfRange

  // ---------------------------------------------------------------------
  // Unquoted local part (dot-atom)
  // ---------------------------------------------------------------------

  /** The characters of an unquoted local part other than `.`: ASCII letters, digits and ! # $ % & ' * + - / = ? ^ _ ` { | } ~. */
  predicate IsAllowedLocalPartChar(c: char) {
    ('a' <= c <= 'z') || ('A' <= c <= 'Z') || ('0' <= c <= '9') ||
    c == '!' || c == '#' || c == '$' || c == '%' || c == '&' || c == '\'' ||
    c == '*' || c == '+' || c == '-' || c == '/' || c == '=' || c == '?' ||
    c == '^' || c == '_' || c == '`' || c == '{' || c == '|' || c == '}' || c == '~'
  }

  /**
   * The allowed characters are visible ASCII (RFC 5322 atext), never one of
   * the characters that delimit parts of an address, and include every ASCII
   * letter and digit.
   */
  lemma AllowedCharIsAtext(c: char)
    ensures IsAllowedLocalPartChar(c) ==> 33 <= c as int <= 126
    ensures IsAllowedLocalPartChar(c) ==> c != '.' && c != '@' && c != '"' && c != '\\' && c != '[' && c != ']'
    ensures IsAsciiLetterOrDigit(c) ==> IsAllowedLocalPartChar(c)
  {
  }

  /**
   * RFC 5322 dot-atom text: allowed characters and dots, with no dot first,
   * last, or next to another dot. The empty string qualifies (the caller
   * rules it out).
   */
  predicate DotAtom(s: string) {
    (forall i :: 0 <= i < |s| ==> s[i] == '.' || IsAllowedLocalPartChar(s[i])) &&
    (|s| > 0 ==> s[0] != '.' && s[|s| - 1] != '.') &&
    (forall i :: 0 <= i < |s| - 1 ==> !(s[i] == '.' && s[i + 1] == '.'))
  }

  /** An atom: one or more allowed characters. */
  predicate Atom(p: string) {
    p != [] && forall i :: 0 <= i < |p| ==> IsAllowedLocalPartChar(p[i])
  }

  /** Every piece of `parts` is an atom. */
  predicate AllAtoms(parts: seq<string>) {
    forall j :: 0 <= j < |parts| ==> Atom(parts[j])
  }

  /** Splitting a dot-atom at its first dot: an atom, the dot, and a non-empty dot-atom. */
  lemma DotAtomSplitsAtDot(s: string, k: int)
    requires IsFirst(s, '.', k) && DotAtom(s)
    ensures Atom(s[..k]) && s[k + 1..] != [] && DotAtom(s[k + 1..])
  {
    var rest := s[k + 1..];
    assert forall i :: 0 <= i < k ==> s[..k][i] == s[i] && s[i] != '.';
    assert k > 0 && k < |s| - 1;
    assert rest[0] == s[k + 1];
    forall i | 0 <= i < |rest| - 1 ensures !(rest[i] == '.' && rest[i + 1] == '.') {
      assert rest[i] == s[k + 1 + i] && rest[i + 1] == s[k + 1 + i + 1];
    }
  }

  /** An atom, a dot and a non-empty dot-atom make a dot-atom. */
  lemma DotAtomJoinsAtDot(head: string, rest: string)
    requires Atom(head) && rest != [] && DotAtom(rest)
    ensures DotAtom(head + ['.'] + rest)
  {
    var s := head + ['.'] + rest;
    var k := |head|;
    assert forall i :: 0 <= i < k ==> s[i] == head[i];
    assert forall i :: k < i < |s| ==> s[i] == rest[i - k - 1];
    forall i | 0 <= i < |s| - 1 ensures !(s[i] == '.' && s[i + 1] == '.') {
      if i < k - 1 {
        assert s[i] == head[i];
      } else if i == k - 1 {
        assert s[i] == head[k - 1];
      } else if i == k {
        assert s[i + 1] == rest[0];
      } else {
        assert s[i] == rest[i - k - 1] && s[i + 1] == rest[i - k];
      }
    }
  }

  /** The pieces of `s`, split at its first dot `k`, are all atoms exactly when the piece before the dot is and those after it are. */
  lemma AllAtomsAtFirstDot(s: string, k: int)
    requires IsFirst(s, '.', k)
    ensures AllAtoms(Split(s, '.')) == (Atom(s[..k]) && AllAtoms(Split(s[k + 1..], '.')))
  {
    SplitAtFirst(s, '.', k);
    var parts, tail := Split(s, '.'), Split(s[k + 1..], '.');
    assert parts[0] == s[..k] && parts[1..] == tail;
    if AllAtoms(parts) {
      forall j | 0 <= j < |tail| ensures Atom(tail[j]) {
        assert tail[j] == parts[j + 1];
      }
    }
    if Atom(s[..k]) && AllAtoms(tail) {
      forall j | 0 <= j < |parts| ensures Atom(parts[j]) {
        if j > 0 { assert parts[j] == tail[j - 1]; }
      }
    }
  }

  /** A dot-atom splits at its dots into atoms. */
  lemma {:induction false} DotAtomGivesAtoms(s: string)
    requires s != [] && DotAtom(s)
    ensures AllAtoms(Split(s, '.'))
    decreases |s|
  {
    var k := IndexOf(s, '.');
    if k < 0 {
      assert Split(s, '.') == [s];
    } else {
      AllAtomsAtFirstDot(s, k);
      DotAtomSplitsAtDot(s, k);
      DotAtomGivesAtoms(s[k + 1..]);
    }
  }

  /** Atoms joined by single dots form a dot-atom. */
  lemma {:induction false} AtomsGiveDotAtom(s: string)
    requires AllAtoms(Split(s, '.'))
    ensures s != [] && DotAtom(s)
    decreases |s|
  {
    var k := IndexOf(s, '.');
    assert Atom(Split(s, '.')[0]);
    if k < 0 {
      assert Split(s, '.') == [s];
    } else {
      var head, rest := s[..k], s[k + 1..];
      AllAtomsAtFirstDot(s, k);
      AtomsGiveDotAtom(rest);
      DotAtomJoinsAtDot(head, rest);
      assert s == head + ['.'] + rest;
    }
  }

  /** The pieces of a dot-atom, as RFC 5322 writes it: 1*atext *("." 1*atext). */
  lemma DotAtomIffAtoms(s: string)
    requires s != []
    ensures DotAtom(s) <==> AllAtoms(Split(s, '.'))
  {
    if DotAtom(s) {
      DotAtomGivesAtoms(s);
    }
    if AllAtoms(Split(s, '.')) {
      AtomsGiveDotAtom(s);
    }
  }

  /**
   * ValidateUnquotedLocalPart: one pass that remembers the previous
   * character and whether a dot was seen. It accepts exactly the dot-atoms,
   * except that a dot-atom holding a dot is refused above 64 code units.
   */
  method ValidateUnquotedLocalPart(localPart: string) returns (ok: bool)
    ensures ok == (DotAtom(localPart) && ('.' in localPart ==> Utf16Length(localPart) <= MaxLocalPartLength))
  {
    var hasDot := false;
    var previousChar := '\0';
    for i := 0 to |localPart|
      invariant hasDot <==> '.' in localPart[..i]
      invariant previousChar == if i == 0 then '\0' else localPart[i - 1]
      invariant forall j :: 0 <= j < i ==> localPart[j] == '.' || IsAllowedLocalPartChar(localPart[j])
      invariant i > 0 ==> localPart[0] != '.'
      invariant forall j :: 0 <= j < i - 1 ==> !(localPart[j] == '.' && localPart[j + 1] == '.')
    {
      var c := localPart[i];
      if c == '.' {
        if previousChar == '.' || previousChar == '\0' {
          return false;
        }
        hasDot := true;
      } else if !IsAllowedLocalPartChar(c) {
        return false;
      }
      assert localPart[..i + 1] == localPart[..i] + [c];
      previousChar := c;
    }
    assert localPart[..|localPart|] == localPart;
    return previousChar != '.' && (!hasDot || Utf16Length(localPart) <= MaxLocalPartLength);
  }

  // ---------------------------------------------------------------------
  // Quoted local part
  // ---------------------------------------------------------------------

  /**
   * The interior of a quoted local part, read left to right: a backslash
   * and the character after it form an escape pair (any character may be
   * escaped); any other character must not be a control character (below
   * 32, or 127).
   */
  predicate QuotedContent(s: string)
    decreases |s|
  {
    if s == [] then true
    else if s[0] == '\\' then |s| >= 2 && QuotedContent(s[2..])
    else 32 <= s[0] as int && s[0] as int != 127 && QuotedContent(s[1..])
  }

  /**
   * ValidateQuotedLocalPart: a loop whose index jumps over the character
   * after each backslash.
   */
  method ValidateQuotedLocalPart(quotedPart: string) returns (ok: bool)
    ensures ok == QuotedContent(quotedPart)
  {
    var i := 0;
    while i < |quotedPart|
      invariant 0 <= i <= |quotedPart|
      invariant QuotedContent(quotedPart[i..]) == QuotedContent(quotedPart)
    {
      var c := quotedPart[i];
      if c == '\\' {
        if i == |quotedPart| - 1 {
          return false;
        }
        assert quotedPart[i..][2..] == quotedPart[i + 2..];
        i := i + 1;  // the escaped character is skipped
      } else if c as int < 32 || c as int == 127 {
        return false;
      } else {
        assert quotedPart[i..][1..] == quotedPart[i + 1..];
      }
      i := i + 1;
    }
    assert quotedPart[i..] == [];
    return true;
  }

  /** A complete run of tokens can be stripped from the front: what follows is judged on its own. */
  lemma {:induction false} QuotedContentAppend(a: string, t: string)
    requires QuotedContent(a)
    ensures QuotedContent(a + t) <==> QuotedContent(t)
    decreases |a|
  {
    if a != [] {
      assert (a + t)[0] == a[0];
      if a[0] == '\\' {
        assert (a + t)[2..] == a[2..] + t;
        QuotedContentAppend(a[2..], t);
      } else {
        assert (a + t)[1..] == a[1..] + t;
        QuotedContentAppend(a[1..], t);
      }
    } else {
      assert a + t == t;
    }
  }

  /** An escape pair may hold any character at all, a control character or a quote included. */
  lemma EscapedCharacterUnrestricted(a: string, c: char, b: string)
    requires QuotedContent(a) && QuotedContent(b)
    ensures QuotedContent(a + ['\\', c] + b)
  {
    assert a + ['\\', c] + b == a + (['\\', c] + b);
    assert (['\\', c] + b)[2..] == b;
    QuotedContentAppend(a, ['\\', c] + b);
  }

  /** A control character that is not escaped makes the interior invalid. */
  lemma UnescapedControlRejected(a: string, c: char, b: string)
    requires QuotedContent(a)
    requires c as int < 32 || c as int == 127
    ensures !QuotedContent(a + [c] + b)
  {
    assert a + [c] + b == a + ([c] + b);
    QuotedContentAppend(a, [c] + b);
  }

  /** An interior that ends in a backslash with nothing left to escape is invalid. */
  lemma TrailingBackslashRejected(a: string)
    requires QuotedContent(a)
    ensures !QuotedContent(a + ['\\'])
  {
    QuotedContentAppend(a, ['\\']);
  }

  // ---------------------------------------------------------------------
  // Local part
  // ---------------------------------------------------------------------

  /** The form IsValidLocalPart sends to the quoted branch: a `"` at each end of at least two characters. */
  predicate QuotedForm(localPart: string) {
    |localPart| >= 2 && localPart[0] == '"' && localPart[|localPart| - 1] == '"'
  }

  /**
   * The local part the validator means to accept: non-empty, at most 64
   * UTF-16 code units, and either a quoted string with a valid interior or
   * a dot-atom.
   */
  predicate LocalPartOk(localPart: string) {
    1 <= |localPart| && Utf16Length(localPart) <= MaxLocalPartLength &&
    if QuotedForm(localPart) then QuotedContent(localPart[1..|localPart| - 1])
    else DotAtom(localPart)
  }

  /**
   * IsValidLocalPart as written: the quoted branch is taken whenever the
   * first and the last character are `"`, which for the one-character local
   * part `"` is the same character; the slice [1..^1] then runs from 1 to 0
   * and throws. Every other input gets the answer LocalPartOk gives.
   */
  method IsValidLocalPart(localPart: string) returns (r: Outcome)
    ensures r == if localPart == "\"" then ThrowsOutOfRange else Returns(LocalPartOk(localPart))
  {
    if |localPart| == 0 || Utf16Length(localPart) > MaxLocalPartLength {
      return Returns(false);
    }
    if localPart[0] == '"' && localPart[|localPart| - 1] == '"' {
      if |localPart| < 2 {
        assert localPart == "\"";
        return ThrowsOutOfRange;
      }
      var ok := ValidateQuotedLocalPart(localPart[1..|localPart| - 1]);
      return Returns(ok);
    }
    var ok := ValidateUnquotedLocalPart(localPart);
    return Returns(ok);
  }

  /** IsValidLocalPart with the quoted branch guarded by a length of at least two: it never throws, and a lone `"` is refused. */
  method IsValidLocalPartGuarded(localPart: string) returns (ok: bool)
    ensures ok == LocalPartOk(localPart)
    ensures localPart == "\"" ==> !ok
  {
    if |localPart| == 0 || Utf16Length(localPart) > MaxLocalPartLength {
      return false;
    }
    if |localPart| >= 2 && localPart[0] == '"' && localPart[|localPart| - 1] == '"' {
      ok := ValidateQuotedLocalPart(localPart[1..|localPart| - 1]);
      return;
    }
    ok := ValidateUnquotedLocalPart(localPart);
  }

  /** A lone `"` is not a local part: it is neither a quoted string nor a dot-atom. */
  lemma LoneQuoteIsNotALocalPart()
    ensures !LocalPartOk("\"")
  {
    assert !IsAllowedLocalPartChar('"');
    assert !DotAtom("\"") by { assert "\""[0] == '"'; }
  }

  // ---------------------------------------------------------------------
  // Domain
  // ---------------------------------------------------------------------

  /** A DNS label: non-empty, at most 63 code units, a letter or digit at each end, letters, digits or hyphens inside. */
  predicate DomainLabel(rt: Runtime, lbl: string) {
    1 <= |lbl| && Utf16Length(lbl) <= MaxLabelLength &&
    rt.isLetterOrDigit(lbl[0]) && rt.isLetterOrDigit(lbl[|lbl| - 1]) &&
    forall i :: 0 < i < |lbl| - 1 ==> rt.isLetterOrDigit(lbl[i]) || lbl[i] == '-'
  }

  /** IsValidDomainLabel: the ends first, then a loop over the interior. */
  method IsValidDomainLabel(rt: Runtime, lbl: string) returns (ok: bool)
    ensures ok == DomainLabel(rt, lbl)
  {
    if |lbl| == 0 || Utf16Length(lbl) > MaxLabelLength {
      return false;
    }
    if !rt.isLetterOrDigit(lbl[0]) || !rt.isLetterOrDigit(lbl[|lbl| - 1]) {
      return false;
    }
    var i := 1;
    while i < |lbl| - 1
      invariant 1 <= i
      invariant forall j :: 0 < j < i && j < |lbl| - 1 ==> rt.isLetterOrDigit(lbl[j]) || lbl[j] == '-'
    {
      var c := lbl[i];
      if !rt.isLetterOrDigit(c) && c != '-' {
        return false;
      }
      i := i + 1;
    }
    return true;
  }

  /** Under the runtime's ASCII facts a label holds no dot, no `@` and no bracket. */
  lemma LabelExcludesSeparators(rt: Runtime, lbl: string, i: int)
    requires rt.Valid() && DomainLabel(rt, lbl) && 0 <= i < |lbl|
    ensures lbl[i] != '.' && lbl[i] != '@' && lbl[i] != '[' && lbl[i] != ']'
  {
    assert IsAscii('.') && IsAscii('@') && IsAscii('[') && IsAscii(']');
    assert !IsAsciiLetterOrDigit('.') && !IsAsciiLetterOrDigit('@');
    assert !IsAsciiLetterOrDigit('[') && !IsAsciiLetterOrDigit(']');
  }

  /** Every piece of `parts` is a label. */
  predicate AllLabels(rt: Runtime, parts: seq<string>)
    decreases |parts|
  {
    parts == [] || (DomainLabel(rt, parts[0]) && AllLabels(rt, parts[1..]))
  }

  /**
   * A domain name: at least one dot, and every dot-separated piece, the
   * last included, a label (LabelsFromIffAllLabels states the pieces as
   * those of Split).
   */
  predicate DomainName(rt: Runtime, domain: string) {
    '.' in domain && LabelsFrom(rt, domain)
  }

  /**
   * ValidateIpLiteral: the text between the brackets, less a leading
   * `IPv6:` (compared case-sensitively), handed to IPAddress.TryParse.
   */
  function ValidateIpLiteral(rt: Runtime, ipLiteral: string): (r: bool)
    ensures StartsWith(ipLiteral, "IPv6:") ==> r == rt.tryParseIp(ipLiteral[5..])
    ensures !StartsWith(ipLiteral, "IPv6:") ==> r == rt.tryParseIp(ipLiteral)
  {
    if StartsWith(ipLiteral, "IPv6:") then rt.tryParseIp(ipLiteral[5..])
    else rt.tryParseIp(ipLiteral)
  }

  /** The form IsValidDomain sends to the IP-literal branch: `[` first and `]` last. */
  predicate LiteralForm(domain: string) {
    |domain| >= 2 && domain[0] == '[' && domain[|domain| - 1] == ']'
  }

  /** A non-empty domain as the two branches judge it, before any length limit. */
  predicate DomainForm(rt: Runtime, domain: string) {
    if LiteralForm(domain) then ValidateIpLiteral(rt, domain[1..|domain| - 1])
    else DomainName(rt, domain)
  }

  /** The domain IsValidDomain accepts: non-empty, at most 255 code units, in one of the two forms. */
  predicate DomainOk(rt: Runtime, domain: string) {
    1 <= |domain| && Utf16Length(domain) <= MaxDomainLength && DomainForm(rt, domain)
  }

  /**
   * A bracketed `IPv6:` literal within the length limit is a valid domain
   * exactly when the IP parser accepts the address after the prefix.
   */
  lemma IPv6LiteralDomain(rt: Runtime, address: string)
    ensures var domain := "[IPv6:" + address + "]";
      DomainOk(rt, domain) == (Utf16Length(domain) <= MaxDomainLength && rt.tryParseIp(address))
  {
    var domain := "[IPv6:" + address + "]";
    var inner := domain[1..|domain| - 1];
    assert inner == "IPv6:" + address;
    assert StartsWith(inner, "IPv6:");
    assert inner[5..] == address;
  }

  /**
   * Any other bracketed literal within the length limit is a valid domain
   * exactly when the IP parser accepts the whole text between the brackets.
   */
  lemma IpLiteralDomain(rt: Runtime, address: string)
    requires !StartsWith(address, "IPv6:")
    ensures var domain := "[" + address + "]";
      DomainOk(rt, domain) == (Utf16Length(domain) <= MaxDomainLength && rt.tryParseIp(address))
  {
    var domain := "[" + address + "]";
    assert domain[1..|domain| - 1] == address;
  }

  /** Each piece of an all-label sequence is a label. */
  lemma {:induction false} AllLabelsAt(rt: Runtime, parts: seq<string>, j: int)
    requires AllLabels(rt, parts) && 0 <= j < |parts|
    ensures DomainLabel(rt, parts[j])
    decreases j
  {
    if j > 0 {
      AllLabelsAt(rt, parts[1..], j - 1);
    }
  }

  /** The labels of `s` taken one dot at a time, in the order IsValidDomain's loop meets them. */
  predicate LabelsFrom(rt: Runtime, s: string)
    decreases |s|
  {
    var k := IndexOf(s, '.');
    if k < 0 then DomainLabel(rt, s) else DomainLabel(rt, s[..k]) && LabelsFrom(rt, s[k + 1..])
  }

  /** Taking labels one dot at a time is checking every piece of the split. */
  lemma {:induction false} LabelsFromIffAllLabels(rt: Runtime, s: string)
    ensures LabelsFrom(rt, s) <==> AllLabels(rt, Split(s, '.'))
    decreases |s|
  {
    var k := IndexOf(s, '.');
    var parts := Split(s, '.');
    if k < 0 {
      assert parts == [s] && parts[1..] == [];
    } else {
      assert parts[0] == s[..k] && parts[1..] == Split(s[k + 1..], '.');
      LabelsFromIffAllLabels(rt, s[k + 1..]);
    }
  }

  /** The label that starts at `start` ends at the next dot `i`. */
  lemma LabelEndsAtDot(rt: Runtime, domain: string, start: int, i: int)
    requires 0 <= start <= i < |domain| && domain[i] == '.'
    requires forall j :: start <= j < i ==> domain[j] != '.'
    ensures LabelsFrom(rt, domain[start..]) <==>
      DomainLabel(rt, domain[start..i]) && LabelsFrom(rt, domain[i + 1..])
  {
    var s, k := domain[start..], i - start;
    assert s[..k] == domain[start..i] && s[k + 1..] == domain[i + 1..];
    IndexOfIsFirst(s, '.', k);
  }

  /**
   * IsValidDomain: the length limit, the bracketed branch, then one pass
   * that checks each label as its closing dot is met, and the last label
   * after the loop.
   */
  method IsValidDomain(rt: Runtime, domain: string) returns (ok: bool)
    ensures ok == DomainOk(rt, domain)
  {
    if |domain| == 0 || Utf16Length(domain) > MaxDomainLength {
      return false;
    }
    if domain[0] == '[' && domain[|domain| - 1] == ']' {
      return ValidateIpLiteral(rt, domain[1..|domain| - 1]);
    }
    ScanIsDomainName(rt, domain);
    var lastDotIndex := -1;
    var startIndex := 0;
    for i := 0 to |domain|
      invariant 0 <= startIndex <= i
      invariant lastDotIndex == -1 ==> startIndex == 0
      invariant lastDotIndex != -1 ==> 0 < lastDotIndex == startIndex - 1
      invariant NameScan(rt, domain, 0, 0) == NameScan(rt, domain, startIndex, i)
    {
      if domain[i] == '.' {
        var labelOk := IsValidDomainLabel(rt, domain[startIndex..i]);
        if !labelOk {
          return false;
        }
        lastDotIndex := i;
        startIndex := i + 1;
      }
    }
    if lastDotIndex <= 0 {
      return false;
    }
    ok := IsValidDomainLabel(rt, domain[startIndex..]);
  }

  /**
   * The verdict of IsValidDomain's scan once it has reached `i` with the
   * current label starting at `start`: each dot closes a label that must be
   * valid, and at the end the last label must be valid and some dot must
   * have been seen.
   */
  predicate NameScan(rt: Runtime, domain: string, start: int, i: int)
    requires 0 <= start <= i <= |domain|
    decreases |domain| - i
  {
    if i == |domain| then start > 0 && DomainLabel(rt, domain[start..])
    else if domain[i] == '.' then DomainLabel(rt, domain[start..i]) && NameScan(rt, domain, i + 1, i + 1)
    else NameScan(rt, domain, start, i + 1)
  }

  /** The scan from `i` on, with no dot between `start` and `i`, decides the labels from `start` on. */
  lemma {:induction false} NameScanFrom(rt: Runtime, domain: string, start: int, i: int)
    requires 0 <= start <= i <= |domain|
    requires forall j :: start <= j < i ==> domain[j] != '.'
    ensures NameScan(rt, domain, start, i) == ((start > 0 || '.' in domain[i..]) && LabelsFrom(rt, domain[start..]))
    decreases |domain| - i
  {
    if i == |domain| {
      assert '.' !in domain[start..];
    } else if domain[i] == '.' {
      NameScanFrom(rt, domain, i + 1, i + 1);
      NameScanAtDot(rt, domain, start, i);
    } else {
      NameScanFrom(rt, domain, start, i + 1);
      assert domain[i..] == [domain[i]] + domain[i + 1..];
    }
  }

  /** The step of NameScanFrom at a dot: the label before it and the labels after it. */
  lemma NameScanAtDot(rt: Runtime, domain: string, start: int, i: int)
    requires 0 <= start <= i < |domain| && domain[i] == '.'
    requires forall j :: start <= j < i ==> domain[j] != '.'
    requires NameScan(rt, domain, i + 1, i + 1) == LabelsFrom(rt, domain[i + 1..])
    ensures NameScan(rt, domain, start, i) == LabelsFrom(rt, domain[start..])
    ensures '.' in domain[i..]
  {
    LabelEndsAtDot(rt, domain, start, i);
    assert domain[i..][0] == '.';
  }

  /** The scan from the start decides exactly whether the domain is a domain name. */
  lemma ScanIsDomainName(rt: Runtime, domain: string)
    ensures NameScan(rt, domain, 0, 0) == DomainName(rt, domain)
  {
    NameScanFrom(rt, domain, 0, 0);
    assert domain[0..] == domain;
  }

  /** A name without a dot (`localhost`) is refused. */
  lemma DotFreeDomainRejected(rt: Runtime, domain: string)
    requires '.' !in domain && !LiteralForm(domain)
    ensures !DomainOk(rt, domain)
  {
  }

  /** A leading, trailing or doubled dot leaves an empty label, and the domain is refused. */
  lemma {:induction false} EmptyLabelRejected(rt: Runtime, domain: string)
    requires domain != [] && !LiteralForm(domain)
    requires domain[0] == '.' || domain[|domain| - 1] == '.' ||
             exists i :: 0 <= i < |domain| - 1 && domain[i] == '.' && domain[i + 1] == '.'
    ensures !DomainOk(rt, domain)
  {
    var parts := Split(domain, '.');
    LabelsFromIffAllLabels(rt, domain);
    if domain[0] == '.' {
      SplitLeading(domain, '.');
      assert !DomainLabel(rt, parts[0]);
    } else if domain[|domain| - 1] == '.' {
      SplitTrailing(domain, '.');
      if DomainOk(rt, domain) {
        AllLabelsAt(rt, parts, |parts| - 1);
      }
    } else {
      var i :| 0 <= i < |domain| - 1 && domain[i] == '.' && domain[i + 1] == '.';
      var j := SplitDoubled(domain, '.', i);
      if DomainOk(rt, domain) {
        AllLabelsAt(rt, parts, j);
      }
    }
  }

  /**
   * The two branches never overlap: under the runtime's ASCII facts a
   * domain starting with `[` is never a domain name, so a bracketed domain
   * is judged by the IP-literal branch alone and one that is not closed by
   * `]` is refused.
   */
  lemma BracketIsNeverAName(rt: Runtime, domain: string)
    requires rt.Valid() && domain != [] && domain[0] == '['
    ensures !DomainName(rt, domain)
  {
    if DomainName(rt, domain) {
      var k := IndexOf(domain, '.');
      var first := if k < 0 then domain else domain[..k];
      LabelExcludesSeparators(rt, first, 0);
    }
  }

  // ---------------------------------------------------------------------
  // Whole address
  // ---------------------------------------------------------------------

  /** The checks IsValidEmail and TryParseEmailParts share: non-empty, at most 254 code units, the first `@` neither first nor last. */
  predicate SplitsAtFirstAt(email: string) {
    var atIndex := IndexOf(email, '@');
    1 <= |email| && Utf16Length(email) <= MaxTotalLength && 0 < atIndex < |email| - 1
  }

  /** The address the strict validator means to accept. */
  predicate StrictEmail(rt: Runtime, email: string) {
    var atIndex := IndexOf(email, '@');
    SplitsAtFirstAt(email) && LocalPartOk(email[..atIndex]) && DomainOk(rt, email[atIndex + 1..])
  }

  /** The addresses on which IsValidEmail throws: those whose local part is a lone `"`. */
  predicate LoneQuoteAddress(email: string) {
    2 < |email| && Utf16Length(email) <= MaxTotalLength && email[0] == '"' && email[1] == '@'
  }

  /**
   * IsValidEmail: the length limit, the split at the first `@`, then the
   * local part and (only if that is valid) the domain.
   */
  method IsValidEmail(rt: Runtime, email: string) returns (r: Outcome)
    ensures r == if LoneQuoteAddress(email) then ThrowsOutOfRange else Returns(StrictEmail(rt, email))
  {
    if |email| == 0 || Utf16Length(email) > MaxTotalLength {
      return Returns(false);
    }
    var atIndex := IndexOf(email, '@');
    if atIndex <= 0 || atIndex == |email| - 1 {
      return Returns(false);
    }
    var localPart := email[..atIndex];
    var domain := email[atIndex + 1..];
    assert localPart == "\"" <==> LoneQuoteAddress(email) by {
      if LoneQuoteAddress(email) {
        IndexOfIsFirst(email, '@', 1);
      }
    }
    var local := IsValidLocalPart(localPart);
    if local.ThrowsOutOfRange? {
      return ThrowsOutOfRange;
    }
    if !local.ok {
      return Returns(false);
    }
    var domainOk := IsValidDomain(rt, domain);
    return Returns(domainOk);
  }

  /** IsValidEmail with the guarded local-part check: it never throws and answers StrictEmail on every input. */
  method IsValidEmailGuarded(rt: Runtime, email: string) returns (ok: bool)
    ensures ok == StrictEmail(rt, email)
    ensures LoneQuoteAddress(email) ==> !ok
  {
    if |email| == 0 || Utf16Length(email) > MaxTotalLength {
      return false;
    }
    var atIndex := IndexOf(email, '@');
    if atIndex <= 0 || atIndex == |email| - 1 {
      return false;
    }
    if LoneQuoteAddress(email) {
      IndexOfIsFirst(email, '@', 1);
      assert email[..atIndex] == "\"";
    }
    ok := IsValidLocalPartGuarded(email[..atIndex]);
    if ok {
      ok := IsValidDomain(rt, email[atIndex + 1..]);
    }
  }

  /** The address `"@example.com` is one on which IsValidEmail throws. */
  lemma LoneQuoteExample(email: string)
    requires email == "\"@example.com"
    ensures LoneQuoteAddress(email)
  {
  }

  /** What TryParseEmailParts reports: success, and the two parts (empty on failure). */
  datatype EmailParts = EmailParts(ok: bool, localPart: string, domain: string)

  /** TryParseEmailParts: the pre-checks of IsValidEmail and the split at the first `@`. */
  function TryParseEmailParts(email: string): (r: EmailParts)
    ensures r.ok <==> SplitsAtFirstAt(email)
    ensures r.ok ==> r.localPart + "@" + r.domain == email
    ensures r.ok ==> r.localPart != [] && '@' !in r.localPart && r.domain != []
    ensures !r.ok ==> r.localPart == [] && r.domain == []
  {
    if |email| == 0 || Utf16Length(email) > MaxTotalLength then EmailParts(false, [], [])
    else
      var atIndex := IndexOf(email, '@');
      if atIndex <= 0 || atIndex == |email| - 1 then EmailParts(false, [], [])
      else
        assert email[..atIndex] + "@" + email[atIndex + 1..] == email;
        EmailParts(true, email[..atIndex], email[atIndex + 1..])
  }

  /**
   * The strict validator is the split followed by the two part checks, and
   * its 255-unit domain limit never decides: after the 254-unit total
   * limit a domain has at most 252 code units.
   */
  lemma StrictEmailIsPartsChecked(rt: Runtime, email: string)
    ensures var p := TryParseEmailParts(email);
      StrictEmail(rt, email) <==> p.ok && LocalPartOk(p.localPart) && DomainForm(rt, p.domain)
    ensures TryParseEmailParts(email).ok ==> Utf16Length(TryParseEmailParts(email).domain) <= MaxTotalLength - 2
  {
    var p := TryParseEmailParts(email);
    if p.ok {
      AddressLength(p.localPart, p.domain);
    }
  }

  /** The code units of `localPart@domain`: those of the two parts and one for the `@`. */
  lemma AddressLength(localPart: string, domain: string)
    ensures Utf16Length(localPart + "@" + domain) == Utf16Length(localPart) + 1 + Utf16Length(domain)
  {
    Utf16LengthAppend(localPart + "@", domain);
    Utf16LengthAppend(localPart, "@");
    assert Utf16Length("@") == 1 by { assert "@"[1..] == []; }
  }

  /** An address assembled from an `@`-free local part and any domain is judged on exactly those two parts. */
  lemma StrictEmailOfParts(rt: Runtime, localPart: string, domain: string)
    requires localPart != [] && '@' !in localPart
    ensures StrictEmail(rt, localPart + "@" + domain) <==>
      Utf16Length(localPart) + 1 + Utf16Length(domain) <= MaxTotalLength && domain != [] &&
      LocalPartOk(localPart) && DomainOk(rt, domain)
  {
    var email := localPart + "@" + domain;
    AddressLength(localPart, domain);
    assert email[..|localPart|] == localPart && email[|localPart| + 1..] == domain;
    IndexOfIsFirst(email, '@', |localPart|);
  }

  /** The local-part limit is 64: 64 letters pass, 65 do not. */
  lemma LocalPartLengthLimit()
    ensures LocalPartOk(seq(64, _ => 'a'))
    ensures !LocalPartOk(seq(65, _ => 'a'))
  {
    var s, t := seq(64, _ => 'a'), seq(65, _ => 'a');
    Utf16LengthBmp(s);
    Utf16LengthBmp(t);
    assert !QuotedForm(s) by { assert s[0] == 'a'; }
    assert DotAtom(s);
  }

  /**
   * The limit counts UTF-16 code units: a quoted local part of 32 characters
   * from U+10000 on has 34 characters and valid content, yet 66 code units,
   * so it is refused.
   */
  lemma LocalPartLimitCountsCodeUnits(inner: string)
    requires |inner| == 32 && forall i :: 0 <= i < |inner| ==> inner[i] as int >= 0x10000
    ensures QuotedContent(inner)
    ensures |['"'] + inner + ['"']| == 34
    ensures !LocalPartOk(['"'] + inner + ['"'])
  {
    Utf16LengthAstral(inner);
    Utf16LengthAppend(['"'] + inner, ['"']);
    Utf16LengthAppend(['"'], inner);
    AstralQuotedContent(inner);
  }

  /** Characters from U+10000 on are never control characters and never a backslash. */
  lemma {:induction false} AstralQuotedContent(s: string)
    requires forall i :: 0 <= i < |s| ==> s[i] as int >= 0x10000
    ensures QuotedContent(s)
    decreases |s|
  {
    if s != [] {
      AstralQuotedContent(s[1..]);
    }
  }

  // ---------------------------------------------------------------------
  // Quick check
  // ---------------------------------------------------------------------

  /** string.IsNullOrWhiteSpace on a non-null string: every character is white space (the empty string included). */
  predicate IsNullOrWhiteSpace(rt: Runtime, s: string) {
    forall i :: 0 <= i < |s| ==> rt.isWhiteSpace(s[i])
  }

  /** No input of the pattern's language, with or without a line feed after it, is blank. */
  lemma LanguageIsNotBlank(rt: Runtime, email: string)
    requires rt.Valid()
    ensures EmailPattern.InLanguage(email) ==> !IsNullOrWhiteSpace(rt, email)
    ensures |email| >= 1 && EmailPattern.InLanguage(email[..|email| - 1]) ==> !IsNullOrWhiteSpace(rt, email)
  {
    if EmailPattern.InLanguage(email) {
      assert EmailPattern.IsLocalClassChar(email[0]);
    }
    if |email| >= 1 && EmailPattern.InLanguage(email[..|email| - 1]) {
      assert EmailPattern.IsLocalClassChar(email[..|email| - 1][0]);
      assert email[0] == email[..|email| - 1][0];
    }
  }

  /**
   * IsValidEmailQuick: blank and over-long input is refused, everything
   * else goes to the pattern, trailing line feed quirk included.
   */
  function IsValidEmailQuick(rt: Runtime, email: string): (r: bool)
    ensures IsNullOrWhiteSpace(rt, email) || Utf16Length(email) > MaxTotalLength ==> !r
    ensures rt.Valid() ==>
      (r <==> (Utf16Length(email) <= MaxTotalLength &&
               (EmailPattern.InLanguage(email) ||
                (|email| >= 1 && email[|email| - 1] == '\n' && EmailPattern.InLanguage(email[..|email| - 1])))))
  {
    if !IsNullOrWhiteSpace(rt, email) && Utf16Length(email) <= MaxTotalLength then
      EmailPattern.IsMatch(email)
    else
      (if rt.Valid() then LanguageIsNotBlank(rt, email); false else false)
  }

  /** The quick check with the pattern anchored at the very end of the input. */
  function IsValidEmailQuickAnchored(rt: Runtime, email: string): (r: bool)
    ensures rt.Valid() ==> (r <==> Utf16Length(email) <= MaxTotalLength && EmailPattern.InLanguage(email))
    ensures r ==> |email| >= 1 && IsAsciiLetterOrDigit(email[|email| - 1])
  {
    EmailPattern.RecognizerCorrect(email);
    if !IsNullOrWhiteSpace(rt, email) && Utf16Length(email) <= MaxTotalLength && EmailPattern.MatchesExactly(email) then
      EmailPattern.LanguageEndsAlnum(email);
      true
    else
      (if rt.Valid() then LanguageIsNotBlank(rt, email); false else false)
  }

  // ---------------------------------------------------------------------
  // Quick check against strict check
  // ---------------------------------------------------------------------

  /** Every string is ASCII. */
  predicate AllAscii(s: string) {
    forall i :: 0 <= i < |s| ==> IsAscii(s[i])
  }

  /** On ASCII text a DNS label as the strict check judges it is a label of the pattern. */
  lemma DomainLabelIsPatternLabel(rt: Runtime, lbl: string)
    requires rt.Valid() && AllAscii(lbl) && DomainLabel(rt, lbl)
    ensures EmailPattern.Label(lbl)
  {
    assert IsAscii(lbl[0]) && IsAscii(lbl[|lbl| - 1]);
    forall i | 0 < i < |lbl| - 1 ensures EmailPattern.IsLabelClassChar(lbl[i]) {
      assert IsAscii(lbl[i]);
    }
  }

  /** On ASCII text, labels that pass the strict check one dot at a time form label(\.label)*. */
  lemma {:induction false} LabelsFromIsPatternLabels(rt: Runtime, s: string)
    requires rt.Valid() && AllAscii(s) && LabelsFrom(rt, s)
    ensures EmailPattern.Labels(s)
    decreases |s|
  {
    var k := IndexOf(s, '.');
    if k < 0 {
      DomainLabelIsPatternLabel(rt, s);
      EmailPattern.LabelsOfOnePiece(s);
    } else {
      var head, rest := s[..k], s[k + 1..];
      assert s == head + s[k..] && s[k..][1..] == rest;
      DomainLabelIsPatternLabel(rt, head);
      LabelsFromIsPatternLabels(rt, rest);
      EmailPattern.LabelsAtDot(head, s[k..]);
    }
  }

  /**
   * On ASCII addresses with an unquoted local part and a domain name (not
   * an IP literal), whatever the strict check accepts the quick check
   * accepts too.
   */
  lemma StrictImpliesQuick(rt: Runtime, email: string)
    requires rt.Valid() && AllAscii(email) && StrictEmail(rt, email)
    requires email[0] != '"' && !LiteralForm(email[IndexOf(email, '@') + 1..])
    ensures EmailPattern.InLanguage(email)
    ensures IsValidEmailQuick(rt, email) && IsValidEmailQuickAnchored(rt, email)
  {
    var k := IndexOf(email, '@');
    var localPart, domain := email[..k], email[k + 1..];
    assert DotAtom(localPart);
    forall i | 0 <= i < k ensures EmailPattern.IsLocalClassChar(email[i]) {
      assert localPart[i] == email[i];
    }
    assert AllAscii(domain);
    LabelsFromIsPatternLabels(rt, domain);
  }

  /**
   * Local-class characters, the `@`, then label(\.label)*, within 254 code
   * units: the quick check accepts the address.
   */
  lemma QuickAcceptsParts(rt: Runtime, localPart: string, domain: string)
    requires rt.Valid()
    requires localPart != [] && forall i :: 0 <= i < |localPart| ==> EmailPattern.IsLocalClassChar(localPart[i])
    requires EmailPattern.Labels(domain) && Utf16Length(localPart) + 1 + Utf16Length(domain) <= MaxTotalLength
    ensures EmailPattern.InLanguage(localPart + "@" + domain)
    ensures IsValidEmailQuick(rt, localPart + "@" + domain)
  {
    LanguageOfParts(localPart, domain);
    AddressLength(localPart, domain);
  }

  /** Local-class characters, the `@`, then label(\.label)*: the address is in the pattern's language. */
  lemma LanguageOfParts(localPart: string, domain: string)
    requires localPart != [] && forall i :: 0 <= i < |localPart| ==> EmailPattern.IsLocalClassChar(localPart[i])
    requires EmailPattern.Labels(domain)
    ensures EmailPattern.InLanguage(localPart + "@" + domain)
  {
    var email := localPart + "@" + domain;
    assert forall i :: 0 <= i < |localPart| ==> email[i] == localPart[i] && email[i] != '@';
    assert email[|localPart| + 1..] == domain;
    EmailPattern.LanguageAtFirstAt(email, |localPart|);
  }

  /**
   * The quick check accepts a domain without a dot (`a@localhost`), which
   * the strict check refuses.
   */
  lemma QuickAcceptsDotFreeDomain(rt: Runtime, localPart: string, domain: string)
    requires rt.Valid()
    requires localPart != [] && forall i :: 0 <= i < |localPart| ==> EmailPattern.IsLocalClassChar(localPart[i])
    requires EmailPattern.Label(domain) && Utf16Length(localPart) + 1 + Utf16Length(domain) <= MaxTotalLength
    ensures IsValidEmailQuick(rt, localPart + "@" + domain)
    ensures !StrictEmail(rt, localPart + "@" + domain)
  {
    PatternLabelIsBare(domain);
    EmailPattern.LabelsOfOnePiece(domain);
    QuickAcceptsParts(rt, localPart, domain);
    DotFreeDomainRejected(rt, domain);
    StrictEmailOfParts(rt, localPart, domain);
  }

  /** A label of the pattern holds no dot and is no bracketed literal. */
  lemma PatternLabelIsBare(domain: string)
    requires EmailPattern.Label(domain)
    ensures '.' !in domain && !LiteralForm(domain)
  {
    forall i | 0 <= i < |domain| ensures domain[i] != '.' {
      if 0 < i < |domain| - 1 { assert EmailPattern.IsLabelClassChar(domain[i]); }
    }
  }

  /**
   * The quick check accepts a local part with a leading or doubled dot
   * (`.a..b@x.com`), which the strict check refuses.
   */
  lemma QuickAcceptsStrayDots(rt: Runtime, localPart: string, domain: string)
    requires rt.Valid()
    requires localPart != [] && forall i :: 0 <= i < |localPart| ==> EmailPattern.IsLocalClassChar(localPart[i])
    requires localPart[0] == '.' || exists i :: 0 <= i < |localPart| - 1 && localPart[i] == '.' && localPart[i + 1] == '.'
    requires EmailPattern.Labels(domain) && Utf16Length(localPart) + 1 + Utf16Length(domain) <= MaxTotalLength
    ensures IsValidEmailQuick(rt, localPart + "@" + domain)
    ensures !StrictEmail(rt, localPart + "@" + domain)
  {
    QuickAcceptsParts(rt, localPart, domain);
    StrayDotsRefused(localPart);
    StrictEmailOfParts(rt, localPart, domain);
  }

  /** A local part of pattern characters with a leading or doubled dot is neither quoted nor a dot-atom. */
  lemma StrayDotsRefused(localPart: string)
    requires localPart != [] && forall i :: 0 <= i < |localPart| ==> EmailPattern.IsLocalClassChar(localPart[i])
    requires localPart[0] == '.' || exists i :: 0 <= i < |localPart| - 1 && localPart[i] == '.' && localPart[i + 1] == '.'
    ensures !LocalPartOk(localPart)
  {
    assert !QuotedForm(localPart);
  }

  /**
   * The `$` quirk: an address of the language followed by a line feed is
   * accepted by IsValidEmailQuick, though it is not in the language and the
   * anchored check refuses it.
   */
  lemma TrailingLineFeedAccepted(rt: Runtime, email: string)
    requires rt.Valid() && EmailPattern.InLanguage(email) && Utf16Length(email) < MaxTotalLength
    ensures IsValidEmailQuick(rt, email + "\n")
    ensures !EmailPattern.InLanguage(email + "\n")
    ensures !IsValidEmailQuickAnchored(rt, email + "\n")
  {
    var s := email + "\n";
    assert s[..|s| - 1] == email;
    Utf16LengthAppend(email, "\n");
    assert Utf16Length("\n") == 1 by { assert "\n"[1..] == []; }
    if EmailPattern.InLanguage(s) {
      EmailPattern.LanguageEndsAlnum(s);
    }
  }
}
