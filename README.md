# Disposable: a verified model of the email and domain checks

Disposable is a .NET library that reports whether an email address or a
domain belongs to a disposable (throw-away) mail provider. A build step
generates a list of provider domains. At start-up the list is loaded into
a frozen set that compares strings ignoring case. Two entry points query
it:

- `EmailValidator.IsDisposable` takes the text after the first `@`. It
  applies a minimal shape check (the last dot is neither the first nor
  the last character) and looks the domain up. Malformed input is
  reported as disposable, so this check fails closed.
- `DomainValidator.IsDisposable` looks the domain up as given. Malformed
  input that is not listed (and the empty string always) is reported as
  not disposable, so this check fails open.

An internal `ValidatorHelpers` class holds a stricter grammar checker:

- `IsValidEmail` checks the total and local-part lengths, a dot-atom or
  quoted local part, and dot-separated domain labels or a bracketed IP
  literal.
- `IsValidEmailQuick` is a regex fast path.

The model has six modules:

| module | file | what it holds |
|---|---|---|
| `Text` | `text.dfy` | The string services the code relies on: first and last index of a character, prefix test, the runtime's character classes and case mapping (the `Runtime` datatype), and splitting on a separator. |
| `DisposableDomains` | `disposable_domains.dfy` | The denylist set and its membership test. The generated list is a parameter `values`. |
| `EmailValidator` | `email_validator.dfy` | The email entry point and its shape check. |
| `DomainValidator` | `domain_validator.dfy` | The domain entry point. |
| `EmailPattern` | `email_pattern.dfy` | The language of the quick-check regex, given by a declarative definition and a scanning automaton proved equal to it. |
| `ValidatorHelpers` | `validator_helpers.dfy` | The strict checker. Each source loop is a method proved equal to a declarative predicate: dot-atom, quoted content, domain label, domain name. |

The runtime services the library calls are fields of `Text.Runtime`:

- `char.IsLetterOrDigit` and `char.IsWhiteSpace`;
- the per-character mapping behind `StringComparer.OrdinalIgnoreCase`;
- `IPAddress.TryParse`.

`Runtime.Valid()` states what these services do on ASCII characters, and
that the character classes are false for characters from U+10000 on (.NET
hands them over as surrogate code units, which are neither letters,
digits nor white space). A lemma that depends on that behaviour requires
it.

Dafny strings hold Unicode scalar values, while a .NET string holds UTF-16
code units. Every length limit of the source is therefore stated with
`Text.Utf16Length`, which counts two units for each character from U+10000
on. Scanning by scalar value gives the same verdicts as the source's
scanning by code unit: a surrogate is never `.`, `@`, `"`, `\`, a control
character, an allowed local-part character, a letter, a digit or white
space.

Source exceptions are modelled as values. `ValidatorHelpers.Outcome` is
either `Returns(b)` or `ThrowsOutOfRange`.

## Model

| member | source | states |
|---|---|---|
| Text.IndexOf | Disposable/ValidatorHelpers.cs:24 | The result is -1 exactly when the character is absent; otherwise it is the position of its first occurrence. |
| Text.Utf16Length | Disposable/ValidatorHelpers.cs:21 | The length counts UTF-16 code units: at least one and at most two per character, zero only for the empty string. Utf16LengthAppend, Utf16LengthBmp and Utf16LengthAstral add that lengths add up, that Basic Multilingual Plane text has one unit per character, and that astral text has two. |
| Text.StartsWith | Disposable/ValidatorHelpers.cs:199 | The ordinal prefix test holds exactly when the prefix is no longer than the text and agrees with it position by position. |
| Text.EqualsIgnoreCase | Disposable/DisposableDomains.cs:20 | The comparer's equality is reflexive; EqualsIgnoreCaseIffFoldCase ties it to equality of folded strings. |
| Text.LastIndexOf | Disposable/EmailValidator.cs:37 | The result is -1 exactly when the character is absent; otherwise the character is at that position and nowhere after it. |
| Text.FoldCase | Disposable/DisposableDomains.cs:20 | The folded string has the same length and maps each character through the runtime's case mapping. |
| Text.EqualsIgnoreCaseIffFoldCase | Disposable/DisposableDomains.cs:20 | Two strings compare equal under OrdinalIgnoreCase exactly when their folded forms are equal, so the comparer's classes are keyed by the folded string. |
| DisposableDomains.GetDomains | Disposable/DisposableDomains.cs:19-20 | Every generated value is in the set (by its folded key), and every key comes from some generated value. |
| DisposableDomains.Contains | Disposable/DisposableDomains.cs:12-17 | The empty domain is never contained. |
| DisposableDomains.ContainsIffListed | Disposable/DisposableDomains.cs:12-17 | A domain is contained exactly when it is non-empty and some generated value equals it ignoring case. |
| DisposableDomains.Domains | Disposable/DisposableDomains.cs:22 | Domains exposes the generated values unchanged: same length, same entries in the same order. |
| DisposableDomains.ListedDomainsAreContained | Disposable/DisposableDomains.cs:9-22 | Every non-empty entry of Domains passes Contains. |
| DisposableDomains.CaseDuplicatesCollapse | Disposable/DisposableDomains.cs:19-20 | Two values equal up to case give one key in the set. |
| DisposableDomains.ContainsIgnoresCase | Disposable/DisposableDomains.cs:16 | Domains equal up to case get the same answer. |
| DisposableDomains.AsciiCaseInsensitive | Disposable/DisposableDomains.cs:20 | Under the runtime facts (`Runtime.Valid`), strings that differ only in ASCII letter case compare equal. |
| DisposableDomains.SubdomainNotImplied | Disposable/DisposableDomains.cs:16 | With a list holding only that domain, the domain is contained, but a longer name ending in it (such as a subdomain) is not. |
| DomainValidator.IsDisposable | Disposable/DomainValidator.cs:13-16 | The domain is reported exactly when it is non-empty and listed up to case. No shape check is made. Both overloads (lines 13-16 and 24-27) have this behaviour. |
| DomainValidator.NoShapeCheck | Disposable/DomainValidator.cs:24-27 | Any non-empty string, however malformed, is reported once listed; the empty string never is. |
| DomainValidator.UpperCaseSameAnswer | Disposable/DomainValidator.cs:24-27 | "GMAIL.COM" gets the same answer as "gmail.com". |
| DomainValidator.EntryPointsCompared | Disposable/DomainValidator.cs:13-16 | The email and domain entry points agree on a well-shaped domain. On a malformed, unlisted domain the email check reports it and the domain check does not. |
| EmailValidator.IsValidDomain | Disposable/EmailValidator.cs:33-39 | The shape check passes exactly when the domain is non-empty, does not end in a dot, and has a dot after its first character. |
| EmailValidator.TryGetDomain | Disposable/EmailValidator.cs:19-30 | A domain is extracted exactly when the first `@` is neither first nor last. It is the whole suffix after that `@`. The verdict is the shape check on it, and false when none is extracted. |
| EmailValidator.IsDisposable | Disposable/EmailValidator.cs:13-17 | Input whose domain is missing or fails the shape check is reported as disposable. |
| EmailValidator.DomainIsSuffixAfterFirstAt | Disposable/EmailValidator.cs:25-28 | For `local@domain` with an `@`-free local part, the candidate is exactly `domain`, even if it holds another `@`. |
| EmailValidator.DomainDecides | Disposable/EmailValidator.cs:13-17 | The answer for `local@domain` is "shape check fails, or the domain is listed". |
| EmailValidator.LocalPartIrrelevant | Disposable/EmailValidator.cs:13-17 | Two addresses with the same domain get the same answer. |
| EmailValidator.MalformedIsDisposable | Disposable/EmailValidator.cs:22-26 | Empty input, input with no `@`, and input whose first `@` is first or last are reported as disposable. |
| EmailValidator.ShapeExamples | Disposable/EmailValidator.cs:33-39 | ".a.com" and "@domain.com" pass the shape check. "a.com." fails it although it has an interior dot, and ".com" fails it. |
| EmailPattern.IsMatch | Disposable/ValidatorHelpers.cs:222-226 | The regex matches exactly the inputs in the pattern's language, plus such an input followed by one final line feed. |
| EmailPattern.RecognizerCorrect | Disposable/ValidatorHelpers.cs:223 | The scanning automaton accepts exactly the declarative language: allowed local characters, the first `@`, then dot-separated labels of 1 to 63 characters. |
| EmailPattern.LanguageEndsAlnum | Disposable/ValidatorHelpers.cs:223 | Every input in the language ends in an ASCII letter or digit. |
| ValidatorHelpers.IsAllowedLocalPartChar | Disposable/ValidatorHelpers.cs:151-174 | The character class of an unquoted local part, written as the source's list; its properties are stated by AllowedCharIsAtext. |
| ValidatorHelpers.AllowedCharIsAtext | Disposable/ValidatorHelpers.cs:151-174 | Allowed unquoted characters are printable ASCII (33 to 126) and exclude `. @ " \ [ ]`. Every ASCII letter or digit is allowed. |
| ValidatorHelpers.DotAtomIffAtoms | Disposable/ValidatorHelpers.cs:127-148 | The scan-shaped dot-atom predicate agrees with its reading as dot-separated non-empty atoms of allowed characters. |
| ValidatorHelpers.ValidateUnquotedLocalPart | Disposable/ValidatorHelpers.cs:127-148 | The loop accepts exactly the dot-atoms (no leading, trailing or doubled dot; allowed characters only) that are at most 64 code units long whenever they contain a dot. |
| ValidatorHelpers.ValidateQuotedLocalPart | Disposable/ValidatorHelpers.cs:109-125 | The loop accepts exactly quoted content: each backslash escapes the next character, no backslash is last, and no unescaped character is a control character (below 32, or 127). |
| ValidatorHelpers.QuotedContentAppend | Disposable/ValidatorHelpers.cs:111-123 | After valid content the scan restarts cleanly: valid content followed by `t` is valid exactly when `t` is. |
| ValidatorHelpers.EscapedCharacterUnrestricted | Disposable/ValidatorHelpers.cs:114-119 | An escaped character may be anything, control characters included. |
| ValidatorHelpers.UnescapedControlRejected | Disposable/ValidatorHelpers.cs:121-122 | An unescaped control character rejects the content. |
| ValidatorHelpers.TrailingBackslashRejected | Disposable/ValidatorHelpers.cs:116-117 | A backslash with nothing after it rejects the content. |
| ValidatorHelpers.IsValidLocalPart | Disposable/ValidatorHelpers.cs:64-77 | A lone `"` throws the range exception. Every other input returns the verdict LocalPartOk: non-empty and at most 64 code units, then quoted content inside matching quotes, or else an unquoted dot-atom. |
| ValidatorHelpers.IsValidLocalPartGuarded | Disposable/ValidatorHelpers.cs:64-77 | The corrected local-part check answers LocalPartOk on every input and rejects the lone `"`. |
| ValidatorHelpers.LoneQuoteIsNotALocalPart | Disposable/ValidatorHelpers.cs:70-72 | The lone `"` is not a valid local part. |
| ValidatorHelpers.LocalPartLengthLimit | Disposable/ValidatorHelpers.cs:66 | A 64-character local part can pass; a 65-character one cannot. |
| ValidatorHelpers.LocalPartLimitCountsCodeUnits | Disposable/ValidatorHelpers.cs:66 | A quoted local part of 32 characters from U+10000 on has 34 characters and valid content, but 66 code units, so it is refused. |
| ValidatorHelpers.IsValidDomainLabel | Disposable/ValidatorHelpers.cs:176-194 | The loop accepts exactly non-empty labels of at most 63 code units. Both ends must be letters or digits, and inner characters letters, digits or `-`. |
| ValidatorHelpers.LabelExcludesSeparators | Disposable/ValidatorHelpers.cs:182-190 | Under the runtime facts (`Runtime.Valid`) a valid label holds no `.`, `@`, `[` or `]`. |
| ValidatorHelpers.ValidateIpLiteral | Disposable/ValidatorHelpers.cs:196-206 | A literal starting with "IPv6:" is decided by the IP parser on the text after the prefix. Any other literal is decided by the parser on the whole text. |
| ValidatorHelpers.IPv6LiteralDomain | Disposable/ValidatorHelpers.cs:85-88 | `[IPv6:a]` within the length limit is a valid domain exactly when the IP parser accepts `a`. |
| ValidatorHelpers.IpLiteralDomain | Disposable/ValidatorHelpers.cs:85-88 | `[a]`, where `a` does not start with `IPv6:`, is a valid domain within the length limit exactly when the IP parser accepts `a`. |
| ValidatorHelpers.IsValidDomain | Disposable/ValidatorHelpers.cs:79-107 | The domain must be non-empty and at most 255 code units. Then `[...]` is decided by the IP literal check. Any other domain passes exactly when it contains a dot and every dot-separated piece is a valid label. |
| ValidatorHelpers.ScanIsDomainName | Disposable/ValidatorHelpers.cs:90-106 | The loop's label-by-label verdict, started at the beginning, equals the declarative "has a dot and all pieces are labels". |
| ValidatorHelpers.DotFreeDomainRejected | Disposable/ValidatorHelpers.cs:106 | A domain without a dot that is not a bracketed literal is rejected. |
| ValidatorHelpers.EmptyLabelRejected | Disposable/ValidatorHelpers.cs:95-106 | A non-literal domain with a leading, trailing or doubled dot is rejected. |
| ValidatorHelpers.BracketIsNeverAName | Disposable/ValidatorHelpers.cs:85-88 | Under the runtime facts (`Runtime.Valid`) a domain starting with `[` is never a valid domain name, so only the literal branch can accept it. |
| ValidatorHelpers.IsValidEmail | Disposable/ValidatorHelpers.cs:19-32 | On an address whose local part is a lone `"` the check throws. Every other address returns the strict verdict: non-empty and at most 254 code units, first `@` neither first nor last, valid local part, valid domain. |
| ValidatorHelpers.IsValidEmailGuarded | Disposable/ValidatorHelpers.cs:19-32 | The corrected whole-address check returns the strict verdict on every input and rejects the lone-quote address. |
| ValidatorHelpers.LoneQuoteExample | Disposable/ValidatorHelpers.cs:28 | `"@example.com` is an address on which the check throws. |
| ValidatorHelpers.TryParseEmailParts | Disposable/ValidatorHelpers.cs:43-62 | Parsing succeeds exactly when the input is non-empty, at most 254 code units, and the first `@` is neither first nor last. The parts then rebuild the input around that `@`. On failure both parts are empty. |
| ValidatorHelpers.StrictEmailIsPartsChecked | Disposable/ValidatorHelpers.cs:19-32 | The strict verdict is "the parts parse, the local part is valid, and the domain has a valid form". A parsed domain is at most 252 code units, so the 255 domain limit never binds. |
| ValidatorHelpers.StrictEmailOfParts | Disposable/ValidatorHelpers.cs:19-32 | For `local@domain` with an `@`-free local part, the strict verdict is the total length limit (the parts' code units plus one) together with the two part checks. |
| ValidatorHelpers.IsNullOrWhiteSpace | Disposable/ValidatorHelpers.cs:38 | The blank test on a non-null string: every character is white space, so the empty string is blank. LanguageIsNotBlank states that no matching input is blank. |
| ValidatorHelpers.LanguageIsNotBlank | Disposable/ValidatorHelpers.cs:38 | An input the regex matches is never blank, so the blank test never changes the answer for such inputs. |
| ValidatorHelpers.IsValidEmailQuick | Disposable/ValidatorHelpers.cs:36-41 | Blank input and input over 254 code units are rejected. Under the runtime facts the check passes exactly when the length is at most 254 code units and the regex matches (trailing line feed included). |
| ValidatorHelpers.IsValidEmailQuickAnchored | Disposable/ValidatorHelpers.cs:36-41 | The corrected quick check passes exactly when the length is at most 254 code units and the input is in the language. Every accepted input ends in a letter or digit. |
| ValidatorHelpers.DomainLabelIsPatternLabel | Disposable/ValidatorHelpers.cs:176-194 | An ASCII label that passes the label check is a label of the regex. |
| ValidatorHelpers.LabelsFromIsPatternLabels | Disposable/ValidatorHelpers.cs:90-106 | An ASCII domain whose pieces all pass the label check is in the regex's `label(\.label)*`. |
| ValidatorHelpers.StrictImpliesQuick | Disposable/ValidatorHelpers.cs:19-41 | An ASCII address with an unquoted local part and a non-literal domain that passes the strict check also passes both quick checks. |
| ValidatorHelpers.QuickAcceptsDotFreeDomain | Disposable/ValidatorHelpers.cs:223 | The quick check accepts an address whose domain is a single label (no dot); the strict check rejects it. |
| ValidatorHelpers.QuickAcceptsStrayDots | Disposable/ValidatorHelpers.cs:223 | The quick check accepts a local part with a leading or doubled dot; the strict check rejects it. |
| ValidatorHelpers.TrailingLineFeedAccepted | Disposable/ValidatorHelpers.cs:40 | Appending a line feed to a matching address keeps the quick check passing. The result is not in the language, and the corrected quick check rejects it. |

## Left out

- `ValidatorHelpers.ValidateMailbox` (Disposable/ValidatorHelpers.cs:208-220) resolves the host over DNS. It is network I/O and is not modelled.
- `IPAddress.TryParse` is not modelled. It is the abstract `Runtime.tryParseIp`, and the IPv4 and IPv6 grammars are not part of this model.
- `char.IsLetterOrDigit`, `char.IsWhiteSpace` and the OrdinalIgnoreCase case mapping are abstract runtime functions. Only their behaviour on ASCII, and the classes' answer for characters from U+10000 on, is stated (`Runtime.Valid`). Unicode categories and non-ASCII case mapping between U+0080 and U+FFFF are not.
- OrdinalIgnoreCase is modelled as a per-character mapping. Comparisons involving surrogate pairs are not distinguished.
- The generated domain list is a parameter. `Disposable.Generator` is not part of this model: it downloads and lowercases the list at build time, and no property of the list is assumed.
- .NET strings can be null; Dafny strings cannot. Two null cases are not modelled: `IsValidEmailQuick` rejects null through `IsNullOrWhiteSpace`, and the `DomainValidator.IsDisposable(string)` overload turns null into an empty span and returns false.
- Span-versus-string overloads, `ToString` copies, the frozen set's hashing and `AggressiveInlining` do not affect results and are not modelled. The two `DomainValidator.IsDisposable` overloads are one function.
- Every operation is a function or a method without state, so repeated calls trivially give the same answer. No separate determinism lemma is stated.
- EmailValidator.IsDisposable: its own ensures covers only the malformed case; the full answer is stated by `EmailValidator.DomainDecides`, whose proof uses the function's definition.
- ValidatorHelpers.IsValidEmailQuick: the exact match statement holds only under `Runtime.Valid`, because the blank test uses `char.IsWhiteSpace`.
- ValidatorHelpers.StrictImpliesQuick: proved only for ASCII addresses with an unquoted local part and a non-literal domain. Quoted local parts and IP literals are outside the regex's language.
- One might expect the email shape check to accept any domain with an interior dot. The code tests only the last dot (`LastIndexOf`, Disposable/EmailValidator.cs:37-38), so "a.com." is rejected although it has an interior dot (`EmailValidator.ShapeExamples`).
- The library's tests expect `true` for "user@@domain.com" (Disposable.Tests/DisposableTests.cs:30) and for malformed domains (lines 36-45).
  - The code looks up "@domain.com", which passes the shape check, so the answer depends on whether that string is listed.
  - `DomainValidator` answers `false` for unlisted malformed domains.
  - The model follows the code (`EmailValidator.DomainIsSuffixAfterFirstAt`, `DomainValidator.NoShapeCheck`).
- The domain limit of 255 (Disposable/ValidatorHelpers.cs:15) never binds in `IsValidEmail`. The 254 total limit already caps the domain at 252 (`ValidatorHelpers.StrictEmailIsPartsChecked`).

## Findings

| source | as written | input that shows it | evidently intended | confidence | as-written member | corrected member |
|---|---|---|---|---|---|---|
| Disposable/ValidatorHelpers.cs:70-72 | A local part that is a single `"` starts and ends with `"`, so `localPart[1..^1]` is taken on a one-character span. The range 1..0 makes the slice throw ArgumentOutOfRangeException out of `IsValidEmail`. | `"@example.com` | Return false: a lone quote is not a quoted string. | high; not executed | ValidatorHelpers.IsValidLocalPart (with ValidatorHelpers.IsValidEmail and ValidatorHelpers.LoneQuoteExample) | ValidatorHelpers.IsValidLocalPartGuarded (with ValidatorHelpers.IsValidEmailGuarded and ValidatorHelpers.LoneQuoteIsNotALocalPart) |
| Disposable/ValidatorHelpers.cs:223 and :40 | The pattern ends in `$` without RegexOptions.Multiline. In .NET, `$` also matches just before a final `\n`, so `IsMatch` accepts a valid address followed by a line feed. | `a@b.com` followed by `\n` | Anchor at the very end (`\z`), so that no line feed is accepted. | medium; not executed | ValidatorHelpers.TrailingLineFeedAccepted (on ValidatorHelpers.IsValidEmailQuick) | ValidatorHelpers.IsValidEmailQuickAnchored |
