/**
 * The email entry point: take the text after the first `@`, apply a minimal
 * shape check to it, and look it up in the denylist. Anything malformed is
 * reported as disposable (the check fails closed).
 */
module EmailValidator {
  import opened Text
  import DisposableDomains

  /**
   * IsValidDomain (the shape check): the last dot is neither the first nor
   * the last character. Equivalently: the domain does not end in a dot and
   * holds a dot somewhere after its first character.
   */
  function IsValidDomain(domain: string): (r: bool)
    ensures r <==> |domain| >= 1 && domain[|domain| - 1] != '.' && '.' in domain[1..]
  {
    if domain == [] then false
    else
      var lastDot := LastIndexOf(domain, '.');
      LastDotShape(domain);
      lastDot > 0 && lastDot < |domain| - 1
  }

  /** Where the last dot lies, read off from the two ends of the domain. */
  lemma LastDotShape(domain: string)
    requires domain != []
    ensures LastIndexOf(domain, '.') > 0 <==> '.' in domain[1..]
    ensures LastIndexOf(domain, '.') == |domain| - 1 <==> domain[|domain| - 1] == '.'
  {
    var k := LastIndexOf(domain, '.');
    if '.' in domain[1..] {
      var j :| 1 <= j < |domain| && domain[j] == '.';
      assert j <= k;
    }
    if k > 0 {
      assert domain[1..][k - 1] == '.';
    }
  }

  /** What TryGetDomain reports: whether the domain passed, and the domain it extracted (empty if none). */
  datatype DomainAttempt = DomainAttempt(ok: bool, domain: string)

  /**
   * TryGetDomain: the text after the first `@`, provided that `@` is
   * neither the first nor the last character, together with the verdict of
   * the shape check on it.
   */
  function TryGetDomain(email: string): (r: DomainAttempt)
    ensures r.domain == [] ==> !r.ok
    ensures r.domain != [] ==> r.ok == IsValidDomain(r.domain)
    ensures r.domain != [] <==> 0 < IndexOf(email, '@') < |email| - 1
    ensures r.domain != [] ==>
      (|r.domain| < |email| - 1 &&
       IsFirst(email, '@', |email| - |r.domain| - 1) && r.domain == email[|email| - |r.domain|..])
  {
    if email == [] then DomainAttempt(false, [])
    else
      var atIndex := IndexOf(email, '@');
      if atIndex <= 0 || atIndex == |email| - 1 then DomainAttempt(false, [])
      else
        var domain := email[atIndex + 1..];
        DomainAttempt(IsValidDomain(domain), domain)
  }

  /** IsDisposable: true when no domain passes the shape check, else the denylist's answer. */
  function IsDisposable(rt: Runtime, values: seq<string>, email: string): (r: bool)
    ensures !TryGetDomain(email).ok ==> r
  {
    var attempt := TryGetDomain(email);
    if !attempt.ok then true else DisposableDomains.Contains(rt, values, attempt.domain)
  }

  /** The candidate domain is exactly the text after the first `@`, whatever it holds (another `@` included). */
  lemma DomainIsSuffixAfterFirstAt(localPart: string, domain: string)
    requires localPart != [] && '@' !in localPart && domain != []
    ensures TryGetDomain(localPart + "@" + domain).domain == domain
  {
    var email := localPart + "@" + domain;
    assert email[..|localPart|] == localPart && email[|localPart| + 1..] == domain;
    IndexOfIsFirst(email, '@', |localPart|);
  }

  /**
   * The answer for an address with an `@`-free, non-empty local part is
   * decided by its domain alone: disposable when the domain fails the
   * shape check, otherwise when it is listed.
   */
  lemma DomainDecides(rt: Runtime, values: seq<string>, localPart: string, domain: string)
    requires localPart != [] && '@' !in localPart
    ensures IsDisposable(rt, values, localPart + "@" + domain) ==
      (!IsValidDomain(domain) || DisposableDomains.Contains(rt, values, domain))
  {
    if domain != [] {
      DomainIsSuffixAfterFirstAt(localPart, domain);
    } else {
      var email := localPart + "@" + domain;
      assert email[|localPart|] == '@';
      assert IsFirst(email, '@', |localPart|);
    }
  }

  /** The local part never changes the answer. */
  lemma LocalPartIrrelevant(rt: Runtime, values: seq<string>, local1: string, local2: string, domain: string)
    requires local1 != [] && '@' !in local1
    requires local2 != [] && '@' !in local2
    ensures IsDisposable(rt, values, local1 + "@" + domain) == IsDisposable(rt, values, local2 + "@" + domain)
  {
    DomainDecides(rt, values, local1, domain);
    DomainDecides(rt, values, local2, domain);
  }

  /** Input with no usable `@` (empty, none, first or last) is reported as disposable. */
  lemma MalformedIsDisposable(rt: Runtime, values: seq<string>, email: string)
    requires email == [] || '@' !in email || email[0] == '@' || IndexOf(email, '@') == |email| - 1
    ensures IsDisposable(rt, values, email)
  {
  }

  /**
   * The shape check on the cases that show its last-dot rule, and on the
   * domain "@domain.com" that "user@@domain.com" yields.
   */
  lemma ShapeExamples()
    ensures IsValidDomain(".a.com") && IsValidDomain("@domain.com")
    ensures !IsValidDomain("a.com.") && '.' in "a.com."[1..|"a.com."| - 1]
    ensures !IsValidDomain(".com")
  {
    assert ".a.com"[2] == '.';
    assert "@domain.com"[1..][6] == '.';
    assert "a.com."[1..][0] == '.';
    assert "a.com."[1..5][0] == '.';
  }
}
