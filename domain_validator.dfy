/**
 * The domain entry point: both overloads (a character span and a string
 * with the same content) hand the domain straight to the denylist. No shape
 * check is made, so a malformed domain that is not listed is reported as
 * not disposable (the check fails open).
 */
module DomainValidator {
  import opened Text
  import DisposableDomains
  import EmailValidator

  /** IsDisposable (both overloads): listed up to case, and never for the empty domain. */
  function IsDisposable(rt: Runtime, values: seq<string>, domain: string): (r: bool)
    ensures r <==> domain != [] && exists i :: 0 <= i < |values| && EqualsIgnoreCase(rt, values[i], domain)
  {
    DisposableDomains.ContainsIffListed(rt, values, domain);
    DisposableDomains.Contains(rt, values, domain)
  }

  /**
   * No shape is required: every non-empty string, however malformed (".",
   * "domain", ".com", "domain."), is reported once it is listed, and the
   * empty string never is.
   */
  lemma NoShapeCheck(rt: Runtime, domain: string)
    ensures IsDisposable(rt, [domain], domain) <==> domain != []
  {
    assert EqualsIgnoreCase(rt, [domain][0], domain);
  }

  /** Under the runtime's ASCII facts "GMAIL.COM" gets the answer "gmail.com" gets. */
  lemma UpperCaseSameAnswer(rt: Runtime, values: seq<string>)
    requires rt.Valid()
    ensures IsDisposable(rt, values, "GMAIL.COM") == IsDisposable(rt, values, "gmail.com")
  {
    DisposableDomains.AsciiCaseInsensitive(rt, "GMAIL.COM", "gmail.com");
    DisposableDomains.ContainsIgnoresCase(rt, values, "GMAIL.COM", "gmail.com");
  }

  /**
   * The two entry points agree on a domain that passes the email shape
   * check, and part ways on one that fails it and is not listed: the email
   * check reports it (fails closed), the domain check does not (fails open).
   */
  lemma EntryPointsCompared(rt: Runtime, values: seq<string>, localPart: string, domain: string)
    requires localPart != [] && '@' !in localPart
    ensures EmailValidator.IsValidDomain(domain) ==>
      EmailValidator.IsDisposable(rt, values, localPart + "@" + domain) == IsDisposable(rt, values, domain)
    ensures !EmailValidator.IsValidDomain(domain) && !DisposableDomains.Contains(rt, values, domain) ==>
      EmailValidator.IsDisposable(rt, values, localPart + "@" + domain) && !IsDisposable(rt, values, domain)
  {
    EmailValidator.DomainDecides(rt, values, localPart, domain);
  }
}
