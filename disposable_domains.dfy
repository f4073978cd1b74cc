/**
 * The denylist: the generated domain values, loaded once into a set that
 * compares with StringComparer.OrdinalIgnoreCase, and the membership test
 * the validators share.
 *
 * The generated list (GeneratedDomains.Values, produced at build time) is a
 * parameter `values` of every member; the runtime's case mapping is the
 * `foldChar` of a Text.Runtime.
 */
module DisposableDomains {
  import opened Text

  /**
   * GetDomains: the frozen set built from the generated values. A set with
   * the OrdinalIgnoreCase comparer holds one key per case-folded value, so
   * it is represented here by the folded values; duplicates up to case
   * collapse into one key.
   */
  function GetDomains(rt: Runtime, values: seq<string>): (keys: set<string>)
    ensures forall i :: 0 <= i < |values| ==> FoldCase(rt, values[i]) in keys
    ensures forall key :: key in keys ==> exists i :: 0 <= i < |values| && FoldCase(rt, values[i]) == key
  {
    set i | 0 <= i < |values| :: FoldCase(rt, values[i])
  }

  /** Contains: the empty domain is never a member; any other is looked up in the set. */
  function Contains(rt: Runtime, values: seq<string>, domain: string): (r: bool)
    ensures domain == [] ==> !r
  {
    domain != [] && FoldCase(rt, domain) in GetDomains(rt, values)
  }

  /** Domains: the generated values themselves, in their order, duplicates and case as generated. */
  function Domains(values: seq<string>): (r: seq<string>)
    ensures |r| == |values| && forall i :: 0 <= i < |values| ==> r[i] == values[i]
  {
    values
  }

  /**
   * A non-empty domain is contained exactly when some generated value equals
   * it under the case-insensitive comparison.
   */
  lemma ContainsIffListed(rt: Runtime, values: seq<string>, domain: string)
    ensures Contains(rt, values, domain) <==>
      domain != [] && exists i :: 0 <= i < |values| && EqualsIgnoreCase(rt, values[i], domain)
  {
    if Contains(rt, values, domain) {
      var i :| 0 <= i < |values| && FoldCase(rt, values[i]) == FoldCase(rt, domain);
      EqualsIgnoreCaseIffFoldCase(rt, values[i], domain);
    }
    if domain != [] && exists i :: 0 <= i < |values| && EqualsIgnoreCase(rt, values[i], domain) {
      var i :| 0 <= i < |values| && EqualsIgnoreCase(rt, values[i], domain);
      EqualsIgnoreCaseIffFoldCase(rt, values[i], domain);
    }
  }

  /** Every non-empty entry that Domains lists is contained. */
  lemma ListedDomainsAreContained(rt: Runtime, values: seq<string>, i: int)
    requires 0 <= i < |values| && values[i] != []
    ensures Contains(rt, values, Domains(values)[i])
  {
    assert FoldCase(rt, values[i]) in GetDomains(rt, values);
  }

  /** Values that differ only in case give one key: the set holds no case duplicates. */
  lemma CaseDuplicatesCollapse(rt: Runtime, a: string, b: string)
    requires EqualsIgnoreCase(rt, a, b)
    ensures GetDomains(rt, [a, b]) == GetDomains(rt, [a])
  {
    EqualsIgnoreCaseIffFoldCase(rt, a, b);
    var key := FoldCase(rt, a);
    forall k | k in GetDomains(rt, [a, b]) ensures k == key {
      var i :| 0 <= i < 2 && FoldCase(rt, [a, b][i]) == k;
    }
    forall k | k in GetDomains(rt, [a]) ensures k == key {
      var i :| 0 <= i < 1 && FoldCase(rt, [a][i]) == k;
    }
    assert [a][0] == a && [a, b][0] == a;
    assert FoldCase(rt, [a][0]) in GetDomains(rt, [a]);
    assert FoldCase(rt, [a, b][0]) in GetDomains(rt, [a, b]);
  }

  /** Two domains equal up to case get the same answer. */
  lemma ContainsIgnoresCase(rt: Runtime, values: seq<string>, d1: string, d2: string)
    requires EqualsIgnoreCase(rt, d1, d2)
    ensures Contains(rt, values, d1) == Contains(rt, values, d2)
  {
    EqualsIgnoreCaseIffFoldCase(rt, d1, d2);
  }

  /** Under the runtime's ASCII facts, two ASCII strings that agree up to ASCII case compare equal. */
  lemma AsciiCaseInsensitive(rt: Runtime, d1: string, d2: string)
    requires rt.Valid()
    requires |d1| == |d2|
    requires forall i :: 0 <= i < |d1| ==> IsAscii(d1[i]) && IsAscii(d2[i]) && AsciiUpper(d1[i]) == AsciiUpper(d2[i])
    ensures EqualsIgnoreCase(rt, d1, d2)
  {
  }

  /**
   * Membership is of the exact string: a listed domain does not make its
   * subdomains (or any longer name ending in it) members.
   */
  lemma SubdomainNotImplied(rt: Runtime, listed: string, prefix: string)
    requires listed != [] && prefix != []
    ensures Contains(rt, [listed], listed)
    ensures !Contains(rt, [listed], prefix + listed)
  {
    ContainsIffListed(rt, [listed], listed);
    ContainsIffListed(rt, [listed], prefix + listed);
    assert EqualsIgnoreCase(rt, [listed][0], listed);
  }
}
