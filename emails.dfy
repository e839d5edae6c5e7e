/** The email handling both OTP and registration controllers share: normalisation
    (`email.trim().toLowerCase()`) and the domain check
    (`!domain || domain !== ALLOWED_DOMAIN` with `domain = email.split('@')[1]`). */
module Emails {
  import opened Wrappers
  import opened JsText

  /** A normalised address: no surrounding spaces and no upper-case letter. */
  predicate IsNormalized(e: string) {
    IsTrimmed(e) && forall k :: 0 <= k < |e| ==> !IsAsciiUpper(e[k])
  }

  /** `email.trim().toLowerCase()`: a normalised address no longer than the input. */
  function Normalize(raw: string): (e: string)
    ensures IsNormalized(e)
    ensures |e| <= |raw|
  {
    var t := Trim(raw);
    LowerKeepsTrimmed(t);
    Lower(t)
  }

  /** Normalising is idempotent: a normalised address is its own normal form. */
  lemma NormalizeIdempotent(e: string)
    requires IsNormalized(e)
    ensures Normalize(e) == e
  {
    TrimOfTrimmed(e);
  }

  /** Letter case does not matter: an address and its lower-cased form normalise to
      the same address, so "X@CU.EDU.IN" and "x@cu.edu.in" are one student. */
  lemma NormalizeIgnoresCase(raw: string)
    ensures Normalize(Lower(raw)) == Normalize(raw)
  {
    TrimLower(raw);
    LowerIdempotent(Trim(raw));
  }

  /** Surrounding spaces do not matter either: a space before or after an address
      does not change its normal form. */
  lemma NormalizeIgnoresSpaces(raw: string, c: char)
    requires IsJsSpace(c)
    ensures Normalize([c] + raw) == Normalize(raw)
    ensures Normalize(raw + [c]) == Normalize(raw)
  {
    TrimLeadingSpace(c, raw);
    TrimTrailingSpace(raw, c);
  }

  /** Two addresses that the handlers see as one pass or fail the domain check
      together. */
  lemma DomainIgnoresCase(raw: string, allowed: string)
    ensures DomainAccepted(Normalize(Lower(raw)), allowed) == DomainAccepted(Normalize(raw), allowed)
  {
    NormalizeIgnoresCase(raw);
  }

  /** `email.split('@')[1]`. */
  function Domain(e: string): (r: Option<string>)
    ensures r.None? <==> '@' !in e
    ensures r.Some? ==> exists i :: SplitsAt(e, '@', i, r.value)
  {
    var r := SecondPiece(e, '@');
    if r.Some? then SecondPieceIff(e, '@', r.value); r else r
  }

  /** The check both controllers make: the domain piece exists, is non-empty, and is
      exactly the allowed domain. */
  predicate DomainAccepted(e: string, allowed: string): (r: bool)
    ensures r ==> '@' in e && allowed != "" && '@' !in allowed
  {
    match Domain(e)
    case Some(d) => d != "" && d == allowed
    case None => false
  }

  /** An address passes exactly when the text between its first `@` and the next `@`
      (or the end) is the allowed domain, which is non-empty and has no `@`. */
  lemma DomainAcceptedIff(e: string, allowed: string)
    ensures DomainAccepted(e, allowed) <==> allowed != "" && exists i :: SplitsAt(e, '@', i, allowed)
  {
    SecondPieceIff(e, '@', allowed);
  }

  /** The domain piece of `local@domain` followed by `rest`, which is empty or starts
      with another `@`. */
  lemma DomainOf(local: string, domain: string, rest: string)
    requires '@' !in local && '@' !in domain && (rest == [] || rest[0] == '@')
    ensures Domain(local + "@" + domain + rest) == Some(domain)
  {
    var e := local + "@" + domain + rest;
    assert e == local + ("@" + domain + rest);
    UpToStops(local, '@', "@" + domain + rest);
    assert e[|local| + 1..] == domain + rest;
    UpToStops(domain, '@', rest);
  }

  /** Text after a second `@` is never looked at: "x@cu.edu.in@elsewhere.org" passes the
      check for "cu.edu.in", whatever follows the second `@`. */
  lemma SecondAtIgnored(local: string, allowed: string, other: string)
    requires '@' !in local && '@' !in allowed && allowed != ""
    ensures DomainAccepted(local + "@" + allowed + "@" + other, allowed)
  {
    DomainOf(local, allowed, "@" + other);
    assert local + "@" + allowed + ("@" + other) == local + "@" + allowed + "@" + other;
  }

  /** The match is exact, not a suffix match: an address of a subdomain of the allowed
      domain ("x@sub.cu.edu.in" for "cu.edu.in") fails the check. */
  lemma SubdomainRejected(local: string, sub: string, allowed: string)
    requires '@' !in local && '@' !in sub && '@' !in allowed
    ensures !DomainAccepted(local + "@" + sub + "." + allowed, allowed)
  {
    var domain := sub + "." + allowed;
    assert '@' !in domain by {
      assert forall k :: 0 <= k < |domain| ==> domain[k] == (if k < |sub| then sub[k] else if k == |sub| then '.' else allowed[k - |sub| - 1]);
    }
    DomainOf(local, domain, "");
    assert local + "@" + domain + "" == local + "@" + sub + "." + allowed;
    assert |domain| > |allowed|;
  }

  /** No address passes for two different domains. */
  lemma DomainsExclusive(e: string, a: string, b: string)
    requires DomainAccepted(e, a) && DomainAccepted(e, b)
    ensures a == b
  {
  }
}
