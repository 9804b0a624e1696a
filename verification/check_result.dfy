/** DnsblCheckResult: the immutable outcome of one check. A Java `null`
    reference is `None`. The `checker` back-reference is the identity of the
    checker that produced the result; `C` is the type of those identities. */
module CheckResults {
  import opened Wrappers

  datatype CheckResult<C> = CheckResult(
    isListed: bool,
    checkTargetIpAddress: string,
    checkTargetDomainName: string,
    returnIpAddress: Option<string>,
    checker: Option<C>)

  /** The invariant the two factories establish: a return address is present
      exactly when the address is listed, and the producing checker is known. */
  predicate FactoryBuilt<C>(r: CheckResult<C>)
  {
    && (r.returnIpAddress.Some? <==> r.isListed)
    && r.checker.Some?
  }

  /** The public three-argument constructor, which sets only the final fields. */
  function New<C>(isListed: bool, ip: string, domain: string): (r: CheckResult<C>)
    ensures r.isListed == isListed
    ensures r.checkTargetIpAddress == ip && r.checkTargetDomainName == domain
    ensures r.returnIpAddress == None && r.checker == None
  {
    CheckResult(isListed, ip, domain, None, None)
  }

  /** `ok`: the address is not listed. */
  function Ok<C>(ip: string, domain: string, checker: C): (r: CheckResult<C>)
    ensures !r.isListed && r.returnIpAddress == None
    ensures r.checkTargetIpAddress == ip && r.checkTargetDomainName == domain
    ensures r.checker == Some(checker)
    ensures FactoryBuilt(r)
  {
    New(false, ip, domain).(checker := Some(checker))
  }

  /** `ng`: the address is listed, and the query resolved to `returnIp`. */
  function Ng<C>(ip: string, domain: string, returnIp: string, checker: C): (r: CheckResult<C>)
    ensures r.isListed && r.returnIpAddress == Some(returnIp)
    ensures r.checkTargetIpAddress == ip && r.checkTargetDomainName == domain
    ensures r.checker == Some(checker)
    ensures FactoryBuilt(r)
  {
    New(true, ip, domain).(checker := Some(checker), returnIpAddress := Some(returnIp))
  }

  /** Every value satisfying the invariant is the image of exactly one
      factory call, which can be read back from its getters. */
  lemma FactoryBuiltIsFactoryImage<C>(r: CheckResult<C>)
    requires FactoryBuilt(r)
    ensures !r.isListed ==> r == Ok(r.checkTargetIpAddress, r.checkTargetDomainName, r.checker.value)
    ensures r.isListed ==>
      r == Ng(r.checkTargetIpAddress, r.checkTargetDomainName, r.returnIpAddress.value, r.checker.value)
  {
  }

  /** The public constructor escapes the invariant: a result constructed as
      listed has no return address and no checker. */
  lemma ConstructedListedBreaksInvariant<C>(ip: string, domain: string)
    ensures !FactoryBuilt<C>(New(true, ip, domain))
    ensures New<C>(true, ip, domain).isListed && New<C>(true, ip, domain).returnIpAddress == None
  {
  }
}
