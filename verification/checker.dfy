/** DnsblChecker: a composite checker holding an ordered, mutable list of
    member checkers, queried either until the first listed result or all of
    them. ReadonlyDnsblChecker is the same class with `readonly` set at
    construction: its mutators throw instead of changing the list. */
module Chains {
  import opened Wrappers
  import opened CheckResults
  import opened Services

  /** The exceptions the chain throws. */
  datatype Exception =
    | IllegalStateException(message: string)
    | UnsupportedOperationException(message: string)
    | ExceptionInInitializerError(cause: Exception)

  const NoCheckers := "No checkers."

  /** `getClass().getName() + " is readonly."` on the final read-only class. */
  const ReadonlyMessage := "jp.try0.jlib.dnsbl.DnsblChecker$ReadonlyDnsblChecker is readonly."

  /** A checker (IDnsblChecker): a service, a catalog constant, or a
      composite identified by its object, with its members at the time it was
      taken as a member. */
  datatype Checker =
    | Single(service: Service)
    | Entry(entry: Catalog)
    | Composite(chain: object, members: seq<Checker>)

  /** `getName()`: a service reports its name; a catalog constant and a
      composite keep the interface default. */
  function Name(c: Checker): (name: string)
    ensures c.Single? ==> name == c.service.serviceName
    ensures c.Entry? || c.Composite? ==> name == ""
  {
    if c.Single? then c.service.serviceName else ""
  }

  /** `checkIpAddress` of any checker. A composite with no members throws;
      otherwise it answers its first listed member's result. */
  function Check(c: Checker, ip: string, resolve: Resolver): (r: Result<Report, Exception>)
    decreases c
    ensures !c.Composite? ==> r.Success?
    ensures c.Composite? && c.members == [] ==> r == Failure(IllegalStateException(NoCheckers))
    ensures r.Success? ==> FactoryBuilt(r.value)
    ensures c.Composite? && r.Success? && !r.value.isListed ==> r.value == Ok(ip, "", ChainId(c.chain))
  {
    match c
    case Single(s) => Success(CheckIpAddress(s, ip, resolve))
    case Entry(e) => Success(CatalogCheckIpAddress(e, ip, resolve))
    case Composite(self, ms) =>
      if |ms| == 0 then Failure(IllegalStateException(NoCheckers))
      else FirstListed(self, ms, ip, resolve)
  }

  /** The loop of `checkIpAddress`: query the members in order and stop at
      the first listed result; an exception of a member propagates; when no
      member is listed, `ok(ip, "", this)`. */
  function FirstListed(self: object, ms: seq<Checker>, ip: string, resolve: Resolver): (r: Result<Report, Exception>)
    decreases ms
    ensures r.Success? ==> FactoryBuilt(r.value)
    ensures r.Success? && !r.value.isListed ==> r.value == Ok(ip, "", ChainId(self))
  {
    if ms == [] then Success(Ok(ip, "", ChainId(self)))
    else
      match Check(ms[0], ip, resolve)
      case Failure(e) => Failure(e)
      case Success(r) => if r.isListed then Success(r) else FirstListed(self, ms[1..], ip, resolve)
  }

  /** The loop of `checkAll`: every member's result, in member order. */
  function CheckEach(ms: seq<Checker>, ip: string, resolve: Resolver): (r: Result<seq<Report>, Exception>)
    ensures r.Success? <==> forall i :: 0 <= i < |ms| ==> Check(ms[i], ip, resolve).Success?
    ensures r.Success? ==> |r.value| == |ms|
    ensures r.Success? ==> forall i :: 0 <= i < |ms| ==> r.value[i] == Check(ms[i], ip, resolve).value
  {
    if ms == [] then Success([])
    else
      match Check(ms[0], ip, resolve)
      case Failure(e) => Failure(e)
      case Success(r) =>
        match CheckEach(ms[1..], ip, resolve)
        case Failure(e) => Failure(e)
        case Success(rs) => Success([r] + rs)
  }

  /** `checkAll` of a composite with members `ms`. */
  function CheckAllOf(ms: seq<Checker>, ip: string, resolve: Resolver): (r: Result<seq<Report>, Exception>)
    ensures ms == [] ==> r == Failure(IllegalStateException(NoCheckers))
    ensures ms != [] ==> (r.Success? <==> forall i :: 0 <= i < |ms| ==> Check(ms[i], ip, resolve).Success?)
    ensures r.Success? ==> |r.value| == |ms|
    ensures r.Success? ==> forall i :: 0 <= i < |ms| ==> r.value[i] == Check(ms[i], ip, resolve).value
  {
    if ms == [] then Failure(IllegalStateException(NoCheckers)) else CheckEach(ms, ip, resolve)
  }

  /** `test(t)`: whether the check says listed. */
  function Test(c: Checker, ip: string, resolve: Resolver): (r: Result<bool, Exception>)
    ensures r.Failure? <==> Check(c, ip, resolve).Failure?
    ensures r.Success? ==> (r.value <==> Check(c, ip, resolve).value.isListed)
  {
    match Check(c, ip, resolve)
    case Failure(e) => Failure(e)
    case Success(res) => Success(res.isListed)
  }

  /** Index of the first member whose check throws or is listed (|ms| when
      there is none): where the short-circuit loop stops. */
  function FirstHit(ms: seq<Checker>, ip: string, resolve: Resolver): (k: nat)
    ensures k <= |ms|
    ensures forall j :: 0 <= j < k ==> Check(ms[j], ip, resolve).Success? && !Check(ms[j], ip, resolve).value.isListed
    ensures k < |ms| ==> Check(ms[k], ip, resolve).Failure? || Check(ms[k], ip, resolve).value.isListed
  {
    if ms == [] then 0
    else if Check(ms[0], ip, resolve).Failure? || Check(ms[0], ip, resolve).value.isListed then 0
    else 1 + FirstHit(ms[1..], ip, resolve)
  }

  // ----- Properties of the two query modes -----

  /** First-listed-wins: the answer is the result of the first member that is
      listed (or throws); every earlier member answered not listed, and the
      members after it play no part. When no member is listed the answer is
      `ok(ip, "", this)`. */
  lemma {:induction false} FirstListedIsFirstHit(self: object, ms: seq<Checker>, ip: string, resolve: Resolver)
    ensures var k := FirstHit(ms, ip, resolve);
            FirstListed(self, ms, ip, resolve)
            == if k < |ms| then Check(ms[k], ip, resolve) else Success(Ok(ip, "", ChainId(self)))
  {
    if ms != [] {
      FirstListedIsFirstHit(self, ms[1..], ip, resolve);
    }
  }

  /** Only the members up to the first hit matter: appending members after a
      listed member changes nothing. */
  lemma ShortCircuit(self: object, ms: seq<Checker>, rest: seq<Checker>, ip: string, resolve: Resolver)
    requires FirstHit(ms, ip, resolve) < |ms|
    ensures FirstListed(self, ms + rest, ip, resolve) == FirstListed(self, ms, ip, resolve)
  {
    var k := FirstHit(ms, ip, resolve);
    var all := ms + rest;
    assert forall j :: 0 <= j <= k ==> all[j] == ms[j];
    FirstHitUnique(all, k, ip, resolve);
    FirstListedIsFirstHit(self, ms, ip, resolve);
    FirstListedIsFirstHit(self, all, ip, resolve);
  }

  /** The contract of FirstHit determines it. */
  lemma FirstHitUnique(ms: seq<Checker>, k: nat, ip: string, resolve: Resolver)
    requires k < |ms|
    requires forall j :: 0 <= j < k ==> Check(ms[j], ip, resolve).Success? && !Check(ms[j], ip, resolve).value.isListed
    requires Check(ms[k], ip, resolve).Failure? || Check(ms[k], ip, resolve).value.isListed
    ensures FirstHit(ms, ip, resolve) == k
  {
  }

  /** A chain answers listed exactly when some member does; then it answers
      that first listed member's own result, which is the matching element
      of `checkAll`. */
  lemma AnyAgreesWithAll(self: object, ms: seq<Checker>, ip: string, resolve: Resolver)
    requires CheckAllOf(ms, ip, resolve).Success?
    ensures var rs := CheckAllOf(ms, ip, resolve).value;
            var any := Check(Composite(self, ms), ip, resolve);
            && any.Success?
            && (any.value.isListed <==> exists i :: 0 <= i < |rs| && rs[i].isListed)
            && (any.value.isListed ==> any.value == rs[FirstHit(ms, ip, resolve)])
            && (!any.value.isListed ==> any.value == Ok(ip, "", ChainId(self)))
  {
    FirstListedIsFirstHit(self, ms, ip, resolve);
  }

  /** An empty composite throws in both modes before anything is queried. */
  lemma EmptyChainThrows(self: object, ip: string, resolve: Resolver)
    ensures Check(Composite(self, []), ip, resolve) == Failure(IllegalStateException(NoCheckers))
    ensures CheckAllOf([], ip, resolve) == Failure(IllegalStateException(NoCheckers))
  {
  }

  /** `checkAll` stops with the exception of the first member that throws. */
  lemma {:induction false} CheckEachStopsAtFailure(ms: seq<Checker>, k: nat, ip: string, resolve: Resolver)
    requires k < |ms|
    requires forall j :: 0 <= j < k ==> Check(ms[j], ip, resolve).Success?
    requires Check(ms[k], ip, resolve).Failure?
    ensures CheckEach(ms, ip, resolve) == Failure(Check(ms[k], ip, resolve).error)
  {
    if k > 0 {
      CheckEachStopsAtFailure(ms[1..], k - 1, ip, resolve);
    }
  }

  /** Members [A, B, C] with A not listed and B listed: first-listed-wins
      answers B's result after querying A and B only, while `checkAll`
      answers all three results in order. */
  lemma ThreeMembers(self: object, a: Checker, b: Checker, c: Checker, ip: string, resolve: Resolver)
    requires Check(a, ip, resolve).Success? && !Check(a, ip, resolve).value.isListed
    requires Check(b, ip, resolve).Success? && Check(b, ip, resolve).value.isListed
    ensures Check(Composite(self, [a, b, c]), ip, resolve) == Check(b, ip, resolve)
    ensures FirstHit([a, b, c], ip, resolve) == 1
    ensures Check(c, ip, resolve).Success? ==>
      CheckAllOf([a, b, c], ip, resolve)
      == Success([Check(a, ip, resolve).value, Check(b, ip, resolve).value, Check(c, ip, resolve).value])
  {
    var ms := [a, b, c];
    FirstHitUnique(ms, 1, ip, resolve);
    FirstListedIsFirstHit(self, ms, ip, resolve);
    if Check(c, ip, resolve).Success? {
      var all := CheckEach(ms, ip, resolve);
      assert all.Success? && |all.value| == 3;
      assert all.value[0] == Check(ms[0], ip, resolve).value;
      assert all.value[1] == Check(ms[1], ip, resolve).value;
      assert all.value[2] == Check(ms[2], ip, resolve).value;
      assert all.value == [Check(a, ip, resolve).value, Check(b, ip, resolve).value, Check(c, ip, resolve).value];
      assert CheckAllOf(ms, ip, resolve) == all;
    }
  }

  /** The catalog's constants as members, in `Catalog.values()` order. */
  function CatalogMembers(): (ms: seq<Checker>)
    ensures |ms| == |CatalogValues|
    ensures forall i :: 0 <= i < |ms| ==> ms[i] == Entry(CatalogValues[i])
  {
    [Entry(SPAMHAUS), Entry(BARRACUDA)]
  }

  /** A chain of the catalog never throws: it answers SPAMHAUS's result when
      SPAMHAUS lists the address, else BARRACUDA's when it does, else `ok`. */
  lemma CatalogChainCheck(self: object, ip: string, resolve: Resolver)
    ensures var spamhaus := CatalogCheckIpAddress(SPAMHAUS, ip, resolve);
            var barracuda := CatalogCheckIpAddress(BARRACUDA, ip, resolve);
            Check(Composite(self, CatalogMembers()), ip, resolve)
            == Success(if spamhaus.isListed then spamhaus
                       else if barracuda.isListed then barracuda
                       else Ok(ip, "", ChainId(self)))
  {
    var ms := CatalogMembers();
    assert ms[1..] == [Entry(BARRACUDA)];
  }

  class DnsblChecker {
    var checkers: seq<Checker>
    const readonly: bool

    /** This chain as a member of another chain. */
    function AsMember(): Checker
      reads this
    {
      Composite(this, checkers)
    }

    /** `DnsblChecker()`. */
    constructor ()
      ensures checkers == [] && !readonly
    {
      readonly := false;
      checkers := [];
    }

    /** `DnsblChecker(IDnsblChecker...)`: adds through `addCheckers`. */
    constructor FromArray(cs: seq<Checker>)
      ensures checkers == cs && !readonly
    {
      readonly := false;
      checkers := [];
      new;
      var _ := AddCheckers(cs);
      assert [] + cs == cs;
    }

    /** `DnsblChecker(List)`: adds through `addCheckers(List)`. */
    constructor FromList(cs: seq<Checker>)
      ensures checkers == cs && !readonly
    {
      readonly := false;
      checkers := [];
      new;
      var _ := AddCheckerList(cs);
      assert [] + cs == cs;
    }

    /** `ReadonlyDnsblChecker()`: read-only and empty. */
    constructor Readonly()
      ensures checkers == [] && readonly
    {
      readonly := true;
      checkers := [];
    }

    /** `ReadonlyDnsblChecker(IDnsblChecker...)` as written: the base
        constructor calls `addCheckers`, which dispatches to the read-only
        override and throws, whatever the arguments (even none). */
    static method ReadonlyFromArray(cs: seq<Checker>) returns (r: Result<DnsblChecker, Exception>)
      ensures r == Failure(UnsupportedOperationException(ReadonlyMessage))
    {
      var c := new DnsblChecker.Readonly();
      var added := c.AddCheckers(cs);
      r := if added.Failure? then Failure(added.error) else Success(c);
    }

    /** `ReadonlyDnsblChecker(List)` as written: throws like the array form. */
    static method ReadonlyFromList(cs: seq<Checker>) returns (r: Result<DnsblChecker, Exception>)
      ensures r == Failure(UnsupportedOperationException(ReadonlyMessage))
    {
      var c := new DnsblChecker.Readonly();
      var added := c.AddCheckerList(cs);
      r := if added.Failure? then Failure(added.error) else Success(c);
    }

    /** The read-only chain the array and list constructors evidently
        intend: the given members, then sealed. */
    constructor Sealed(cs: seq<Checker>)
      ensures checkers == cs && readonly
    {
      readonly := true;
      checkers := cs;
    }

    /** `Holder.DEFAULT_INSTANCE` as written: its initialiser runs the
        throwing read-only constructor, so the class initialisation fails. */
    static method DefaultInstance() returns (r: Result<DnsblChecker, Exception>)
      ensures r == Failure(ExceptionInInitializerError(UnsupportedOperationException(ReadonlyMessage)))
    {
      var made := ReadonlyFromArray(CatalogMembers());
      r := if made.Failure? then Failure(ExceptionInInitializerError(made.error)) else made;
    }

    /** The default instance as intended: a read-only chain of the catalog. */
    static method CorrectedDefaultInstance() returns (c: DnsblChecker)
      ensures fresh(c) && c.readonly && c.checkers == CatalogMembers()
    {
      c := new DnsblChecker.Sealed(CatalogMembers());
    }

    /** `addCheckers(IDnsblChecker...)`: appends one by one and returns this
        chain; on a read-only chain it throws and changes nothing. */
    method AddCheckers(cs: seq<Checker>) returns (r: Result<DnsblChecker, Exception>)
      modifies this
      ensures readonly ==> r == Failure(UnsupportedOperationException(ReadonlyMessage))
      ensures readonly ==> checkers == old(checkers)
      ensures !readonly ==> r == Success(this) && checkers == old(checkers) + cs
    {
      if readonly {
        return Failure(UnsupportedOperationException(ReadonlyMessage));
      }
      var i := 0;
      while i < |cs|
        invariant 0 <= i <= |cs|
        invariant checkers == old(checkers) + cs[..i]
      {
        checkers := checkers + [cs[i]];
        i := i + 1;
      }
      assert cs[..i] == cs;
      return Success(this);
    }

    /** `addCheckers(List)`: `addAll`, with the same read-only behaviour. */
    method AddCheckerList(cs: seq<Checker>) returns (r: Result<DnsblChecker, Exception>)
      modifies this
      ensures readonly ==> r == Failure(UnsupportedOperationException(ReadonlyMessage))
      ensures readonly ==> checkers == old(checkers)
      ensures !readonly ==> r == Success(this) && checkers == old(checkers) + cs
    {
      if readonly {
        return Failure(UnsupportedOperationException(ReadonlyMessage));
      }
      checkers := checkers + cs;
      return Success(this);
    }

    /** `clearCheckers()`. */
    method ClearCheckers() returns (r: Result<(), Exception>)
      modifies this
      ensures readonly ==> r == Failure(UnsupportedOperationException(ReadonlyMessage))
      ensures readonly ==> checkers == old(checkers)
      ensures !readonly ==> r == Success(()) && checkers == []
    {
      if readonly {
        return Failure(UnsupportedOperationException(ReadonlyMessage));
      }
      checkers := [];
      return Success(());
    }

    /** `requireCheckers()`: throws exactly when there are no members. */
    method RequireCheckers() returns (r: Result<(), Exception>)
      ensures r.Failure? <==> checkers == []
      ensures r.Failure? ==> r.error == IllegalStateException(NoCheckers)
    {
      if |checkers| == 0 {
        return Failure(IllegalStateException(NoCheckers));
      }
      return Success(());
    }

    /** `checkIpAddress(ip)`: first-listed-wins. `invoked` counts the members
        queried: none for an empty chain, and otherwise every member up to and
        including the first that is listed or throws, and none after it. */
    method CheckIpAddress(ip: string, resolve: Resolver) returns (r: Result<Report, Exception>, ghost invoked: nat)
      ensures r == Check(AsMember(), ip, resolve)
      ensures checkers == [] ==> r == Failure(IllegalStateException(NoCheckers)) && invoked == 0
      ensures checkers != [] ==>
        invoked == if FirstHit(checkers, ip, resolve) < |checkers|
                   then FirstHit(checkers, ip, resolve) + 1 else |checkers|
    {
      var required := RequireCheckers();
      if required.Failure? {
        return Failure(required.error), 0;
      }
      FirstListedIsFirstHit(this, checkers, ip, resolve);
      invoked := 0;
      var i := 0;
      while i < |checkers|
        invariant 0 <= i <= |checkers|
        invariant invoked == i
        invariant forall j :: 0 <= j < i ==> Check(checkers[j], ip, resolve).Success? && !Check(checkers[j], ip, resolve).value.isListed
      {
        var result := Check(checkers[i], ip, resolve);
        invoked := invoked + 1;
        if result.Failure? || result.value.isListed {
          FirstHitUnique(checkers, i, ip, resolve);
          return result, invoked;
        }
        i := i + 1;
      }
      return Success(Ok(ip, "", ChainId(this))), invoked;
    }

    /** `checkAny(ip)`: the same as `checkIpAddress`. */
    method CheckAny(ip: string, resolve: Resolver) returns (r: Result<Report, Exception>)
      ensures r == Check(AsMember(), ip, resolve)
    {
      ghost var invoked;
      r, invoked := CheckIpAddress(ip, resolve);
    }

    /** `checkAll(ip)`: every member's result, in order, without
        short-circuit. `invoked` counts the members queried: none for an
        empty chain, every member when no member throws, and otherwise the
        members up to and including the first that throws. */
    method CheckAll(ip: string, resolve: Resolver) returns (r: Result<seq<Report>, Exception>, ghost invoked: nat)
      ensures r == CheckAllOf(checkers, ip, resolve)
      ensures checkers == [] ==> invoked == 0
      ensures r.Success? ==> invoked == |checkers|
      ensures checkers != [] && r.Failure? ==>
        0 < invoked <= |checkers| && Check(checkers[invoked - 1], ip, resolve).Failure? &&
        forall j :: 0 <= j < invoked - 1 ==> Check(checkers[j], ip, resolve).Success?
      ensures r.Success? ==> |r.value| == |checkers|
      ensures r.Success? ==> forall i :: 0 <= i < |checkers| ==> r.value[i] == Check(checkers[i], ip, resolve).value
    {
      var required := RequireCheckers();
      if required.Failure? {
        return Failure(required.error), 0;
      }
      var results: seq<Report> := [];
      invoked := 0;
      var i := 0;
      while i < |checkers|
        invariant 0 <= i <= |checkers|
        invariant invoked == i
        invariant |results| == i
        invariant forall j :: 0 <= j < i ==> Check(checkers[j], ip, resolve).Success?
        invariant forall j :: 0 <= j < i ==> results[j] == Check(checkers[j], ip, resolve).value
      {
        var result := Check(checkers[i], ip, resolve);
        invoked := invoked + 1;
        if result.Failure? {
          CheckEachStopsAtFailure(checkers, i, ip, resolve);
          return Failure(result.error), invoked;
        }
        results := results + [result.value];
        i := i + 1;
      }
      var each := CheckEach(checkers, ip, resolve);
      assert each.Success? && each.value == results;
      return Success(results), invoked;
    }
  }

  /** Checks change no state: on the same chain, with the same resolver,
      repeated checks give equal answers. */
  method RepeatedChecksAgree(chain: DnsblChecker, ip: string, resolve: Resolver)
    returns (first: Result<Report, Exception>, second: Result<Report, Exception>,
             all1: Result<seq<Report>, Exception>, all2: Result<seq<Report>, Exception>)
    ensures first == second && all1 == all2
  {
    ghost var invoked1, invoked2;
    first := chain.CheckAny(ip, resolve);
    all1, invoked1 := chain.CheckAll(ip, resolve);
    second := chain.CheckAny(ip, resolve);
    all2, invoked2 := chain.CheckAll(ip, resolve);
  }
}
