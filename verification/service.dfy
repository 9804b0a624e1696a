/** DnsblService: one DNSBL service (a query-domain suffix and a detector
    over the resolved address) and the built-in catalog of services.

    The DNS lookup is a parameter: a resolver maps a query name to the
    textual host address it resolves to, or to `None` when the lookup
    raises `UnknownHostException`. */
module Services {
  import opened Wrappers
  import opened JavaStrings
  import opened CheckResults

  type Resolver = string -> Option<string>

  /** The detector of a service. The only detectors the source builds are a
      `startsWith` test and an `equals` test on the resolved address. */
  datatype Detector = StartsWith(prefix: string) | EqualsTo(expected: string)

  /** The detector's test: `startsWith` (Dafny's prefix order `<=` on
      sequences) or `equals`. */
  function Accepts(d: Detector, address: string): (accepted: bool)
    ensures d.StartsWith? ==>
      (accepted <==> |d.prefix| <= |address| && address[..|d.prefix|] == d.prefix)
    ensures d.EqualsTo? ==> (accepted <==> address == d.expected)
  {
    match d
    case StartsWith(p) => p <= address
    case EqualsTo(e) => address == e
  }

  datatype Service = Service(serviceName: string, serviceDomainSuffix: string, detector: Detector)

  /** Identity of a checker, the back-reference a result carries: a service
      descriptor, or a composite checker by object identity. */
  datatype CheckerId = ServiceId(service: Service) | ChainId(chain: object)

  type Report = CheckResult<CheckerId>

  /** `reverseIpAddress`: split on '.', reverse, rejoin with '.'. Nothing is
      validated: any string is accepted. */
  function ReverseIpAddress(ip: string): (r: string)
    ensures Split(ip, '.') == [] ==> r == ""
    ensures |Split(ip, '.')| == 1 ==> r == Split(ip, '.')[0]
    ensures |Split(ip, '.')| > 1 ==> Split(ip, '.')[|Split(ip, '.')| - 1] <= r
  {
    Join(Reversed(Split(ip, '.')), '.')
  }

  /** `createCheckTargetDomainName`: the reversed address, a dot, the suffix. */
  function CreateCheckTargetDomainName(s: Service, ip: string): (name: string)
    ensures ReverseIpAddress(ip) <= name
    ensures |name| == |ReverseIpAddress(ip)| + 1 + |s.serviceDomainSuffix|
    ensures name[|ReverseIpAddress(ip)|] == '.'
    ensures name[|ReverseIpAddress(ip)| + 1..] == s.serviceDomainSuffix
  {
    ReverseIpAddress(ip) + "." + s.serviceDomainSuffix
  }

  /** `checkIpAddress` of one service. */
  function CheckIpAddress(s: Service, ip: string, resolve: Resolver): (r: Report)
    ensures r.checkTargetIpAddress == ip
    ensures r.checkTargetDomainName == CreateCheckTargetDomainName(s, ip)
    ensures r.checker == Some(ServiceId(s))
    ensures FactoryBuilt(r)
    ensures resolve(CreateCheckTargetDomainName(s, ip)).None? ==> !r.isListed
    ensures r.isListed <==>
      (resolve(CreateCheckTargetDomainName(s, ip)).Some? &&
       Accepts(s.detector, resolve(CreateCheckTargetDomainName(s, ip)).value))
    ensures r.isListed ==> r.returnIpAddress == resolve(CreateCheckTargetDomainName(s, ip))
  {
    var name := CreateCheckTargetDomainName(s, ip);
    match resolve(name)
    case None => Ok(ip, name, ServiceId(s))
    case Some(hostAddress) =>
      if Accepts(s.detector, hostAddress) then Ng(ip, name, hostAddress, ServiceId(s))
      else Ok(ip, name, ServiceId(s))
  }

  /** The catalog: each constant wraps one service descriptor. */
  datatype Catalog = SPAMHAUS | BARRACUDA
  {
    function service(): Service
    {
      match this
      case SPAMHAUS => Service("SPAMHAUS ZEN", "zen.spamhaus.org", StartsWith("127.0.0"))
      case BARRACUDA => Service("Barracuda Reputation Block List", "b.barracudacentral.org", EqualsTo("127.0.0.2"))
    }
  }

  /** `Catalog.values()`, in declaration order. */
  const CatalogValues: seq<Catalog> := [SPAMHAUS, BARRACUDA]

  /** `checkIpAddress` of a catalog constant delegates to its service. */
  function CatalogCheckIpAddress(e: Catalog, ip: string, resolve: Resolver): (r: Report)
    ensures r.checkTargetIpAddress == ip
    ensures r.checker == Some(ServiceId(e.service()))
    ensures FactoryBuilt(r)
    ensures r.isListed ==> Accepts(e.service().detector, r.returnIpAddress.value)
    ensures e == BARRACUDA && r.isListed ==> r.returnIpAddress == Some("127.0.0.2")
    ensures e == SPAMHAUS && r.isListed ==> "127.0.0" <= r.returnIpAddress.value
  {
    CheckIpAddress(e.service(), ip, resolve)
  }

  // ----- Reversal -----

  /** The dot-separated parts of the reversed address are the parts that
      `split` produced, in reverse order. */
  lemma ReverseIpAddressParts(ip: string)
    requires Split(ip, '.') != []
    ensures Pieces(ReverseIpAddress(ip), '.') == Reversed(Split(ip, '.'))
  {
    PiecesOfJoin(Reversed(Split(ip, '.')), '.');
  }

  /** Reversing a join of dot-free parts joins the parts in reverse order,
      provided `split` keeps them all (the last part is non-empty, or there
      is only one part). */
  lemma ReverseJoined(parts: seq<string>)
    requires |parts| >= 1
    requires forall i :: 0 <= i < |parts| ==> '.' !in parts[i]
    requires |parts| > 1 ==> parts[|parts| - 1] != ""
    ensures ReverseIpAddress(Join(parts, '.')) == Join(Reversed(parts), '.')
  {
    PiecesOfJoin(parts, '.');
    if |parts| > 1 {
      SplitKeepsAllPieces(Join(parts, '.'), '.');
    }
  }

  lemma ReverseDottedQuad()
    ensures ReverseIpAddress("1.2.3.4") == "4.3.2.1"
  {
    var parts := ["1", "2", "3", "4"];
    assert Join(parts, '.') == "1.2.3.4" by {
      assert Join(parts[2..], '.') == "3.4";
      assert Join(parts[1..], '.') == "2.3.4";
    }
    ReverseJoined(parts);
    assert Reversed(parts) == ["4", "3", "2", "1"];
    assert Join(["4", "3", "2", "1"], '.') == "4.3.2.1";
  }

  lemma JoinThree(a: string, b: string, c: string)
    ensures Join([a, b, c], '.') == a + "." + b + "." + c
  {
    assert [a, b, c][1..] == [b, c];
    assert [b, c][1..] == [c];
    assert Join([b, c], '.') == b + "." + c;
    assert a + "." + (b + "." + c) == a + "." + b + "." + c;
  }

  /** No part count is checked: a three-part name such as
      "check.target.ip" is reversed just as a dotted quad is. */
  lemma ReverseThreeParts(a: string, b: string, c: string)
    requires '.' !in a && '.' !in b && '.' !in c && c != ""
    ensures ReverseIpAddress(a + "." + b + "." + c) == c + "." + b + "." + a
  {
    var parts := [a, b, c];
    JoinThree(a, b, c);
    ReverseJoined(parts);
    assert Reversed(parts) == [c, b, a];
    JoinThree(c, b, a);
  }

  /** A string without a dot is its own reversal. */
  lemma ReverseWithoutDot(ip: string)
    requires '.' !in ip
    ensures ReverseIpAddress(ip) == ip
  {
  }

  /** Reversal is an involution on strings whose dot-separated parts are all
      non-empty. */
  lemma ReverseIsInvolution(ip: string)
    requires forall i :: 0 <= i < |Pieces(ip, '.')| ==> Pieces(ip, '.')[i] != ""
    ensures ReverseIpAddress(ReverseIpAddress(ip)) == ip
  {
    var parts := Pieces(ip, '.');
    SplitKeepsAllPieces(ip, '.');
    var rev := Reversed(parts);
    PiecesOfJoin(rev, '.');
    SplitKeepsAllPieces(Join(rev, '.'), '.');
    ReversedTwice(parts);
    JoinPieces(ip, '.');
  }

  /** `split` drops trailing empty parts, so a trailing dot is lost and the
      reversal does not round-trip: "1.2.3." becomes "3.2.1" and then
      "1.2.3". */
  lemma TrailingDotIsLost(a: string, b: string, c: string)
    requires '.' !in a && '.' !in b && '.' !in c && a != "" && c != ""
    ensures ReverseIpAddress(a + "." + b + "." + c + ".") == c + "." + b + "." + a
    ensures ReverseIpAddress(ReverseIpAddress(a + "." + b + "." + c + ".")) == a + "." + b + "." + c
    ensures ReverseIpAddress(ReverseIpAddress(a + "." + b + "." + c + ".")) != a + "." + b + "." + c + "."
  {
    var s := a + "." + b + "." + c + ".";
    var parts := [a, b, c, ""];
    assert Join(parts, '.') == s by {
      assert parts[1..] == [b, c, ""];
      JoinThree(b, c, "");
    }
    PiecesOfJoin(parts, '.');
    assert s[|a|] == '.';
    assert DropTrailingEmpty(parts) == [a, b, c];
    assert Split(s, '.') == [a, b, c];
    assert Reversed([a, b, c]) == [c, b, a];
    JoinThree(c, b, a);
    ReverseThreeParts(c, b, a);
    var back := a + "." + b + "." + c;
    assert |back| < |s|;
  }

  // ----- Query name -----

  /** The query name's dot-separated parts are the reversed address parts
      followed by the suffix's parts. */
  lemma QueryNameParts(s: Service, ip: string)
    requires Split(ip, '.') != []
    ensures Pieces(CreateCheckTargetDomainName(s, ip), '.')
         == Reversed(Split(ip, '.')) + Pieces(s.serviceDomainSuffix, '.')
  {
    var rev := ReverseIpAddress(ip);
    assert CreateCheckTargetDomainName(s, ip) == rev + ['.'] + s.serviceDomainSuffix;
    PiecesAround(rev, s.serviceDomainSuffix, '.');
    ReverseIpAddressParts(ip);
  }

  /** For a dotted quad a.b.c.d the query name is d.c.b.a, a dot and the
      suffix ("1.2.3.4" on zen.spamhaus.org gives
      "4.3.2.1.zen.spamhaus.org"). */
  lemma QueryNameOfDottedQuad(s: Service, a: string, b: string, c: string, d: string)
    requires '.' !in a && '.' !in b && '.' !in c && '.' !in d && d != ""
    ensures CreateCheckTargetDomainName(s, a + "." + b + "." + c + "." + d)
         == d + "." + c + "." + b + "." + a + "." + s.serviceDomainSuffix
  {
    var parts := [a, b, c, d];
    assert Join(parts, '.') == a + "." + b + "." + c + "." + d by {
      assert parts[1..] == [b, c, d];
      JoinThree(b, c, d);
    }
    ReverseJoined(parts);
    assert Reversed(parts) == [d, c, b, a];
    assert Join([d, c, b, a], '.') == d + "." + c + "." + b + "." + a by {
      assert [d, c, b, a][1..] == [c, b, a];
      JoinThree(c, b, a);
    }
  }

  // ----- Classification -----

  /** A resolver that answers `answer` for every name. */
  function Answering(answer: Option<string>): Resolver
  {
    _ => answer
  }

  /** The three outcomes of one service check, on a fixed resolver answer:
      unknown host is not listed, a matching answer is listed with that
      address, and a successful but non-matching lookup is not listed. */
  lemma ClassificationExamples(ip: string)
    ensures var s := Service("test", "bl.example", EqualsTo("127.0.0.2"));
            var r := CheckIpAddress(s, ip, Answering(None));
            !r.isListed && r.returnIpAddress == None &&
            r.checkTargetDomainName == ReverseIpAddress(ip) + ".bl.example"
    ensures var s := Service("test", "bl.example", EqualsTo("127.0.0.2"));
            var r := CheckIpAddress(s, ip, Answering(Some("127.0.0.2")));
            r.isListed && r.returnIpAddress == Some("127.0.0.2")
    ensures var s := Service("test", "bl.example", EqualsTo("127.0.0.3"));
            var r := CheckIpAddress(s, ip, Answering(Some("127.0.0.2")));
            !r.isListed && r.returnIpAddress == None
  {
  }

  // ----- Catalog -----

  /** A catalog constant checks exactly as its service does, and the result
      names the service, not the catalog constant, as its checker. */
  lemma CatalogDelegates(e: Catalog, ip: string, resolve: Resolver)
    ensures CatalogCheckIpAddress(e, ip, resolve) == CheckIpAddress(e.service(), ip, resolve)
    ensures CatalogCheckIpAddress(e, ip, resolve).checker == Some(ServiceId(e.service()))
  {
  }

  /** The SPAMHAUS detector accepts exactly the addresses starting with
      "127.0.0"; the BARRACUDA detector accepts exactly "127.0.0.2". */
  lemma CatalogDetectors(address: string)
    ensures Accepts(SPAMHAUS.service().detector, address) <==>
      |address| >= 7 && address[..7] == "127.0.0"
    ensures Accepts(BARRACUDA.service().detector, address) <==> address == "127.0.0.2"
    ensures Accepts(BARRACUDA.service().detector, address) ==> Accepts(SPAMHAUS.service().detector, address)
  {
  }
}
