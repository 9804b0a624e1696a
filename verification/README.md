# dnsbl-checker in Dafny

This project models the core of `dnsbl-checker`, a small Java library. It checks whether an IP address is listed on DNS-based blackhole lists (DNSBLs). The model covers three parts:

- **One service** (`DnsblService`): splits the address on `.`, reverses the parts and rejoins them, appends `"." + serviceDomainSuffix`, resolves that name, and classifies the answer with the service's detector:
  - resolution fails with `UnknownHostException`: not listed (`ok`);
  - the detector accepts the resolved address: listed (`ng`), carrying that address;
  - otherwise: not listed.
- **The built-in catalog** (`DnsblService.Catalog`): SPAMHAUS ZEN and Barracuda. Each constant delegates to its wrapped service.
- **The composite checker** (`DnsblChecker`): an ordered, mutable list of member checkers, with two query modes:
  - `checkIpAddress`/`checkAny` stops at the first listed member;
  - `checkAll` returns every member's result in order.

  Both modes throw `IllegalStateException("No checkers.")` on an empty chain. `ReadonlyDnsblChecker` is the same class with a `readonly` flag fixed at construction. Its mutators throw `UnsupportedOperationException`.
- **The check result** (`DnsblCheckResult`): an immutable value built by the `ok` and `ng` factories or by a public constructor.

## Files

- `wrappers.dfy`: `Option` (a nullable reference) and `Result` (a value or a thrown exception).
- `java_strings.dfy`: `String.split` with a literal one-character separator and limit 0, `Collectors.joining`, and `Collections.reverse`. It also proves the round trips between splitting and joining.
- `check_result.dfy`: the `DnsblCheckResult` datatype, its factories and its invariant.
- `service.dfy`: services, detectors, the catalog, address reversal, query-name construction and the single-service check.
- `checker.dfy`: the `DnsblChecker` class and the specification functions of its two query modes.

The DNS lookup is a parameter `resolve: string -> Option<string>`. It maps a query name to the textual host address, or to `None` where `InetAddress.getByName` throws `UnknownHostException`. Because `resolve` is a deterministic function, a check is a function of the chain, the address and the resolver. The check methods have no `modifies` clause, so they cannot change the member list.

The chain's member list is a `seq` field that the mutators reassign. `addCheckers(IDnsblChecker...)` keeps its element-by-element loop. A chain becomes a member of another chain as the value `Composite(chain, members)`. The result's `checker` back-reference is a `CheckerId`: the service descriptor for a service check, or the chain object for the synthesized `ok(ip, "", this)`.

### Where the code and its description differ (the model follows the code)

- Only `UnknownHostException` is caught (`DnsblService.java:148`). Other exceptions from the lookup propagate. They are not mapped to "not listed".
- `DnsblCheckResult` has a public constructor (`DnsblCheckResult.java:53-57`). So the "return address iff listed" invariant holds only for values built by `ok` and `ng`. `CheckResults.ConstructedListedBreaksInvariant` shows a listed result without a return address.
- `reverseIpAddress` does not validate anything. Any string is split with Java's rules: trailing empty parts are dropped, and a string with no dot stays whole. Three-part names are accepted.
- `checkIpAddress` and `checkAll` both call `requireCheckers`, so both throw on an empty chain.
- The default instance is not a working pre-populated read-only chain: its construction throws (see Findings).

## Model

| member | source | states |
|---|---|---|
| `CheckResults.New` | dnsbl-checker/src/main/java/jp/try0/jlib/dnsbl/DnsblCheckResult.java:53-57 | the public constructor keeps `isListed`, the address and the domain name, and leaves `returnIpAddress` and `checker` null |
| `CheckResults.Ok` | dnsbl-checker/src/main/java/jp/try0/jlib/dnsbl/DnsblCheckResult.java:11-15 | `ok` is not listed, has no return address, keeps the address, domain and checker, and satisfies the factory invariant |
| `CheckResults.Ng` | dnsbl-checker/src/main/java/jp/try0/jlib/dnsbl/DnsblCheckResult.java:17-23 | `ng` is listed, returns exactly the given return address, keeps the address, domain and checker, and satisfies the factory invariant |
| `CheckResults.FactoryBuiltIsFactoryImage` | dnsbl-checker/src/main/java/jp/try0/jlib/dnsbl/DnsblCheckResult.java:11-23 | every value with "return address iff listed" and a checker is exactly `ok` or `ng` of its own getters, so the factories are the only way to reach the invariant |
| `CheckResults.ConstructedListedBreaksInvariant` | dnsbl-checker/src/main/java/jp/try0/jlib/dnsbl/DnsblCheckResult.java:40-57 | a result built by the public constructor as listed has no return address, so it violates the invariant |
| `JavaStrings.Pieces` | dnsbl-checker/src/main/java/jp/try0/jlib/dnsbl/DnsblService.java:100 | splitting at every separator gives at least one piece, and no piece contains the separator |
| `JavaStrings.DropTrailingEmpty` | dnsbl-checker/src/main/java/jp/try0/jlib/dnsbl/DnsblService.java:100 | the result is a prefix of the input, everything dropped is empty, and the last kept part is non-empty |
| `JavaStrings.Split` | dnsbl-checker/src/main/java/jp/try0/jlib/dnsbl/DnsblService.java:100 | `split` with limit 0: a string without the separator yields itself; otherwise the pieces with only trailing empty pieces removed; no part contains the separator |
| `JavaStrings.Reversed` | dnsbl-checker/src/main/java/jp/try0/jlib/dnsbl/DnsblService.java:101 | same length, and element i is input element n-1-i |
| `JavaStrings.Join` | dnsbl-checker/src/main/java/jp/try0/jlib/dnsbl/DnsblService.java:102 | `Collectors.joining`: the first part is a prefix of the result; `JavaStrings.JoinPieces` and `JavaStrings.PiecesOfJoin` prove it inverse to splitting |
| `JavaStrings.ReversedTwice` | dnsbl-checker/src/main/java/jp/try0/jlib/dnsbl/DnsblService.java:101 | reversing twice gives the list back |
| `JavaStrings.PiecesWithoutSeparator` | dnsbl-checker/src/main/java/jp/try0/jlib/dnsbl/DnsblService.java:100 | a string without the separator is a single piece |
| `JavaStrings.PiecesAround` | dnsbl-checker/src/main/java/jp/try0/jlib/dnsbl/DnsblService.java:100 | the pieces of `a + sep + b` are the pieces of `a` followed by those of `b` |
| `JavaStrings.JoinPieces` | dnsbl-checker/src/main/java/jp/try0/jlib/dnsbl/DnsblService.java:100-102 | joining the pieces with the separator gives the string back |
| `JavaStrings.PiecesOfJoin` | dnsbl-checker/src/main/java/jp/try0/jlib/dnsbl/DnsblService.java:100-102 | splitting a join of separator-free parts gives the parts back |
| `JavaStrings.SplitKeepsAllPieces` | dnsbl-checker/src/main/java/jp/try0/jlib/dnsbl/DnsblService.java:100 | when the last piece is non-empty, `split` drops nothing |
| `Services.Accepts` | dnsbl-checker/src/main/java/jp/try0/jlib/dnsbl/DnsblService.java:39-51 | the `startsWith` detector accepts exactly the addresses whose first characters are the prefix; the `equals` detector accepts exactly the expected address |
| `Services.ReverseIpAddress` | dnsbl-checker/src/main/java/jp/try0/jlib/dnsbl/DnsblService.java:99-103 | an input that `split` turns into no parts (only dots) gives `""`; a single part comes back unchanged; otherwise the result begins with the last part. `Services.ReverseIpAddressParts` and `Services.ReverseIsInvolution` state its full meaning |
| `Services.CreateCheckTargetDomainName` | dnsbl-checker/src/main/java/jp/try0/jlib/dnsbl/DnsblService.java:156-158 | the query name is the reversed address, then one dot, then exactly the service's suffix |
| `Services.ReverseIpAddressParts` | dnsbl-checker/src/main/java/jp/try0/jlib/dnsbl/DnsblService.java:99-103 | the dot-separated parts of the reversed address are `split`'s parts in reverse order |
| `Services.ReverseJoined` | dnsbl-checker/src/main/java/jp/try0/jlib/dnsbl/DnsblService.java:99-103 | reversing `p1.….pn` (dot-free parts, last non-empty) gives `pn.….p1` for any number of parts |
| `Services.JoinThree` | dnsbl-checker/src/main/java/jp/try0/jlib/dnsbl/DnsblService.java:102 | joining three parts with `.` puts one dot between neighbours |
| `Services.ReverseDottedQuad` | dnsbl-checker/src/main/java/jp/try0/jlib/dnsbl/DnsblService.java:99-103 | `"1.2.3.4"` reverses to `"4.3.2.1"` |
| `Services.ReverseThreeParts` | dnsbl-checker/src/main/java/jp/try0/jlib/dnsbl/DnsblService.java:99-103 | a three-part name `a.b.c` reverses to `c.b.a`: the part count is not checked |
| `Services.ReverseWithoutDot` | dnsbl-checker/src/main/java/jp/try0/jlib/dnsbl/DnsblService.java:99-103 | a string with no dot reverses to itself |
| `Services.ReverseIsInvolution` | dnsbl-checker/src/main/java/jp/try0/jlib/dnsbl/DnsblService.java:99-103 | reversal is an involution on strings whose dot-separated parts are all non-empty |
| `Services.TrailingDotIsLost` | dnsbl-checker/src/main/java/jp/try0/jlib/dnsbl/DnsblService.java:100-102 | `a.b.c.` reverses to `c.b.a`, and reversing that gives `a.b.c`, which differs from the input: because `split` drops a trailing empty part, the round trip fails |
| `Services.QueryNameParts` | dnsbl-checker/src/main/java/jp/try0/jlib/dnsbl/DnsblService.java:156-158 | the query name's dot-separated parts are the reversed address parts followed by the suffix's parts |
| `Services.QueryNameOfDottedQuad` | dnsbl-checker/src/main/java/jp/try0/jlib/dnsbl/DnsblService.java:156-158 | for `a.b.c.d` the query name is `d.c.b.a.` followed by the suffix |
| `Services.CheckIpAddress` | dnsbl-checker/src/main/java/jp/try0/jlib/dnsbl/DnsblService.java:135-154 | the result keeps the address and the query name, and names the service as checker. It is listed iff the lookup succeeds and the detector accepts the answer; then it returns that answer. Unknown host is never listed |
| `Services.CatalogCheckIpAddress` | dnsbl-checker/src/main/java/jp/try0/jlib/dnsbl/DnsblService.java:83-86 | a catalog constant's result keeps the address, names the inner service as checker and satisfies the factory invariant. A BARRACUDA hit always returns `127.0.0.2`; a SPAMHAUS hit always returns an address starting with `127.0.0` |
| `Services.ClassificationExamples` | dnsbl-checker/src/main/java/jp/try0/jlib/dnsbl/DnsblService.java:137-153 | with an exact-match detector for 127.0.0.2: unknown host gives not listed with no return address; an answer of 127.0.0.2 gives listed; a detector for 127.0.0.3 gives not listed although the lookup succeeded |
| `Services.CatalogDelegates` | dnsbl-checker/src/main/java/jp/try0/jlib/dnsbl/DnsblService.java:83-86 | a catalog constant's check equals its service's check, and the result's checker is the inner service |
| `Services.CatalogDetectors` | dnsbl-checker/src/main/java/jp/try0/jlib/dnsbl/DnsblService.java:39-51 | SPAMHAUS accepts exactly the addresses starting with `127.0.0`; BARRACUDA accepts exactly `127.0.0.2`; every BARRACUDA hit is a SPAMHAUS hit |
| `Chains.Name` | dnsbl-checker/src/main/java/jp/try0/jlib/dnsbl/IDnsblChecker.java:18-20 | a service's name is its service name; a catalog constant and a chain report the interface default `""` |
| `Chains.Check` | dnsbl-checker/src/main/java/jp/try0/jlib/dnsbl/IDnsblChecker.java:28 | `checkIpAddress` of any member: a service or catalog constant never throws; an empty chain throws `IllegalStateException("No checkers.")`; every result satisfies the factory invariant; a chain answering not listed answers its own `ok(ip, "", this)` |
| `Chains.FirstListed` | dnsbl-checker/src/main/java/jp/try0/jlib/dnsbl/DnsblChecker.java:141-153 | the first-listed-wins loop gives only factory-built results, and a not-listed answer is the chain's own `ok(ip, "", this)`. `Chains.FirstListedIsFirstHit` says which member's result it is |
| `Chains.Test` | dnsbl-checker/src/main/java/jp/try0/jlib/dnsbl/IDnsblChecker.java:33-36 | `test` throws iff the check throws, and is true iff the check says listed |
| `Chains.CheckEach` | dnsbl-checker/src/main/java/jp/try0/jlib/dnsbl/DnsblChecker.java:176-179 | the loop succeeds iff every member's check succeeds; then it has one result per member and element i is member i's own result |
| `Chains.CheckAllOf` | dnsbl-checker/src/main/java/jp/try0/jlib/dnsbl/DnsblChecker.java:171-182 | `checkAll` of a chain: an empty chain throws `IllegalStateException("No checkers.")`. Otherwise it succeeds iff every member's check succeeds, and then gives one result per member in order, each that member's own result |
| `Chains.FirstHit` | dnsbl-checker/src/main/java/jp/try0/jlib/dnsbl/DnsblChecker.java:145-150 | the first index whose member throws or is listed: every earlier member answered not listed |
| `Chains.FirstListedIsFirstHit` | dnsbl-checker/src/main/java/jp/try0/jlib/dnsbl/DnsblChecker.java:145-152 | first-listed-wins answers the first hit's own result; when there is no hit it answers `ok(ip, "", this)` |
| `Chains.ShortCircuit` | dnsbl-checker/src/main/java/jp/try0/jlib/dnsbl/DnsblChecker.java:145-150 | members after the first hit do not affect the answer |
| `Chains.FirstHitUnique` | dnsbl-checker/src/main/java/jp/try0/jlib/dnsbl/DnsblChecker.java:145-150 | an index where every earlier member is not listed and the member there is a hit is the first hit |
| `Chains.AnyAgreesWithAll` | dnsbl-checker/src/main/java/jp/try0/jlib/dnsbl/DnsblChecker.java:142-182 | when `checkAll` succeeds, `checkIpAddress` is listed iff some element of `checkAll` is listed; it then equals the element at the first hit; otherwise it is `ok(ip, "", this)` |
| `Chains.EmptyChainThrows` | dnsbl-checker/src/main/java/jp/try0/jlib/dnsbl/DnsblChecker.java:132-136 | an empty chain throws `IllegalStateException("No checkers.")` in both query modes |
| `Chains.CheckEachStopsAtFailure` | dnsbl-checker/src/main/java/jp/try0/jlib/dnsbl/DnsblChecker.java:176-179 | `checkAll` throws the exception of the first member that throws |
| `Chains.ThreeMembers` | dnsbl-checker/src/main/java/jp/try0/jlib/dnsbl/DnsblChecker.java:142-182 | for members [A not listed, B listed, C], first-listed-wins answers B's result with the loop stopping at B, and `checkAll` answers all three results in order |
| `Chains.CatalogMembers` | dnsbl-checker/src/main/java/jp/try0/jlib/dnsbl/DnsblChecker.java:63 | the catalog's constants as members, in `Catalog.values()` order |
| `Chains.CatalogChainCheck` | dnsbl-checker/src/main/java/jp/try0/jlib/dnsbl/DnsblChecker.java:142-153 | a chain of the catalog never throws: it answers SPAMHAUS's result if listed, else BARRACUDA's if listed, else `ok` |
| `Chains.DnsblChecker.constructor` | dnsbl-checker/src/main/java/jp/try0/jlib/dnsbl/DnsblChecker.java:82-83 | a new chain is mutable and empty |
| `Chains.DnsblChecker.FromArray` | dnsbl-checker/src/main/java/jp/try0/jlib/dnsbl/DnsblChecker.java:91-93 | the varargs constructor adds through `addCheckers`, so the members are the arguments in order |
| `Chains.DnsblChecker.FromList` | dnsbl-checker/src/main/java/jp/try0/jlib/dnsbl/DnsblChecker.java:100-102 | the list constructor adds through `addCheckers(List)`, so the members are the list in order |
| `Chains.DnsblChecker.Readonly` | dnsbl-checker/src/main/java/jp/try0/jlib/dnsbl/DnsblChecker.java:25-26 | the no-argument read-only constructor gives a read-only empty chain |
| `Chains.DnsblChecker.ReadonlyFromArray` | dnsbl-checker/src/main/java/jp/try0/jlib/dnsbl/DnsblChecker.java:31-33 | as written, the read-only varargs constructor always throws `UnsupportedOperationException`, whatever the arguments |
| `Chains.DnsblChecker.ReadonlyFromList` | dnsbl-checker/src/main/java/jp/try0/jlib/dnsbl/DnsblChecker.java:40-42 | as written, the read-only list constructor always throws `UnsupportedOperationException` |
| `Chains.DnsblChecker.Sealed` | dnsbl-checker/src/main/java/jp/try0/jlib/dnsbl/DnsblChecker.java:31-42 | corrected read-only construction: the members are the arguments and the chain is read-only |
| `Chains.DnsblChecker.DefaultInstance` | dnsbl-checker/src/main/java/jp/try0/jlib/dnsbl/DnsblChecker.java:62-72 | as written, initialising the default instance fails with the read-only constructor's `UnsupportedOperationException` as cause |
| `Chains.DnsblChecker.CorrectedDefaultInstance` | dnsbl-checker/src/main/java/jp/try0/jlib/dnsbl/DnsblChecker.java:63 | the intended default instance: a fresh read-only chain of the catalog constants in order |
| `Chains.DnsblChecker.AddCheckers` | dnsbl-checker/src/main/java/jp/try0/jlib/dnsbl/DnsblChecker.java:110-115 | appends the arguments at the end in order, leaves existing members unchanged and returns the same chain. On a read-only chain it throws and leaves the members unchanged |
| `Chains.DnsblChecker.AddCheckerList` | dnsbl-checker/src/main/java/jp/try0/jlib/dnsbl/DnsblChecker.java:123-126 | `addAll` appends the list and returns the same chain. On a read-only chain it throws and changes nothing |
| `Chains.DnsblChecker.ClearCheckers` | dnsbl-checker/src/main/java/jp/try0/jlib/dnsbl/DnsblChecker.java:128-130 | leaves the member list empty. On a read-only chain it throws and changes nothing |
| `Chains.DnsblChecker.RequireCheckers` | dnsbl-checker/src/main/java/jp/try0/jlib/dnsbl/DnsblChecker.java:132-136 | throws `IllegalStateException("No checkers.")` exactly when there are no members |
| `Chains.DnsblChecker.CheckIpAddress` | dnsbl-checker/src/main/java/jp/try0/jlib/dnsbl/DnsblChecker.java:142-153 | the answer is the first-listed-wins function of the members. An empty chain throws before any member is queried. Otherwise members are queried up to and including the first hit and none after it |
| `Chains.DnsblChecker.CheckAny` | dnsbl-checker/src/main/java/jp/try0/jlib/dnsbl/DnsblChecker.java:161-163 | `checkAny` answers exactly what `checkIpAddress` answers |
| `Chains.DnsblChecker.CheckAll` | dnsbl-checker/src/main/java/jp/try0/jlib/dnsbl/DnsblChecker.java:171-182 | equals `Chains.CheckAllOf` of the members: an empty chain throws before any member is queried. Otherwise the loop queries every member when none throws, with no short-circuit, and gives one result per member in order, each the member's own result. When a member throws, it stops right after the first member that throws |
| `Chains.RepeatedChecksAgree` | dnsbl-checker/src/main/java/jp/try0/jlib/dnsbl/DnsblChecker.java:142-182 | repeated checks of the same chain with the same resolver give equal answers in both modes, for members of the kinds in `Chains.Checker` (see Left out) |

## Left out

- The DNS lookup itself (`InetAddress.getByName(...).getHostAddress()`) is network I/O. It is the `resolve` parameter. Exceptions from the lookup other than `UnknownHostException` are not modelled; in Java they propagate to the caller.
- Java `null` arguments: a null address, a null member, or a null array or list for `addCheckers`. They lead to `NullPointerException`s or null fields that the model does not represent. For the same reason `CheckResults.Ng` takes a non-null return address.
- Arbitrary `Predicate<String>` detectors. The service constructor is package-private, and the only detectors in the source are a `startsWith` test and an `equals` test, which `Services.Detector` models.
- Chains.Checker: a member is a service, a catalog constant or a nested chain. `IDnsblChecker` is a public interface, so a caller's own class or lambda can also be a member. Such a member may throw any runtime exception, may return `null` (which gives a `NullPointerException` when the chain reads `isListed()`), and may answer differently on each call. The model captures none of this. For that reason `Chains.RepeatedChecksAgree` covers only chains built from services, catalog constants and other chains. With a caller-supplied member whose answers change, repeated checks in Java can differ.
- Aliasing between nested chains. A chain added to another chain becomes the value `Composite(chain, members)`, taken when it is added. Later changes to the inner chain's own list are therefore not seen through the outer chain, though in Java they would be. A chain that contains itself, which in Java recurses until the stack overflows, cannot be expressed.
- Chains.DnsblChecker.CheckIpAddress: the count of queried members is a ghost out-parameter. The source has no such counter; it stands for "which members were invoked".
- The lazy `Holder` singleton and the thread safety of its class initialisation. `Chains.DnsblChecker.DefaultInstance` models only what the initialiser computes.
- The console message printed by the `Catalog` static initialiser, the informational `serviceWebPageUrl` fields, and the plain getters of `DnsblService`. The getters return final fields, which are the datatype's fields here.
- `java.util.function.Predicate` combinators such as `and`, and object identity of results.
- `DnsblCheckerExamples.java`, a usage example that calls methods absent from the source and asserts nothing.

## Findings

| source | as written | input that shows it | evidently intended | confidence | as-written member | corrected member |
|---|---|---|---|---|---|---|
| dnsbl-checker/src/main/java/jp/try0/jlib/dnsbl/DnsblChecker.java:31-42 | the read-only constructors with members call `super(...)`, which calls the overridable `addCheckers`. Java dispatches that to the read-only override, which throws `UnsupportedOperationException` | `new ReadonlyDnsblChecker(Catalog.SPAMHAUS)`, or any list | the members are stored and the chain is read-only from then on | high, not executed | `Chains.DnsblChecker.ReadonlyFromArray` | `Chains.DnsblChecker.Sealed` |
| dnsbl-checker/src/main/java/jp/try0/jlib/dnsbl/DnsblChecker.java:62-72 | `DEFAULT_INSTANCE` is built with the throwing read-only constructor, so `getDefaultInstance()` fails in class initialisation | any call of `getDefaultInstance()` | a read-only chain of `Catalog.values()` that never throws `No checkers.` | high, not executed | `Chains.DnsblChecker.DefaultInstance` | `Chains.DnsblChecker.CorrectedDefaultInstance` |
