/** Federated addresses: `local@domain` for nodes and members, `/resource@domain` for data stores. */
module Address {
  import opened Strings
  import opened Wrappers

  datatype FederatedAddress = FederatedAddress(localPart: string, domain: string, resource: string)
  {
    predicate Equal(other: FederatedAddress) {
      localPart == other.localPart && domain == other.domain && resource == other.resource
    }

    function GetIdentifier(): string {
      if resource != "" then resource else localPart
    }
  }

  datatype AddressError =
    | Empty | NotOneAt | EmptyDomain | NoDot | BareSlash | EmptyLocal | NoIdentifier | TwoIdentifiers | NoSlash

  function ParseAddress(addr: string): Result<FederatedAddress, AddressError> {
    if addr == "" then Failure(Empty)
    else
      var parts := Split(addr, '@');
      if |parts| != 2 then Failure(NotOneAt)
      else if parts[1] == "" then Failure(EmptyDomain)
      else if '.' !in parts[1] then Failure(NoDot)
      else if HasPrefix(parts[0], "/") then
        if |parts[0]| == 1 then Failure(BareSlash) else Success(FederatedAddress("", parts[1], parts[0]))
      else if parts[0] == "" then Failure(EmptyLocal)
      else Success(FederatedAddress(parts[0], parts[1], ""))
  }

  function ToString(a: FederatedAddress): string {
    if a.resource != "" then a.resource + "@" + a.domain else a.localPart + "@" + a.domain
  }

  function Validate(a: FederatedAddress): Result<(), AddressError> {
    if a.domain == "" then Failure(EmptyDomain)
    else if '.' !in a.domain then Failure(NoDot)
    else if a.localPart == "" && a.resource == "" then Failure(NoIdentifier)
    else if a.localPart != "" && a.resource != "" then Failure(TwoIdentifiers)
    else if a.resource != "" && !HasPrefix(a.resource, "/") then Failure(NoSlash)
    else Success(())
  }

  /** A valid address that can also be written down: no `@` inside, no slash opening a local part,
      and a resource that names something. */
  predicate Writable(a: FederatedAddress) {
    && Validate(a).Success?
    && '@' !in a.localPart && '@' !in a.domain && '@' !in a.resource
    && !HasPrefix(a.localPart, "/") && a.resource != "/"
  }

  /** Printing and parsing are inverse: `s` parses to `a` exactly when `a` is writable and `s` is
      its string. */
  lemma ParseIffPrint(s: string, a: FederatedAddress)
    ensures ParseAddress(s) == Success(a) <==> Writable(a) && s == ToString(a)
  {
    var parts := Split(s, '@');
    if ParseAddress(s) == Success(a) {
      assert parts == [parts[0], parts[1]];
      SplitInTwo(s, '@', parts[0], parts[1]);
    }
    if Writable(a) && s == ToString(a) {
      SplitInTwo(s, '@', a.GetIdentifier(), a.domain);
    }
  }

  /** Different writable addresses have different strings. */
  lemma PrintIsInjective(a: FederatedAddress, b: FederatedAddress)
    requires Writable(a) && Writable(b) && ToString(a) == ToString(b)
    ensures a == b
  {
    ParseIffPrint(ToString(a), a);
    ParseIffPrint(ToString(b), b);
  }

  /** A valid address survives printing and parsing exactly when it is writable; a valid local part
      that opens with a slash comes back as a resource. */
  lemma RoundTripIff(a: FederatedAddress)
    requires Validate(a).Success?
    ensures ParseAddress(ToString(a)) == Success(a) <==>
              '@' !in a.localPart && '@' !in a.domain && '@' !in a.resource
              && !HasPrefix(a.localPart, "/") && a.resource != "/"
  {
    ParseIffPrint(ToString(a), a);
  }
}
