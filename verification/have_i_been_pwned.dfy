/** The `HaveIBeenPwned` client: its configuration (API address and the
    number of leaks from which a password counts as pwned), the k-anonymity
    range lookup, the threshold test and the batch filter. */
module HaveIBeenPwned {
  import opened Wrappers
  import opened Runtime
  import opened Strings
  import opened Utils
  import opened RangeResponse
  import opened Linq

  const DefaultApiAddress := "https://api.pwnedpasswords.com/range"
  const DefaultNumberOfLeaksForPwn := 1

  /** Number of digest characters sent to the service. */
  const PrefixLength := 5

  datatype Client = Client(apiAddress: string, numberOfLeaksForPwn: int)

  /** What every constructed client satisfies: a threshold of at least one
      and an address without a trailing '/'. */
  predicate Valid(c: Client) {
    && c.numberOfLeaksForPwn >= 1
    && (|c.apiAddress| == 0 || c.apiAddress[|c.apiAddress| - 1] != '/')
  }

  /** `new HaveIBeenPwned(numberOfLeaksForPwn)`: the default address and the given threshold. */
  function NewClient(numberOfLeaksForPwn: int): (r: Result<Client, Error>)
    ensures r.Success? <==> numberOfLeaksForPwn >= 1
    ensures r.Failure? ==> r.error == ArgumentOutOfRange(numberOfLeaksForPwn)
    ensures r.Success? ==>
      && r.value.apiAddress == DefaultApiAddress
      && r.value.numberOfLeaksForPwn == numberOfLeaksForPwn
      && Valid(r.value)
  {
    if numberOfLeaksForPwn < 1 then Failure(ArgumentOutOfRange(numberOfLeaksForPwn))
    else Success(Client(DefaultApiAddress, numberOfLeaksForPwn))
  }

  /** `new HaveIBeenPwned()`: the optional threshold defaults to 1. */
  function DefaultClient(): (c: Client)
    ensures NewClient(DefaultNumberOfLeaksForPwn) == Success(c)
    ensures c.apiAddress == DefaultApiAddress && c.numberOfLeaksForPwn == 1 && Valid(c)
  {
    NewClient(DefaultNumberOfLeaksForPwn).value
  }

  /** `new HaveIBeenPwned(apiAddress)`: the address must be a well-formed
      absolute URI; it is stored without its trailing '/' characters. */
  function NewClientForAddress(p: Platform, apiAddress: string): (r: Result<Client, Error>)
    ensures r.Success? <==> p.isWellFormedUri(apiAddress)
    ensures r.Failure? ==> r.error == UriFormat(apiAddress)
    ensures r.Success? ==> Valid(r.value) && r.value.numberOfLeaksForPwn == DefaultNumberOfLeaksForPwn
    ensures r.Success? ==>
      && |r.value.apiAddress| <= |apiAddress|
      && apiAddress[..|r.value.apiAddress|] == r.value.apiAddress
      && forall k :: |r.value.apiAddress| <= k < |apiAddress| ==> apiAddress[k] == '/'
  {
    if !p.isWellFormedUri(apiAddress) then Failure(UriFormat(apiAddress))
    else Success(Client(TrimEnd(apiAddress, '/'), DefaultNumberOfLeaksForPwn))
  }

  /** `new HaveIBeenPwned(apiAddress, numberOfLeaksForPwn)`: chains to the
      address constructor first, so a bad address is reported even when the
      threshold is bad too. */
  function NewClientForAddressWithThreshold(p: Platform, apiAddress: string, numberOfLeaksForPwn: int)
    : (r: Result<Client, Error>)
    ensures !p.isWellFormedUri(apiAddress) ==> r == Failure(UriFormat(apiAddress))
    ensures p.isWellFormedUri(apiAddress) && numberOfLeaksForPwn < 1 ==>
      r == Failure(ArgumentOutOfRange(numberOfLeaksForPwn))
    ensures r.Success? <==> p.isWellFormedUri(apiAddress) && numberOfLeaksForPwn >= 1
    ensures r.Success? ==>
      && Valid(r.value)
      && r.value.numberOfLeaksForPwn == numberOfLeaksForPwn
      && Success(r.value.apiAddress) == ApiAddressOf(NewClientForAddress(p, apiAddress))
  {
    var c :- NewClientForAddress(p, apiAddress);
    if numberOfLeaksForPwn < 1 then Failure(ArgumentOutOfRange(numberOfLeaksForPwn))
    else Success(c.(numberOfLeaksForPwn := numberOfLeaksForPwn))
  }

  function ApiAddressOf(r: Result<Client, Error>): Result<string, Error> {
    match r
    case Success(c) => Success(c.apiAddress)
    case Failure(e) => Failure(e)
  }

  /** The digest of a password, split into the part sent to the service and
      the part matched locally (`Substring(0, 5)` and `Substring(5)`). */
  function SplitHash(hash: string): (parts: (string, string))
    requires |hash| >= PrefixLength
    ensures |parts.0| == PrefixLength
    ensures parts.0 + parts.1 == hash
  {
    (hash[..PrefixLength], hash[PrefixLength..])
  }

  /** The URL `OpenRead` is called with: `{apiAddress}/{hashPrefix}`. */
  function RangeAddress(c: Client, hashPrefix: string): string {
    c.apiAddress + "/" + hashPrefix
  }

  /** The request for a password: the client's address, one '/', then the
      first five digest characters and nothing else. */
  function RequestAddress(p: Platform, c: Client, password: string): (url: string)
    ensures |url| == |c.apiAddress| + 1 + PrefixLength
    ensures url[..|c.apiAddress|] == c.apiAddress && url[|c.apiAddress|] == '/'
    ensures url[|c.apiAddress| + 1..] == GetSha1Hash(p, password)[..PrefixLength]
  {
    var url := RangeAddress(c, SplitHash(GetSha1Hash(p, password)).0);
    assert url[|c.apiAddress| + 1..] == SplitHash(GetSha1Hash(p, password)).0;
    url
  }

  /** `GetNumberOfTimesPasswordPwned`: a missing body counts 0, otherwise
      the first line carrying the digest suffix gives the count. */
  function GetNumberOfTimesPasswordPwned(p: Platform, c: Client, password: string): (r: Result<int, Error>)
    ensures r.Success? ==> 0 <= r.value <= Int32Max
    ensures p.openRead(RequestAddress(p, c, password)).None? ==> r == Success(0)
  {
    var (hashPrefix, hashSuffix) := SplitHash(GetSha1Hash(p, password));
    var body := p.openRead(RangeAddress(c, hashPrefix));
    if body.None? then Success(0)
    else MatchCount(body.value, hashSuffix)
  }

  /** The suffix that the scan compares lines against. */
  function HashSuffix(p: Platform, password: string): string {
    SplitHash(GetSha1Hash(p, password)).1
  }

  /** The digest splits into a five-character prefix and a 35-character
      suffix, both upper-case hex; so a response line written in lower case
      never matches. */
  lemma DigestSplit(p: Platform, password: string)
    ensures var digest := GetSha1Hash(p, password);
      && |SplitHash(digest).0| == PrefixLength
      && |HashSuffix(p, password)| == 2 * Sha1Length - PrefixLength
      && SplitHash(digest).0 + HashSuffix(p, password) == digest
      && forall j :: 0 <= j < |HashSuffix(p, password)| ==> IsUpperHexDigit(HashSuffix(p, password)[j])
  {
  }

  /** k-anonymity: the request depends on the password only through the
      first five digest characters, so passwords sharing them send the same request. */
  lemma RequestRevealsOnlyPrefix(p: Platform, c: Client, a: string, b: string)
    requires GetSha1Hash(p, a)[..PrefixLength] == GetSha1Hash(p, b)[..PrefixLength]
    ensures RequestAddress(p, c, a) == RequestAddress(p, c, b)
  {
  }

  /** With a body, the count is the first matching line's, in order. */
  lemma LookupFirstMatch(p: Platform, c: Client, password: string, lines: seq<string>, k: nat)
    requires p.openRead(RequestAddress(p, c, password)) == Some(lines)
    requires PassedOver(lines, HashSuffix(p, password), k) && k < |lines|
    requires ParseLine(lines[k]).Success? && ParseLine(lines[k]).value.suffix == HashSuffix(p, password)
    ensures GetNumberOfTimesPasswordPwned(p, c, password) == Success(ParseLine(lines[k]).value.count)
  {
    FirstMatchWins(lines, HashSuffix(p, password), k);
  }

  /** With a body, no matching line and every line well-formed: 0. */
  lemma LookupNoMatch(p: Platform, c: Client, password: string, lines: seq<string>)
    requires p.openRead(RequestAddress(p, c, password)) == Some(lines)
    requires PassedOver(lines, HashSuffix(p, password), |lines|)
    ensures GetNumberOfTimesPasswordPwned(p, c, password) == Success(0)
  {
    NoMatchIsZero(lines, HashSuffix(p, password));
  }

  /** A malformed line reached before any match makes the lookup fail with its error. */
  lemma LookupMalformed(p: Platform, c: Client, password: string, lines: seq<string>, k: nat)
    requires p.openRead(RequestAddress(p, c, password)) == Some(lines)
    requires PassedOver(lines, HashSuffix(p, password), k) && k < |lines|
    requires ParseLine(lines[k]).Failure?
    ensures GetNumberOfTimesPasswordPwned(p, c, password) == Failure(ParseLine(lines[k]).error)
  {
    FirstMalformedFails(lines, HashSuffix(p, password), k);
  }

  /** `IsPasswordPwned`: the count reaches the client's threshold. */
  function IsPasswordPwned(p: Platform, c: Client, password: string): (r: Result<bool, Error>)
    ensures r.Success? <==> GetNumberOfTimesPasswordPwned(p, c, password).Success?
    ensures r.Failure? ==> r.error == GetNumberOfTimesPasswordPwned(p, c, password).error
    ensures r.Success? ==> (r.value <==> GetNumberOfTimesPasswordPwned(p, c, password).value >= c.numberOfLeaksForPwn)
  {
    var count :- GetNumberOfTimesPasswordPwned(p, c, password);
    Success(count >= c.numberOfLeaksForPwn)
  }

  /** Raising the threshold never turns a non-pwned password into a pwned one. */
  lemma ThresholdMonotone(p: Platform, lower: Client, higher: Client, password: string)
    requires lower.apiAddress == higher.apiAddress
    requires lower.numberOfLeaksForPwn <= higher.numberOfLeaksForPwn
    requires IsPasswordPwned(p, higher, password) == Success(true)
    ensures IsPasswordPwned(p, lower, password) == Success(true)
  {
  }

  /** With the default threshold, "pwned" means "found at least once". */
  lemma DefaultThresholdIsAnyOccurrence(p: Platform, c: Client, password: string)
    requires c.numberOfLeaksForPwn == DefaultNumberOfLeaksForPwn
    ensures IsPasswordPwned(p, c, password) == Success(true) <==>
      GetNumberOfTimesPasswordPwned(p, c, password).Success? && GetNumberOfTimesPasswordPwned(p, c, password).value > 0
  {
  }

  predicate Pwned(p: Platform, c: Client, password: string) {
    IsPasswordPwned(p, c, password) == Success(true)
  }

  /** `GetPwned(params string[])`: `passwords.Where(IsPasswordPwned).ToList()`,
      evaluated in order; the first lookup that throws ends it. */
  function GetPwned(p: Platform, c: Client, passwords: seq<string>): (r: Result<seq<string>, Error>)
    ensures r.Success? <==> forall i :: 0 <= i < |passwords| ==> IsPasswordPwned(p, c, passwords[i]).Success?
    ensures r.Success? ==> |r.value| <= |passwords|
    ensures r.Success? ==> forall x :: x in r.value ==> x in passwords && Pwned(p, c, x)
    ensures r.Success? ==> forall i :: 0 <= i < |passwords| && Pwned(p, c, passwords[i]) ==> passwords[i] in r.value
  {
    WhereToList(passwords, password => IsPasswordPwned(p, c, password))
  }

  /** A single password is kept exactly when it is pwned. */
  lemma GetPwnedSingle(p: Platform, c: Client, password: string)
    requires IsPasswordPwned(p, c, password).Success?
    ensures GetPwned(p, c, [password]) ==
      Success(if IsPasswordPwned(p, c, password).value then [password] else [])
  {
    WhereSingle(password, password => IsPasswordPwned(p, c, password));
  }

  /** The filter distributes over concatenation and keeps input order: the
      result for `a + b` is the result for `a` followed by the result for `b`. */
  lemma GetPwnedAppend(p: Platform, c: Client, a: seq<string>, b: seq<string>)
    requires GetPwned(p, c, a).Success? && GetPwned(p, c, b).Success?
    ensures GetPwned(p, c, a + b) == Success(GetPwned(p, c, a).value + GetPwned(p, c, b).value)
  {
    WhereAppend(a, b, password => IsPasswordPwned(p, c, password));
  }

  /** The first password whose lookup fails decides the error; later ones are not looked up. */
  lemma GetPwnedFirstError(p: Platform, c: Client, passwords: seq<string>, k: nat)
    requires k < |passwords|
    requires forall i :: 0 <= i < k ==> IsPasswordPwned(p, c, passwords[i]).Success?
    requires IsPasswordPwned(p, c, passwords[k]).Failure?
    ensures GetPwned(p, c, passwords) == Failure(IsPasswordPwned(p, c, passwords[k]).error)
  {
    WhereFirstError(passwords, password => IsPasswordPwned(p, c, password), k);
  }

  /** `GetPwned(IEnumerable<string>)`: materialises the sequence and calls the array overload. */
  function GetPwnedEnumerable(p: Platform, c: Client, passwords: seq<string>): (r: Result<seq<string>, Error>)
    ensures r == GetPwned(p, c, passwords)
    ensures r.Success? ==> forall x :: x in r.value ==> x in passwords && Pwned(p, c, x)
  {
    var asArray := passwords;
    GetPwned(p, c, asArray)
  }
}
