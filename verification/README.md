# HaveIBeenPwned password client — a Dafny model

This project models the client library `HaveIBeenPwned.Password`. The library checks a
password against the Pwned Passwords breach corpus using a k-anonymity range query:

1. It computes the SHA-1 digest of the password's UTF-8 bytes and renders it as 40
   upper-case hex digits (`Utils.GetSha1Hash`).
2. It sends only the first five digits to `{apiAddress}/{prefix}`.
3. It scans the `SUFFIX:COUNT` lines of the answer for the other 35 digits.
4. It compares the count found against a configured threshold (`IsPasswordPwned`). The
   batch filter `GetPwned` keeps the passwords that pass.

The model is functional. The client is an immutable `Client` record. Each operation that can
throw in C# is a pure function returning `Result<_, Error>`; the helpers that cannot throw
(`DefaultClient`, `SplitHash`, `RequestAddress`, `GetSha1Hash`) return plain values. The
exceptions the modelled code raises from its own checks and parsing become `Error` values named
after their .NET types. Transport exceptions and null-argument exceptions are not modelled
(see "Left out"):

- `UriFormat` and `ArgumentOutOfRange` are the configuration errors.
- `IndexOutOfRange`, `Format` and `Overflow` are the malformed-response errors.

The collaborators the library only calls are fields of a `Platform` value: the UTF-8
encoder, SHA-1, `Uri.IsWellFormedUriString` and `WebClient.OpenRead`. Every operation takes
that value as a parameter, so each property is proved for every possible choice of these
functions. The transport's answer is `None` when `OpenRead` returns a null stream; otherwise
it is the body's lines in order.

Files:

- `wrappers.dfy`: `Option` and `Result`.
- `runtime.dfy`: bytes, the `Platform` record and `Error`.
- `utils.dfy`: hex rendering of the digest.
- `strings.dfy`: `string.Split`, `string.TrimEnd` and `int.Parse`, as far as the client uses
  them.
- `range_response.dfy`: line parsing and the first-match scan.
- `linq.dfy`: `Where(...).ToList()` with a predicate that may throw.
- `have_i_been_pwned.dfy`: constructors, lookup, threshold test and batch filter.

Behaviour of the code worth noting:

- The service publishes one `SUFFIX:COUNT` entry per line. The code reads only fields 0 and 1
  of `line.Split(':')` and ignores any further fields, so a line with more than two
  `:`-separated fields is accepted (`RangeResponse.ExtraFieldsIgnored`).
- The count is parsed before the suffix is compared. A malformed count therefore fails the
  lookup even on a line whose suffix does not match, if that line comes before the match.
- `TrimEnd('/')` strips the whole run of trailing `/` characters.
- `GetPwned` looks passwords up one after another. The first lookup that throws ends the
  call, and the passwords after it are never looked up.
- The doc comment of `GetSha1Hash` (Utils.cs line 15) says the result is lower case. The code
  formats with `"X2"`, which is upper case, and the model follows the code.

## Model

| member | source | states |
|---|---|---|
| Utils.Hex | HaveIBeenPwned.Password/Utils.cs:21-27 | the rendering has exactly two characters per byte; characters 2i and 2i+1 are the "X2" digits of the high and low nibble of byte i |
| Utils.AppendHexDigits | HaveIBeenPwned.Password/Utils.cs:21-29 | the StringBuilder loop appends two digits per byte and produces exactly the byte-by-byte rendering |
| Utils.HexPositionsDetermine | HaveIBeenPwned.Password/Utils.cs:23-27 | any string of length 2n with the nibble digits at positions 2i and 2i+1 is the rendering, so the positional description defines it uniquely |
| Utils.HexAppend | HaveIBeenPwned.Password/Utils.cs:23-27 | rendering works byte by byte: the rendering of a + b is the rendering of a followed by that of b |
| Utils.HexAlphabet | HaveIBeenPwned.Password/Utils.cs:25-26 | every rendered character is in 0-9A-F, with no lower-case letters |
| Utils.HexRoundTrip | HaveIBeenPwned.Password/Utils.cs:23-27 | decoding the rendering pair by pair returns the original bytes |
| Utils.FromHexSound | HaveIBeenPwned.Password/Utils.cs:23-27 | any string the decoder accepts is the rendering of the bytes it returns, the converse of the round trip |
| Utils.HexInjective | HaveIBeenPwned.Password/Utils.cs:23-27 | different byte sequences never render to the same digest |
| Utils.GetSha1Hash | HaveIBeenPwned.Password/Utils.cs:16-30 | the digest has 40 characters, all upper-case hex, and decodes to the SHA-1 bytes of the UTF-8 encoding of the input |
| Utils.GetSha1HashDeterminesBytes | HaveIBeenPwned.Password/Utils.cs:16-30 | two inputs get the same digest string if and only if their SHA-1 bytes are equal |
| Utils.LowerDigit | HaveIBeenPwned.Password/Utils.cs:25-26 | lower-casing an "X2" digit gives the "x2" digit of the same nibble |
| Utils.LowerCaseOfHex | HaveIBeenPwned.Password/Utils.cs:25-26 | lower-casing the "X2" rendering gives the "x2" rendering of the same bytes, which is the form the tests compare |
| Strings.Split | HaveIBeenPwned.Password/HaveIBeenPwned.cs:95 | Split(':') gives at least one field, no field contains ':', and joining the fields with ':' gives back the line |
| Strings.SplitFirstField | HaveIBeenPwned.Password/HaveIBeenPwned.cs:95-97 | field 0 is the text before the first ':'; there is only one field exactly when the line has no ':' |
| Strings.SplitJoin | HaveIBeenPwned.Password/HaveIBeenPwned.cs:95 | splitting a ':'-join of fields without ':' returns those fields |
| Strings.TrimEnd | HaveIBeenPwned.Password/HaveIBeenPwned.cs:45 | the result is a prefix of the input that does not end in '/', and everything removed is '/' |
| Strings.TrimEndIdempotent | HaveIBeenPwned.Password/HaveIBeenPwned.cs:45 | trimming an already trimmed address changes nothing |
| Strings.ParseInt32 | HaveIBeenPwned.Password/HaveIBeenPwned.cs:98 | parsing succeeds exactly for a non-empty string of digits whose value fits Int32, and the result is that string's decimal value (leading zeros allowed, so "007" gives 7); the error is Format for a non-digit or empty field and Overflow for a value that is too large |
| Strings.ParseDecimalString | HaveIBeenPwned.Password/HaveIBeenPwned.cs:98 | parsing the decimal rendering of any count from 0 to Int32.MaxValue returns that count |
| Strings.ParseRejectsNonDigit | HaveIBeenPwned.Password/HaveIBeenPwned.cs:98 | a field with any non-digit character fails with Format |
| RangeResponse.ParseLine | HaveIBeenPwned.Password/HaveIBeenPwned.cs:95-98 | a line fails with IndexOutOfRange exactly when it has no ':'; otherwise the result is the text before the first ':' paired with the parse of the text between the first ':' and the next one (or the end), and a Format or Overflow error from that parse is passed through unchanged |
| RangeResponse.ParseFormatLine | HaveIBeenPwned.Password/HaveIBeenPwned.cs:92-98 | a line written as SUFFIX:COUNT parses back to that suffix and count |
| RangeResponse.ExtraFieldsIgnored | HaveIBeenPwned.Password/HaveIBeenPwned.cs:95-98 | fields after index 1 do not change how a line parses |
| RangeResponse.MatchCount | HaveIBeenPwned.Password/HaveIBeenPwned.cs:85-106 | a successful scan returns a count between 0 and Int32.MaxValue |
| RangeResponse.MatchCountSkips | HaveIBeenPwned.Password/HaveIBeenPwned.cs:85-102 | lines that parse and do not match are skipped: the scan continues with the remaining lines |
| RangeResponse.NoMatchIsZero | HaveIBeenPwned.Password/HaveIBeenPwned.cs:85-106 | when every line parses and none carries the suffix, the count is 0 |
| RangeResponse.FirstMatchWins | HaveIBeenPwned.Password/HaveIBeenPwned.cs:97-101 | the count is the one on the first line, in order, whose field 0 equals the suffix exactly |
| RangeResponse.FirstMalformedFails | HaveIBeenPwned.Password/HaveIBeenPwned.cs:95-100 | a line that fails to parse before any match makes the scan fail with that line's error |
| RangeResponse.ScanTotal | HaveIBeenPwned.Password/HaveIBeenPwned.cs:85-106 | every body is either read to the end without a stop or stops at a first malformed or matching line, so the three cases above cover every outcome |
| RangeResponse.LaterLinesIgnored | HaveIBeenPwned.Password/HaveIBeenPwned.cs:100-101 | lines after the stopping line, malformed ones included, never change the result |
| RangeResponse.NonNumericCountIsMalformed | HaveIBeenPwned.Password/HaveIBeenPwned.cs:97-100 | a line such as ABCDE:notanumber is a Format error, whatever suffix is being searched for, because the count is parsed before the comparison |
| Linq.WhereToList | HaveIBeenPwned.Password/HaveIBeenPwned.cs:129-131 | the filter succeeds exactly when every predicate call succeeds; the result is no longer than the input, holds only kept inputs, and holds every kept input |
| Linq.WhereSingle | HaveIBeenPwned.Password/HaveIBeenPwned.cs:129-131 | a single element is kept exactly when the predicate holds of it |
| Linq.WhereAppend | HaveIBeenPwned.Password/HaveIBeenPwned.cs:129-131 | filtering a + b gives the result for a followed by the result for b, so input order is kept |
| Linq.WhereFirstError | HaveIBeenPwned.Password/HaveIBeenPwned.cs:129-131 | the first element whose predicate throws determines the error |
| HaveIBeenPwned.NewClient | HaveIBeenPwned.Password/HaveIBeenPwned.cs:27-33 | succeeds exactly for a threshold of at least 1, otherwise fails with ArgumentOutOfRange; the client gets the default address and the given threshold |
| HaveIBeenPwned.DefaultClient | HaveIBeenPwned.Password/HaveIBeenPwned.cs:17-18 | the parameterless constructor gives https://api.pwnedpasswords.com/range with threshold 1 |
| HaveIBeenPwned.NewClientForAddress | HaveIBeenPwned.Password/HaveIBeenPwned.cs:40-46 | succeeds exactly for a well-formed URI, otherwise fails with UriFormat; the stored address is the input without its trailing '/' run, and the threshold stays 1 |
| HaveIBeenPwned.NewClientForAddressWithThreshold | HaveIBeenPwned.Password/HaveIBeenPwned.cs:55-61 | the URI is checked first, so an invalid URI is reported even when the threshold is also invalid; otherwise a threshold below 1 fails; on success the address is trimmed as in the one-argument constructor |
| HaveIBeenPwned.SplitHash | HaveIBeenPwned.Password/HaveIBeenPwned.cs:73-75 | the prefix has five characters, and prefix followed by suffix is the digest |
| HaveIBeenPwned.RequestAddress | HaveIBeenPwned.Password/HaveIBeenPwned.cs:73-79 | the URL is the stored address, one '/', then the first five digest characters, and nothing more |
| HaveIBeenPwned.DigestSplit | HaveIBeenPwned.Password/HaveIBeenPwned.cs:73-75 | the suffix has 35 characters, all upper-case hex, so the case-sensitive comparison never matches a lower-case line |
| HaveIBeenPwned.RequestRevealsOnlyPrefix | HaveIBeenPwned.Password/HaveIBeenPwned.cs:74-79 | two passwords whose digests share the first five characters send the same request |
| HaveIBeenPwned.GetNumberOfTimesPasswordPwned | HaveIBeenPwned.Password/HaveIBeenPwned.cs:71-107 | an absent body gives 0, not an error; any count returned is between 0 and Int32.MaxValue |
| HaveIBeenPwned.LookupFirstMatch | HaveIBeenPwned.Password/HaveIBeenPwned.cs:85-101 | the lookup returns the count of the first response line that carries the digest suffix |
| HaveIBeenPwned.LookupNoMatch | HaveIBeenPwned.Password/HaveIBeenPwned.cs:85-106 | a well-formed body with no matching line gives 0 |
| HaveIBeenPwned.LookupMalformed | HaveIBeenPwned.Password/HaveIBeenPwned.cs:95-100 | a malformed line before any match makes the lookup fail with that line's error |
| HaveIBeenPwned.IsPasswordPwned | HaveIBeenPwned.Password/HaveIBeenPwned.cs:115-119 | fails exactly when the lookup fails, with the same error; otherwise true if and only if the count is at least the threshold |
| HaveIBeenPwned.ThresholdMonotone | HaveIBeenPwned.Password/HaveIBeenPwned.cs:115-119 | a password that is pwned under a threshold is also pwned under any lower threshold |
| HaveIBeenPwned.DefaultThresholdIsAnyOccurrence | HaveIBeenPwned.Password/HaveIBeenPwned.cs:115-119 | with the default threshold 1, pwned means found at least once |
| HaveIBeenPwned.GetPwned | HaveIBeenPwned.Password/HaveIBeenPwned.cs:127-132 | succeeds exactly when every lookup succeeds; the result holds only pwned inputs and every pwned input, and is no longer than the input |
| HaveIBeenPwned.GetPwnedSingle | HaveIBeenPwned.Password/HaveIBeenPwned.cs:127-132 | a single password is returned exactly when it is pwned |
| HaveIBeenPwned.GetPwnedAppend | HaveIBeenPwned.Password/HaveIBeenPwned.cs:127-132 | the result for a + b is the result for a followed by the result for b, so the output is the order-preserving subsequence of pwned inputs |
| HaveIBeenPwned.GetPwnedFirstError | HaveIBeenPwned.Password/HaveIBeenPwned.cs:127-132 | the first password whose lookup fails determines the error |
| HaveIBeenPwned.GetPwnedEnumerable | HaveIBeenPwned.Password/HaveIBeenPwned.cs:140-143 | the enumerable overload gives the same result as the array overload |

## Left out

- SHA-1 (`SHA1Managed`) and `Encoding.UTF8.GetBytes` are library primitives. They are
  uninterpreted fields of `Platform`; SHA-1 is only constrained to return 20 bytes. So the
  expected digests in the tests (for example that "password" hashes to 5BAA61E4…) are not
  stated.
- `Uri.IsWellFormedUriString` is an uninterpreted predicate. The tests' "invaliduri"
  (rejected) and "https://api.pwnedpasswords.com/range" (accepted) hold exactly when that
  predicate gives those answers.
- The `WebClient` network transport and `WebException` (unknown host, network failure) are
  left out; the transport is a total function from URL to an optional body.
- `StreamReader` mechanics are left out. The body is given already split into lines, and the
  `line == null` branch (lines 89-90) cannot be reached from a non-empty stream.
- Strings.ParseInt32: `int.Parse` is modelled for unsigned decimal digits with the Int32
  overflow check. Leading or trailing whitespace and a leading sign are not modelled, so a
  count such as "-5" or " 5" is a Format error here. As a consequence, the lower bound 0 that
  `RangeResponse.ParseLine`, `RangeResponse.MatchCount` and
  `HaveIBeenPwned.GetNumberOfTimesPasswordPwned` promise for a count holds only for this
  parser: the C# method returns -5 for a matching line `SUFFIX:-5`.
- Null arguments are not modelled. A null password (`Encoding.UTF8.GetBytes(null)`) or a null
  password array (`Where` on null) throws `ArgumentNullException` in C#; Dafny values cannot
  be null.
- The exception message texts are not modelled.
- The concrete answers of the live service in the tests are not modelled: which passwords are
  pwned, and how often. They depend on external data.
