/** The collaborators the library calls but does not implement: the .NET
    UTF-8 encoder, the SHA-1 primitive (FIPS 180-4), `Uri.IsWellFormedUriString`
    and `WebClient.OpenRead`. They stay uninterpreted: every operation that
    needs them takes a `Platform` value and promises its result for ANY such
    platform. The exceptions the library can raise become the `Error` values. */
module Runtime {
  import opened Wrappers

  newtype Byte = x: int | 0 <= x < 256

  /** Length in bytes of a SHA-1 digest (160 bits). */
  const Sha1Length := 20

  type Sha1Digest = s: seq<Byte> | |s| == Sha1Length
    witness seq(Sha1Length, _ => 0 as Byte)

  datatype Platform = Platform(
    /** `Encoding.UTF8.GetBytes` */
    utf8: string -> seq<Byte>,
    /** `SHA1Managed.ComputeHash`: always 20 bytes */
    sha1: seq<Byte> -> Sha1Digest,
    /** `Uri.IsWellFormedUriString(address, UriKind.Absolute)` */
    isWellFormedUri: string -> bool,
    /** `WebClient.OpenRead(url)` read through a `StreamReader`: `None` when
        the stream is null, otherwise the lines of the body in order */
    openRead: string -> Option<seq<string>>)

  /** The exceptions of the library, named after the .NET types thrown. */
  datatype Error =
    | UriFormat(address: string)          // constructor: address not a well-formed absolute URI
    | ArgumentOutOfRange(threshold: int)  // constructor: threshold below 1
    | IndexOutOfRange(line: string)       // response line without a ':' (no field 1)
    | Format(field: string)               // count field is not a decimal number
    | Overflow(field: string)             // count field exceeds Int32.MaxValue
}
