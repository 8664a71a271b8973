/** `Utils.GetSha1Hash`: the SHA-1 digest of the UTF-8 bytes of a string,
    rendered as upper-case hexadecimal, two digits per byte (format "X2").
    SHA-1 and UTF-8 are the platform's; what is modelled is the rendering. */
module Utils {
  import opened Wrappers
  import opened Runtime

  predicate IsUpperHexDigit(c: char) {
    '0' <= c <= '9' || 'A' <= c <= 'F'
  }

  predicate IsLowerHexDigit(c: char) {
    '0' <= c <= '9' || 'a' <= c <= 'f'
  }

  /** The "X2" digit for a nibble. */
  function HexDigit(n: int): (c: char)
    requires 0 <= n < 16
    ensures IsUpperHexDigit(c)
  {
    if n < 10 then ('0' as int + n) as char else ('A' as int + n - 10) as char
  }

  /** The "x2" digit for a nibble (the lower-case format the tests compare against). */
  function LowerHexDigit(n: int): (c: char)
    requires 0 <= n < 16
    ensures IsLowerHexDigit(c)
  {
    if n < 10 then ('0' as int + n) as char else ('a' as int + n - 10) as char
  }

  /** Reads one upper-case hex digit back; `None` for any other character. */
  function DigitValue(c: char): (r: Option<int>)
    ensures r.Some? <==> IsUpperHexDigit(c)
    ensures r.Some? ==> 0 <= r.value < 16 && HexDigit(r.value) == c
  {
    if '0' <= c <= '9' then Some(c as int - '0' as int)
    else if 'A' <= c <= 'F' then Some(c as int - 'A' as int + 10)
    else None
  }

  /** `b.ToString("X2")`: high nibble then low nibble. */
  function ByteToHex(b: Byte): string {
    [HexDigit(b as int / 16), HexDigit(b as int % 16)]
  }

  function ByteToLowerHex(b: Byte): string {
    [LowerHexDigit(b as int / 16), LowerHexDigit(b as int % 16)]
  }

  /** Hex rendering of a byte sequence: every byte in order, two digits each.
      Characters 2i and 2i+1 are the high and low nibble of byte i. */
  function Hex(bytes: seq<Byte>): (s: string)
    ensures |s| == 2 * |bytes|
    ensures forall i :: 0 <= i < |bytes| ==>
      s[2 * i] == HexDigit(bytes[i] as int / 16) && s[2 * i + 1] == HexDigit(bytes[i] as int % 16)
  {
    if |bytes| == 0 then "" else ByteToHex(bytes[0]) + Hex(bytes[1..])
  }

  /** The "x2" rendering, used only to state what the tests compare. */
  function LowerHex(bytes: seq<Byte>): string {
    if |bytes| == 0 then "" else ByteToLowerHex(bytes[0]) + LowerHex(bytes[1..])
  }

  /** Decoder: reads a hex string pair by pair. Fails on odd length or on a
      character outside `0-9A-F`. */
  function FromHex(s: string): (r: Option<seq<Byte>>)
    ensures r.Some? ==> 2 * |r.value| == |s|
  {
    if |s| == 0 then Some([])
    else if |s| == 1 then None
    else
      var hi :- DigitValue(s[0]);
      var lo :- DigitValue(s[1]);
      var rest :- FromHex(s[2..]);
      Some([(hi * 16 + lo) as Byte] + rest)
  }

  /** `char.ToLower` on ASCII letters; every other character is kept. */
  function LowerChar(c: char): char {
    if 'A' <= c <= 'Z' then (c as int + 32) as char else c
  }

  /** `string.ToLower` on ASCII text. */
  function ToLowerAscii(s: string): (t: string)
    ensures |t| == |s|
  {
    if |s| == 0 then "" else [LowerChar(s[0])] + ToLowerAscii(s[1..])
  }

  /** `Utils.GetSha1Hash(input)`. */
  function GetSha1Hash(p: Platform, input: string): (digest: string)
    ensures |digest| == 2 * Sha1Length
    ensures forall i :: 0 <= i < |digest| ==> IsUpperHexDigit(digest[i])
    ensures FromHex(digest) == Some(p.sha1(p.utf8(input)))
  {
    var bytes := p.sha1(p.utf8(input));
    HexAlphabet(bytes);
    HexRoundTrip(bytes);
    Hex(bytes)
  }

  /** The `foreach`/`StringBuilder.Append` loop of `GetSha1Hash`, appending
      two digits per byte; it builds exactly `Hex(bytes)`. */
  method AppendHexDigits(bytes: seq<Byte>) returns (s: string)
    ensures |s| == 2 * |bytes|
    ensures forall i :: 0 <= i < |bytes| ==>
      s[2 * i] == HexDigit(bytes[i] as int / 16) && s[2 * i + 1] == HexDigit(bytes[i] as int % 16)
    ensures s == Hex(bytes)
  {
    s := "";
    var k := 0;
    while k < |bytes|
      invariant 0 <= k <= |bytes|
      invariant |s| == 2 * k
      invariant forall i :: 0 <= i < k ==>
        s[2 * i] == HexDigit(bytes[i] as int / 16) && s[2 * i + 1] == HexDigit(bytes[i] as int % 16)
    {
      s := s + ByteToHex(bytes[k]);
      k := k + 1;
    }
    HexPositionsDetermine(bytes, s);
  }

  /** The positional description pins the rendering down: any string of the
      right length with those digits at those places is `Hex(bytes)`. */
  lemma {:induction false} HexPositionsDetermine(bytes: seq<Byte>, s: string)
    requires |s| == 2 * |bytes|
    requires forall i :: 0 <= i < |bytes| ==>
      s[2 * i] == HexDigit(bytes[i] as int / 16) && s[2 * i + 1] == HexDigit(bytes[i] as int % 16)
    ensures s == Hex(bytes)
  {
    if |bytes| > 0 {
      var rest, tail := bytes[1..], s[2..];
      forall i | 0 <= i < |rest|
        ensures tail[2 * i] == HexDigit(rest[i] as int / 16) && tail[2 * i + 1] == HexDigit(rest[i] as int % 16)
      {
        assert rest[i] == bytes[i + 1];
        assert tail[2 * i] == s[2 * (i + 1)] && tail[2 * i + 1] == s[2 * (i + 1) + 1];
      }
      HexPositionsDetermine(rest, tail);
      assert s[..2] == ByteToHex(bytes[0]);
      assert s == s[..2] + tail;
    }
  }

  /** Every rendered character is one of `0-9A-F`: no lower-case letters. */
  lemma {:induction false} HexAlphabet(bytes: seq<Byte>)
    ensures forall j :: 0 <= j < |Hex(bytes)| ==> IsUpperHexDigit(Hex(bytes)[j])
  {
    if |bytes| > 0 {
      HexAlphabet(bytes[1..]);
      assert Hex(bytes) == ByteToHex(bytes[0]) + Hex(bytes[1..]);
    }
  }

  /** Decoding the rendering pair by pair gives the bytes back. */
  lemma {:induction false} HexRoundTrip(bytes: seq<Byte>)
    ensures FromHex(Hex(bytes)) == Some(bytes)
  {
    if |bytes| > 0 {
      var b := bytes[0] as int;
      var s := Hex(bytes);
      assert s == ByteToHex(bytes[0]) + Hex(bytes[1..]);
      assert s[2..] == Hex(bytes[1..]);
      HexRoundTrip(bytes[1..]);
      assert DigitValue(s[0]) == Some(b / 16);
      assert DigitValue(s[1]) == Some(b % 16);
      assert [(b / 16 * 16 + b % 16) as Byte] + bytes[1..] == bytes;
    }
  }

  /** Conversely, whatever the decoder accepts is the rendering of what it returns. */
  lemma {:induction false} FromHexSound(s: string)
    requires FromHex(s).Some?
    ensures Hex(FromHex(s).value) == s
  {
    if |s| >= 2 {
      var hi := DigitValue(s[0]).value;
      var lo := DigitValue(s[1]).value;
      FromHexSound(s[2..]);
      var b := (hi * 16 + lo) as Byte;
      assert b as int / 16 == hi && b as int % 16 == lo;
      assert FromHex(s).value == [b] + FromHex(s[2..]).value;
      assert s == [s[0], s[1]] + s[2..];
    }
  }

  /** The rendering is injective: distinct byte sequences give distinct digests. */
  lemma HexInjective(a: seq<Byte>, b: seq<Byte>)
    requires Hex(a) == Hex(b)
    ensures a == b
  {
  }

  /** Lower-casing the "X2" rendering gives the "x2" rendering of the same
      bytes, which is how the tests compare digests. */
  lemma {:induction false} LowerCaseOfHex(bytes: seq<Byte>)
    ensures ToLowerAscii(Hex(bytes)) == LowerHex(bytes)
  {
    if |bytes| > 0 {
      var b := bytes[0] as int;
      var pair := ByteToHex(bytes[0]);
      LowerCaseOfHex(bytes[1..]);
      ToLowerAsciiAppend(pair, Hex(bytes[1..]));
      LowerDigit(b / 16);
      LowerDigit(b % 16);
      assert pair[1..] == [pair[1]];
      assert ToLowerAscii(pair) == [LowerChar(pair[0]), LowerChar(pair[1])];
    }
  }

  /** Lower-casing an "X2" digit gives the "x2" digit of the same nibble. */
  lemma LowerDigit(n: int)
    requires 0 <= n < 16
    ensures LowerChar(HexDigit(n)) == LowerHexDigit(n)
  {
  }

  lemma {:induction false} ToLowerAsciiAppend(a: string, b: string)
    ensures ToLowerAscii(a + b) == ToLowerAscii(a) + ToLowerAscii(b)
  {
    if |a| > 0 {
      assert (a + b)[1..] == a[1..] + b;
      assert (a + b)[0] == a[0];
      ToLowerAsciiAppend(a[1..], b);
      var c := [LowerChar(a[0])];
      assert ToLowerAscii(a + b) == c + (ToLowerAscii(a[1..]) + ToLowerAscii(b));
      assert c + (ToLowerAscii(a[1..]) + ToLowerAscii(b)) == c + ToLowerAscii(a[1..]) + ToLowerAscii(b);
    } else {
      assert a + b == b;
    }
  }

  /** Rendering is byte by byte: the digits of `a + b` are those of `a`, then those of `b`. */
  lemma {:induction false} HexAppend(a: seq<Byte>, b: seq<Byte>)
    ensures Hex(a + b) == Hex(a) + Hex(b)
  {
    if |a| > 0 {
      assert (a + b)[1..] == a[1..] + b;
      assert (a + b)[0] == a[0];
      HexAppend(a[1..], b);
      assert ByteToHex(a[0]) + (Hex(a[1..]) + Hex(b)) == ByteToHex(a[0]) + Hex(a[1..]) + Hex(b);
    } else {
      assert a + b == b;
    }
  }

  /** Equal inputs give equal digests; inputs whose digests differ had different SHA-1 bytes. */
  lemma GetSha1HashDeterminesBytes(p: Platform, a: string, b: string)
    ensures GetSha1Hash(p, a) == GetSha1Hash(p, b) <==> p.sha1(p.utf8(a)) == p.sha1(p.utf8(b))
  {
  }
}
