/** The three .NET string operations the client relies on, as far as it uses
    them: `string.Split(char)`, `string.TrimEnd(char)` and `int.Parse`. */
module Strings {
  import opened Wrappers
  import opened Runtime

  /** Position of the first `c` in `s`, or `|s|` when there is none. */
  function IndexOf(s: string, c: char): (i: nat)
    ensures i <= |s|
    ensures c !in s[..i]
    ensures i < |s| ==> s[i] == c
  {
    if |s| == 0 then 0
    else if s[0] == c then 0
    else
      var k := IndexOf(s[1..], c);
      assert s[..k + 1] == [s[0]] + s[1..][..k];
      k + 1
  }

  /** Joins fields with one separator between neighbours (`string.Join`). */
  function Join(fields: seq<string>, sep: char): string
    requires |fields| >= 1
  {
    if |fields| == 1 then fields[0] else fields[0] + [sep] + Join(fields[1..], sep)
  }

  /** `s.Split(sep)`: every field, empty ones included, in order. There is
      always at least one field; no field holds the separator; joining the
      fields back gives `s`. */
  function Split(s: string, sep: char): (fields: seq<string>)
    ensures |fields| >= 1
    ensures forall k :: 0 <= k < |fields| ==> sep !in fields[k]
    ensures Join(fields, sep) == s
    decreases |s|
  {
    var i := IndexOf(s, sep);
    if i == |s| then
      assert s[..i] == s;
      [s]
    else
      var rest := Split(s[i + 1..], sep);
      assert s == s[..i] + [sep] + s[i + 1..];
      [s[..i]] + rest
  }

  /** Field 0 is the text before the first separator (all of `s` when there is none). */
  lemma SplitFirstField(s: string, sep: char)
    ensures Split(s, sep)[0] == s[..IndexOf(s, sep)]
    ensures |Split(s, sep)| == 1 <==> sep !in s
  {
  }

  /** Splitting a join of separator-free fields gives the fields back. */
  lemma {:induction false} SplitJoin(fields: seq<string>, sep: char)
    requires |fields| >= 1
    requires forall k :: 0 <= k < |fields| ==> sep !in fields[k]
    ensures Split(Join(fields, sep), sep) == fields
  {
    var s := Join(fields, sep);
    var f := fields[0];
    if |fields| == 1 {
      IndexOfAbsent(f, sep);
    } else {
      var t := Join(fields[1..], sep);
      assert s == f + [sep] + t;
      IndexOfAfter(f, sep, t);
      assert s[..|f|] == f;
      assert s[|f| + 1..] == t;
      SplitJoin(fields[1..], sep);
      assert fields == [f] + fields[1..];
    }
  }

  lemma IndexOfAbsent(s: string, c: char)
    requires c !in s
    ensures IndexOf(s, c) == |s|
  {
  }

  /** The first separator of `a + [c] + b`, when `a` has none, is right after `a`. */
  lemma IndexOfAfter(a: string, c: char, b: string)
    requires c !in a
    ensures IndexOf(a + [c] + b, c) == |a|
  {
    if |a| > 0 {
      assert a[0] in a;
      assert (a + [c] + b)[1..] == a[1..] + [c] + b;
      IndexOfAfter(a[1..], c, b);
    }
  }

  /** `s.TrimEnd(c)`: `s` without its trailing run of `c`. */
  function TrimEnd(s: string, c: char): (t: string)
    ensures |t| <= |s| && t == s[..|t|]
    ensures |t| == 0 || t[|t| - 1] != c
    ensures forall k :: |t| <= k < |s| ==> s[k] == c
  {
    if |s| == 0 then s
    else if s[|s| - 1] == c then TrimEnd(s[..|s| - 1], c)
    else s
  }

  /** Trimming twice trims nothing more. */
  lemma TrimEndIdempotent(s: string, c: char)
    ensures TrimEnd(TrimEnd(s, c), c) == TrimEnd(s, c)
  {
  }

  /** `Int32.MaxValue`: `int.Parse` overflows above it. */
  const Int32Max := 0x7FFF_FFFF

  predicate IsDigit(c: char) {
    '0' <= c <= '9'
  }

  predicate AllDigits(s: string) {
    forall k :: 0 <= k < |s| ==> IsDigit(s[k])
  }

  /** Value of a string of decimal digits, most significant first. */
  function DigitsValue(s: string): nat
    requires AllDigits(s)
  {
    if |s| == 0 then 0
    else DigitsValue(s[..|s| - 1]) * 10 + (s[|s| - 1] as int - '0' as int)
  }

  /** Decimal rendering of a natural number (`n.ToString()`), the inverse of parsing. */
  function DecimalString(n: nat): (s: string)
    ensures |s| >= 1 && AllDigits(s)
    ensures DigitsValue(s) == n
  {
    var d := [('0' as int + n % 10) as char];
    if n < 10 then d
    else
      var s := DecimalString(n / 10) + d;
      assert s[..|s| - 1] == DecimalString(n / 10);
      s
  }

  /** `int.Parse` for the unsigned decimal counts the service sends. */
  function ParseInt32(s: string): (r: Result<int, Error>)
    ensures r.Success? ==> 0 <= r.value <= Int32Max
    ensures r.Success? ==> AllDigits(s) && r.value == DigitsValue(s)
    ensures r.Success? <==> |s| >= 1 && AllDigits(s) && DigitsValue(s) <= Int32Max
    ensures r.Failure? && (|s| == 0 || !AllDigits(s)) ==> r.error == Format(s)
    ensures r.Failure? && |s| >= 1 && AllDigits(s) ==> r.error == Overflow(s)
  {
    if |s| == 0 || !AllDigits(s) then Failure(Format(s))
    else if DigitsValue(s) > Int32Max then Failure(Overflow(s))
    else Success(DigitsValue(s))
  }

  /** Parsing the rendering of any Int32-range count gives the count back. */
  lemma ParseDecimalString(n: nat)
    requires n <= Int32Max
    ensures ParseInt32(DecimalString(n)) == Success(n)
  {
  }

  /** A character other than a digit anywhere in the field makes it a format error. */
  lemma ParseRejectsNonDigit(s: string, k: nat)
    requires k < |s| && !IsDigit(s[k])
    ensures ParseInt32(s) == Failure(Format(s))
  {
  }
}
