/** Parsing of the range response and the first-match scan of
    `GetNumberOfTimesPasswordPwned`. Each line has the form `SUFFIX:COUNT`;
    the line is split on ':', field 0 is the hash suffix and field 1 is read
    with `int.Parse` BEFORE the suffix is compared, and the scan returns the
    count of the first line whose suffix equals the password's. */
module RangeResponse {
  import opened Wrappers
  import opened Runtime
  import opened Strings

  const Separator := ':'

  /** One parsed response line. */
  datatype RangeEntry = RangeEntry(suffix: string, count: int)

  /** `line.Split(':')`, then `splitLIne[0]` and `int.Parse(splitLIne[1])`.
      A line with no ':' has no field 1 (index out of range); fields after
      index 1 are never looked at. */
  function ParseLine(line: string): (r: Result<RangeEntry, Error>)
    ensures r == Failure(IndexOutOfRange(line)) <==> Separator !in line
    ensures r.Success? ==>
      && Separator !in r.value.suffix
      && |r.value.suffix| < |line|
      && line[..|r.value.suffix|] == r.value.suffix
      && line[|r.value.suffix|] == Separator
    ensures r.Success? ==> 0 <= r.value.count <= Int32Max
    ensures Separator in line ==>
      var i := IndexOf(line, Separator);
      var rest := line[i + 1..];
      var count := ParseInt32(rest[..IndexOf(rest, Separator)]);
      r == if count.Success? then Success(RangeEntry(line[..i], count.value)) else Failure(count.error)
  {
    var fields := Split(line, Separator);
    SplitFirstField(line, Separator);
    if |fields| < 2 then Failure(IndexOutOfRange(line))
    else
      SplitFirstField(line[IndexOf(line, Separator) + 1..], Separator);
      var count :- ParseInt32(fields[1]);
      Success(RangeEntry(fields[0], count))
  }

  /** The wire form of an entry, as the service writes it. */
  function FormatLine(e: RangeEntry): string
    requires e.count >= 0
  {
    e.suffix + [Separator] + DecimalString(e.count)
  }

  /** Parsing a well-formed line gives its entry back. */
  lemma ParseFormatLine(e: RangeEntry)
    requires Separator !in e.suffix
    requires 0 <= e.count <= Int32Max
    ensures ParseLine(FormatLine(e)) == Success(e)
  {
    var d := DecimalString(e.count);
    SplitCons(e.suffix, Separator, d);
    SplitNone(d, Separator);
  }

  /** Fields beyond index 1 do not affect the parse. */
  lemma ExtraFieldsIgnored(suffix: string, count: string, extra: string)
    requires Separator !in suffix && Separator !in count
    ensures ParseLine(suffix + [Separator] + count + [Separator] + extra)
         == ParseLine(suffix + [Separator] + count)
  {
    var long := suffix + [Separator] + (count + [Separator] + extra);
    assert long == suffix + [Separator] + count + [Separator] + extra;
    SplitCons(suffix, Separator, count + [Separator] + extra);
    SplitCons(count, Separator, extra);
    SplitCons(suffix, Separator, count);
    SplitNone(count, Separator);
  }

  lemma SplitCons(a: string, sep: char, t: string)
    requires sep !in a
    ensures Split(a + [sep] + t, sep) == [a] + Split(t, sep)
  {
    var s := a + [sep] + t;
    IndexOfAfter(a, sep, t);
    assert s[..|a|] == a;
    assert s[|a| + 1..] == t;
  }

  lemma SplitNone(a: string, sep: char)
    requires sep !in a
    ensures Split(a, sep) == [a]
  {
  }

  /** The scan of lines 85-102: parse each line in order, return the count of
      the first whose suffix equals `hashSuffix` (ordinal, case-sensitive),
      fail on the first line that does not parse, and give 0 at the end. */
  function MatchCount(lines: seq<string>, hashSuffix: string): (r: Result<int, Error>)
    ensures r.Success? ==> 0 <= r.value <= Int32Max
  {
    if |lines| == 0 then Success(0)
    else
      var entry :- ParseLine(lines[0]);
      if entry.suffix == hashSuffix then Success(entry.count)
      else MatchCount(lines[1..], hashSuffix)
  }

  /** Independent description of the scan: the first `k` lines all parse and
      none of them carries `hashSuffix`. */
  ghost predicate PassedOver(lines: seq<string>, hashSuffix: string, k: nat) {
    && k <= |lines|
    && forall i :: 0 <= i < k ==>
         ParseLine(lines[i]).Success? && ParseLine(lines[i]).value.suffix != hashSuffix
  }

  /** The scan stops at line `k`: it is the first line that fails to parse or matches. */
  ghost predicate StopsAt(lines: seq<string>, hashSuffix: string, k: nat) {
    && k < |lines|
    && PassedOver(lines, hashSuffix, k)
    && (ParseLine(lines[k]).Failure? || ParseLine(lines[k]).value.suffix == hashSuffix)
  }

  /** Passed-over lines contribute nothing: the scan continues with the rest. */
  lemma {:induction false} MatchCountSkips(lines: seq<string>, hashSuffix: string, k: nat)
    requires PassedOver(lines, hashSuffix, k)
    ensures MatchCount(lines, hashSuffix) == MatchCount(lines[k..], hashSuffix)
  {
    if k > 0 {
      assert ParseLine(lines[0]).Success?;
      assert PassedOver(lines[1..], hashSuffix, k - 1) by {
        forall i | 0 <= i < k - 1
          ensures ParseLine(lines[1..][i]).Success? && ParseLine(lines[1..][i]).value.suffix != hashSuffix
        {
          assert lines[1..][i] == lines[i + 1];
        }
      }
      MatchCountSkips(lines[1..], hashSuffix, k - 1);
      assert lines[1..][k - 1..] == lines[k..];
    }
  }

  /** No line carries the suffix and every line parses: the count is 0. */
  lemma NoMatchIsZero(lines: seq<string>, hashSuffix: string)
    requires PassedOver(lines, hashSuffix, |lines|)
    ensures MatchCount(lines, hashSuffix) == Success(0)
  {
  }

  /** The first matching line decides the count. */
  lemma FirstMatchWins(lines: seq<string>, hashSuffix: string, k: nat)
    requires PassedOver(lines, hashSuffix, k) && k < |lines|
    requires ParseLine(lines[k]).Success? && ParseLine(lines[k]).value.suffix == hashSuffix
    ensures MatchCount(lines, hashSuffix) == Success(ParseLine(lines[k]).value.count)
  {
    MatchCountSkips(lines, hashSuffix, k);
  }

  /** A malformed line reached before any match is the error of the scan. */
  lemma FirstMalformedFails(lines: seq<string>, hashSuffix: string, k: nat)
    requires PassedOver(lines, hashSuffix, k) && k < |lines|
    requires ParseLine(lines[k]).Failure?
    ensures MatchCount(lines, hashSuffix) == Failure(ParseLine(lines[k]).error)
  {
    MatchCountSkips(lines, hashSuffix, k);
  }

  /** Every body either is passed over entirely or stops at some line, so the
      three lemmas above describe every outcome of the scan. */
  lemma {:induction false} ScanTotal(lines: seq<string>, hashSuffix: string)
    ensures PassedOver(lines, hashSuffix, |lines|) || exists k: nat :: StopsAt(lines, hashSuffix, k)
  {
    if |lines| > 0 {
      var r := ParseLine(lines[0]);
      if r.Failure? || r.value.suffix == hashSuffix {
        assert StopsAt(lines, hashSuffix, 0);
      } else {
        ScanTotal(lines[1..], hashSuffix);
        if PassedOver(lines[1..], hashSuffix, |lines| - 1) {
          assert PassedOver(lines, hashSuffix, |lines|) by {
            forall i | 0 <= i < |lines|
              ensures ParseLine(lines[i]).Success? && ParseLine(lines[i]).value.suffix != hashSuffix
            {
              if i > 0 { assert lines[i] == lines[1..][i - 1]; }
            }
          }
        } else {
          var k: nat :| StopsAt(lines[1..], hashSuffix, k);
          assert StopsAt(lines, hashSuffix, k + 1) by {
            assert lines[k + 1] == lines[1..][k];
            forall i | 0 <= i < k + 1
              ensures ParseLine(lines[i]).Success? && ParseLine(lines[i]).value.suffix != hashSuffix
            {
              if i > 0 { assert lines[i] == lines[1..][i - 1]; }
            }
          }
        }
      }
    }
  }

  /** Lines after the one where the scan stops are never inspected: whatever
      follows, even malformed text, leaves the result unchanged. */
  lemma LaterLinesIgnored(lines: seq<string>, more: seq<string>, hashSuffix: string, k: nat)
    requires StopsAt(lines, hashSuffix, k)
    ensures MatchCount(lines + more, hashSuffix) == MatchCount(lines, hashSuffix)
  {
    var all := lines + more;
    assert PassedOver(all, hashSuffix, k) by {
      forall i | 0 <= i < k
        ensures ParseLine(all[i]).Success? && ParseLine(all[i]).value.suffix != hashSuffix
      {
        assert all[i] == lines[i];
      }
    }
    assert all[k] == lines[k];
    MatchCountSkips(all, hashSuffix, k);
    MatchCountSkips(lines, hashSuffix, k);
  }

  /** A count field that is not a number (such as `ABCDE:notanumber`) is an
      error, not a skipped line: it ends the scan even when the suffix matches. */
  lemma NonNumericCountIsMalformed(suffix: string, count: string, hashSuffix: string, k: nat)
    requires Separator !in suffix && Separator !in count
    requires k < |count| && !IsDigit(count[k])
    ensures MatchCount([suffix + [Separator] + count], hashSuffix) == Failure(Format(count))
  {
  }
}
