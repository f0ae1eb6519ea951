/** The string operations the report and the architecture label rely on:
    joining with a separator, Rust's `str::replace(pat, "")`, `ends_with`,
    left-aligned padding (`{:<N}`) and alternate lower-case hex (`{:#x}`). */
module Strings {

  /** The parts separated by `sep`, as Rust's `[..].join(sep)`: nothing for
      no parts, no separator before the first part or after the last. */
  function Join(parts: seq<string>, sep: string): (r: string)
    ensures parts != [] ==> StartsWith(r, parts[0]) && EndsWith(r, parts[|parts| - 1])
    ensures |parts| > 1 ==> EndsWith(r, sep + parts[|parts| - 1])
    decreases |parts|
  {
    if parts == [] then ""
    else if |parts| == 1 then parts[0]
    else
      var init := Join(parts[..|parts| - 1], sep);
      assert (init + sep + parts[|parts| - 1])[..|parts[0]|] == init[..|parts[0]|];
      init + sep + parts[|parts| - 1]
  }

  /** Joining one more part appends the separator and that part. */
  lemma JoinSnoc(parts: seq<string>, part: string, sep: string)
    requires parts != []
    ensures Join(parts + [part], sep) == Join(parts, sep) + sep + part
  {
    assert (parts + [part])[..|parts|] == parts;
  }

  /** Joining three parts puts the separator exactly twice. */
  lemma {:induction false} JoinThree(a: string, b: string, c: string, sep: string)
    ensures Join([a, b, c], sep) == a + sep + b + sep + c
  {
    assert [a, b, c] == [a, b] + [c];
    JoinSnoc([a, b], c, sep);
    assert [a, b] == [a] + [b];
    JoinSnoc([a], b, sep);
  }

  predicate StartsWith(s: string, prefix: string)
  {
    |prefix| <= |s| && s[..|prefix|] == prefix
  }

  /** Rust's `str::ends_with`. */
  predicate EndsWith(s: string, suffix: string)
  {
    |suffix| <= |s| && s[|s| - |suffix|..] == suffix
  }

  /** `pat` occurs in `s` starting at index `i`. */
  predicate OccursAt(s: string, pat: string, i: nat)
  {
    i + |pat| <= |s| && s[i..i + |pat|] == pat
  }

  /** Rust's `s.replace(pat, "")`: scans left to right and drops every
      non-overlapping occurrence of `pat`, without rescanning what the
      removal joins together. */
  function RemoveAll(s: string, pat: string): (r: string)
    requires pat != []
    ensures |r| <= |s|
    ensures |r| == |s| ==> r == s
    ensures StartsWith(s, pat) ==> |r| <= |s| - |pat|
    decreases |s|
  {
    if |s| < |pat| then s
    else if s[..|pat|] == pat then RemoveAll(s[|pat|..], pat)
    else [s[0]] + RemoveAll(s[1..], pat)
  }

  /** Where `pat` does not occur, removing it changes nothing. */
  lemma {:induction false} RemoveAllAbsent(s: string, pat: string)
    requires pat != []
    requires forall i: nat :: !OccursAt(s, pat, i)
    ensures RemoveAll(s, pat) == s
  {
    if |s| >= |pat| {
      assert !OccursAt(s, pat, 0);
      assert s[..|pat|] != pat;
      forall i: nat ensures !OccursAt(s[1..], pat, i) {
        assert !OccursAt(s, pat, i + 1);
        if i + |pat| <= |s[1..]| {
          assert s[1..][i..i + |pat|] == s[i + 1..i + 1 + |pat|];
        }
      }
      RemoveAllAbsent(s[1..], pat);
      assert [s[0]] + s[1..] == s;
    }
  }

  /** Removing a prefix occurrence, then the rest. */
  lemma RemoveAllPrefix(rest: string, pat: string)
    requires pat != []
    ensures RemoveAll(pat + rest, pat) == RemoveAll(rest, pat)
  {
    assert (pat + rest)[..|pat|] == pat;
    assert (pat + rest)[|pat|..] == rest;
  }

  /** The removal is a single pass: what two removed halves join up to is kept. */
  lemma RemoveAllSinglePass()
    ensures RemoveAll("EELFLF", "ELF") == "ELF"
  {
    assert "EELFLF"[..3][1] != "ELF"[1];
    assert "EELFLF"[1..] == "ELFLF";
    assert "ELFLF"[..3] == "ELF";
    assert "ELFLF"[3..] == "LF";
  }

  /** A run of `n` spaces. */
  function Spaces(n: nat): (r: string)
    ensures |r| == n && forall k :: 0 <= k < n ==> r[k] == ' '
  {
    if n == 0 then "" else Spaces(n - 1) + " "
  }

  /** Rust's `{:<width}` on a string: the string, then spaces up to `width`
      characters; a longer string is left as it is. */
  function PadRight(s: string, width: nat): (r: string)
    ensures |r| == if |s| < width then width else |s|
    ensures r[..|s|] == s
    ensures forall k :: |s| <= k < |r| ==> r[k] == ' '
  {
    if |s| < width then s + Spaces(width - |s|) else s
  }

  /** The lower-case hexadecimal digit for `d`. */
  function HexDigit(d: nat): (c: char)
    requires d < 16
  {
    if d < 10 then ('0' as int + d) as char else ('a' as int + d - 10) as char
  }

  predicate IsHexDigit(c: char)
  {
    ('0' <= c <= '9') || ('a' <= c <= 'f')
  }

  /** The value of a lower-case hexadecimal digit. */
  function DigitValue(c: char): (d: nat)
    requires IsHexDigit(c)
    ensures d < 16
  {
    if '0' <= c <= '9' then c as int - '0' as int else c as int - 'a' as int + 10
  }

  lemma DigitRoundTrip(d: nat)
    requires d < 16
    ensures IsHexDigit(HexDigit(d)) && DigitValue(HexDigit(d)) == d
  {
  }

  /** The digits of `{:x}`: lower case, most significant first, no leading
      zero, and "0" for zero. */
  function LowerHex(n: nat): (r: string)
    ensures r != []
    ensures forall k :: 0 <= k < |r| ==> IsHexDigit(r[k])
    ensures r[0] == '0' <==> n == 0
    decreases n
  {
    if n < 16 then [HexDigit(n)] else LowerHex(n / 16) + [HexDigit(n % 16)]
  }

  /** The number a string of hexadecimal digits denotes. */
  function HexValue(s: string): (n: nat)
    requires forall k :: 0 <= k < |s| ==> IsHexDigit(s[k])
    decreases |s|
  {
    if s == [] then 0 else HexValue(s[..|s| - 1]) * 16 + DigitValue(s[|s| - 1])
  }

  /** Reading back the digits `{:x}` printed gives the number again. */
  lemma {:induction false} HexRoundTrip(n: nat)
    ensures HexValue(LowerHex(n)) == n
    decreases n
  {
    if n < 16 {
      DigitRoundTrip(n);
      assert [HexDigit(n)][..0] == [];
    } else {
      var hi := LowerHex(n / 16);
      DigitRoundTrip(n % 16);
      assert (hi + [HexDigit(n % 16)])[..|hi|] == hi;
      HexRoundTrip(n / 16);
    }
  }

  /** `{:#x}`: the digits behind the prefix "0x". */
  function AltLowerHex(n: nat): (r: string)
  {
    "0x" + LowerHex(n)
  }

  /** The text `{:#x}` prints starts with "0x" and the number reads back from the rest. */
  lemma AltLowerHexRoundTrip(n: nat)
    ensures StartsWith(AltLowerHex(n), "0x")
    ensures var digits := AltLowerHex(n)[2..];
      (forall k :: 0 <= k < |digits| ==> IsHexDigit(digits[k])) && HexValue(digits) == n
  {
    assert AltLowerHex(n)[2..] == LowerHex(n);
    HexRoundTrip(n);
  }
}
