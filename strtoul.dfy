/**
 * simple_strtoul(cp, &e, 16) as the boot-argument parser uses it: an
 * optional "0x"/"0X" prefix, then the longest run of hexadecimal digits,
 * accumulated in a 64-bit unsigned long (arm64), which wraps on overflow.
 */
module StrToUL {

  /** 2^64: unsigned long and phys_addr_t are 64 bits wide on arm64. */
  const ULONG_LIMIT: nat := 0x1_0000_0000_0000_0000

  predicate IsHexDigit(c: char) {
    '0' <= c <= '9' || 'a' <= c <= 'f' || 'A' <= c <= 'F'
  }

  function DigitValue(c: char): (v: nat)
    requires IsHexDigit(c)
    ensures v < 16
  {
    if '0' <= c <= '9' then c as nat - '0' as nat
    else if 'a' <= c <= 'f' then c as nat - 'a' as nat + 10
    else c as nat - 'A' as nat + 10
  }

  predicate AllHex(d: seq<char>) {
    forall k :: 0 <= k < |d| ==> IsHexDigit(d[k])
  }

  /** The length of the longest run of hex digits at the start of s. */
  function HexRun(s: seq<char>): (n: nat)
    ensures n <= |s|
    ensures AllHex(s[..n])
    ensures n < |s| ==> !IsHexDigit(s[n])
  {
    if s == [] || !IsHexDigit(s[0]) then 0
    else
      assert s[..1 + HexRun(s[1..])] == [s[0]] + s[1..][..HexRun(s[1..])];
      1 + HexRun(s[1..])
  }

  /** The value of a digit string read most significant digit first. */
  function HexValue(d: seq<char>): (v: nat)
    requires AllHex(d)
  {
    if d == [] then 0 else HexValue(d[..|d| - 1]) * 16 + DigitValue(d[|d| - 1])
  }

  /** Where the digits start: after a leading "0x" or "0X", if there is one. */
  function DigitsStart(cp: seq<char>): (start: nat)
    ensures start <= |cp|
    ensures start == 2 <==> 2 <= |cp| && cp[0] == '0' && (cp[1] == 'x' || cp[1] == 'X')
    ensures start == 0 || start == 2
  {
    if 2 <= |cp| && cp[0] == '0' && (cp[1] == 'x' || cp[1] == 'X') then 2 else 0
  }

  /** The parsed value and the index of the first character not consumed (e). */
  datatype Parsed = Parsed(value: nat, end: nat)

  function StrToUL16(cp: seq<char>): (r: Parsed)
    ensures r.value < ULONG_LIMIT
    ensures DigitsStart(cp) <= r.end <= |cp|
    ensures AllHex(cp[DigitsStart(cp)..r.end])
    ensures r.end < |cp| ==> !IsHexDigit(cp[r.end])
  {
    var start := DigitsStart(cp);
    var n := HexRun(cp[start..]);
    assert cp[start..][..n] == cp[start..start + n];
    Parsed(HexValue(cp[start..start + n]) % ULONG_LIMIT, start + n)
  }

  function HexDigit(v: nat): (c: char)
    requires v < 16
    ensures IsHexDigit(c) && DigitValue(c) == v
  {
    if v < 10 then ('0' as int + v) as char else ('a' as int + v - 10) as char
  }

  /** The lower-case hexadecimal spelling of n, without leading zeros. */
  function ToHex(n: nat): (d: seq<char>)
    ensures |d| > 0 && AllHex(d)
    decreases n
  {
    if n < 16 then [HexDigit(n)] else ToHex(n / 16) + [HexDigit(n % 16)]
  }

  /** Reading a number's spelling gives the number back. */
  lemma {:induction false} HexValueToHex(n: nat)
    ensures HexValue(ToHex(n)) == n
  {
    var d := ToHex(n);
    if n < 16 {
      assert d[..0] == [];
    } else {
      HexValueToHex(n / 16);
      assert d[..|d| - 1] == ToHex(n / 16);
    }
  }

  /** The run of digits stops at the first character that is not one. */
  lemma {:induction false} HexRunStops(d: seq<char>, t: seq<char>)
    requires AllHex(d)
    requires t == [] || !IsHexDigit(t[0])
    ensures HexRun(d + t) == |d|
  {
    if d != [] {
      assert (d + t)[1..] == d[1..] + t;
      HexRunStops(d[1..], t);
    } else {
      assert d + t == t;
    }
  }

  /**
   * "0x" followed by any digit string and any text that does not start
   * with a hex digit parses to the digits' value modulo 2^64, consuming
   * exactly the digits.
   */
  lemma StrToUL16Digits(d: seq<char>, t: seq<char>)
    requires AllHex(d)
    requires t == [] || !IsHexDigit(t[0])
    ensures StrToUL16("0x" + d + t) == Parsed(HexValue(d) % ULONG_LIMIT, 2 + |d|)
  {
    var rest := d + t;
    assert "0x" + d + t == "0x" + rest;
    assert rest[..|d|] == d;
    assert HexRun(rest) == |d| by {
      HexRunStops(d, t);
    }
    StrToUL16After0x(rest, d);
  }

  /** The parse of "0x" and then text whose run of digits is d. */
  lemma StrToUL16After0x(rest: seq<char>, d: seq<char>)
    requires AllHex(d) && HexRun(rest) == |d| && rest[..|d|] == d
    ensures StrToUL16("0x" + rest) == Parsed(HexValue(d) % ULONG_LIMIT, 2 + |d|)
  {
    var cp := "0x" + rest;
    assert cp[0] == '0' && cp[1] == 'x';
    assert cp[2..] == rest;
    assert cp[2..2 + |d|] == d;
  }

  /** Leading zeros do not change a digit string's value. */
  lemma {:induction false} LeadingZero(d: seq<char>)
    requires AllHex(d)
    ensures AllHex(['0'] + d) && HexValue(['0'] + d) == HexValue(d)
  {
    var z := ['0'] + d;
    assert AllHex(z) by {
      forall k | 0 <= k < |z| ensures IsHexDigit(z[k]) {
        if k > 0 { assert z[k] == d[k - 1]; }
      }
    }
    if d != [] {
      assert z[..|z| - 1] == ['0'] + d[..|d| - 1];
      assert z[|z| - 1] == d[|d| - 1];
      LeadingZero(d[..|d| - 1]);
    } else {
      assert z[..0] == [];
    }
  }

  /** The lower-case form of a character: the kernel's _tolower on 'A'..'F'. */
  function LowerHex(c: char): (l: char)
    ensures IsHexDigit(c) ==> IsHexDigit(l) && DigitValue(l) == DigitValue(c)
    ensures !('A' <= l <= 'F')
  {
    if 'A' <= c <= 'F' then (c as int - 'A' as int + 'a' as int) as char else c
  }

  function LowerAll(d: seq<char>): (l: seq<char>)
    ensures |l| == |d| && forall k :: 0 <= k < |d| ==> l[k] == LowerHex(d[k])
  {
    seq(|d|, k requires 0 <= k < |d| => LowerHex(d[k]))
  }

  /** Upper- and lower-case digits have the same value. */
  lemma {:induction false} HexValueIgnoresCase(d: seq<char>)
    requires AllHex(d)
    ensures AllHex(LowerAll(d)) && HexValue(LowerAll(d)) == HexValue(d)
  {
    var l := LowerAll(d);
    if d != [] {
      assert l[..|l| - 1] == LowerAll(d[..|d| - 1]);
      HexValueIgnoresCase(d[..|d| - 1]);
    }
  }

  /**
   * "0x" followed by the spelling of n and any text that does not start
   * with a hex digit parses back to n, consuming exactly the number.
   */
  lemma StrToUL16RoundTrip(n: nat, t: seq<char>)
    requires n < ULONG_LIMIT
    requires t == [] || !IsHexDigit(t[0])
    ensures StrToUL16("0x" + ToHex(n) + t) == Parsed(n, 2 + |ToHex(n)|)
  {
    assert n % ULONG_LIMIT == n;
    StrToUL16Wraps(n, t);
  }

  /** A spelled-out number of any size parses to its value modulo 2^64. */
  lemma StrToUL16Wraps(n: nat, t: seq<char>)
    requires t == [] || !IsHexDigit(t[0])
    ensures StrToUL16("0x" + ToHex(n) + t) == Parsed(n % ULONG_LIMIT, 2 + |ToHex(n)|)
  {
    StrToUL16Digits(ToHex(n), t);
    HexValueToHex(n);
  }

  /** The first hex number that does not fit in 64 bits reads as 0. */
  lemma OverflowReadsZero()
    ensures StrToUL16("0x" + ToHex(ULONG_LIMIT)).value == 0
  {
    StrToUL16Wraps(ULONG_LIMIT, []);
    assert "0x" + ToHex(ULONG_LIMIT) + [] == "0x" + ToHex(ULONG_LIMIT);
  }
}
