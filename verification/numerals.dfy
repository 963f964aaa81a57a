/** Integers as text: what `sprintf("%i")` writes into an option
    acknowledgement, and what `sscanf("%i")` reads from the value of a
    `blksize` option. */
module Numerals {
  import opened Base

  /** The value of `c` as a digit (`0`-`9`, `a`-`f`, `A`-`F`), or 16 when it
      is not one. */
  function DigitOf(c: byte): (d: nat)
    ensures d <= 16
  {
    if '0' as int <= c <= '9' as int then c - '0' as int
    else if 'a' as int <= c <= 'f' as int then c - 'a' as int + 10
    else if 'A' as int <= c <= 'F' as int then c - 'A' as int + 10
    else 16
  }

  /** The longest prefix of `s` made of digits of `base`: the characters a
      numeric conversion consumes. */
  function DigitRun(s: seq<byte>, base: nat): (r: seq<byte>)
    ensures r <= s
    ensures forall i :: 0 <= i < |r| ==> DigitOf(r[i]) < base
    ensures |r| < |s| ==> base <= DigitOf(s[|r|])
  {
    s[..DigitsFrom(s, 0, base)]
  }

  /** Where the run of digits of `base` that starts at `from` ends. */
  function DigitsFrom(s: seq<byte>, from: nat, base: nat): (n: nat)
    requires from <= |s|
    ensures from <= n <= |s|
    ensures forall i :: from <= i < n ==> DigitOf(s[i]) < base
    ensures n < |s| ==> base <= DigitOf(s[n])
    decreases |s| - from
  {
    if from == |s| || base <= DigitOf(s[from]) then from else DigitsFrom(s, from + 1, base)
  }

  /** The number a digit string denotes in `base`, most significant digit first. */
  function ValueOf(digits: seq<byte>, base: nat): nat
  {
    if digits == [] then 0
    else ValueOf(digits[..|digits| - 1], base) * base + DigitOf(digits[|digits| - 1])
  }

  /** `isspace` in the C locale. */
  predicate IsSpace(c: byte)
  {
    c == ' ' as int || 9 <= c <= 13
  }

  /** `s` without its leading white space. */
  function SkipSpace(s: seq<byte>): (r: seq<byte>)
    ensures |r| <= |s|
    ensures forall i :: 0 <= i < |s| - |r| ==> IsSpace(s[i])
    ensures r != [] ==> !IsSpace(r[0])
  {
    s[SpacesFrom(s, 0)..]
  }

  /** Where the run of white space that starts at `from` ends. */
  function SpacesFrom(s: seq<byte>, from: nat): (n: nat)
    requires from <= |s|
    ensures from <= n <= |s|
    ensures forall i :: from <= i < n ==> IsSpace(s[i])
    ensures n < |s| ==> !IsSpace(s[n])
    decreases |s| - from
  {
    if from == |s| || !IsSpace(s[from]) then from else SpacesFrom(s, from + 1)
  }

  /** `s` after its optional sign character. */
  function Unsigned(s: seq<byte>): seq<byte>
  {
    if s != [] && (s[0] == '-' as int || s[0] == '+' as int) then s[1..] else s
  }

  /** The unsigned part of a `%i` conversion: `0x` or `0X` and hex digits, a
      leading `0` and octal digits, or decimal digits. As in the BSD-derived C
      library the console links against, a `0x` with no hex digit after it
      reads as 0. */
  function ScanMagnitude(u: seq<byte>): (r: Option<nat>)
    ensures r.None? <==> (u == [] || 10 <= DigitOf(u[0]))
  {
    if |u| >= 2 && u[0] == '0' as int && (u[1] == 'x' as int || u[1] == 'X' as int)
       && DigitRun(u[2..], 16) != []
    then
      Some(ValueOf(DigitRun(u[2..], 16), 16))
    else if u != [] && u[0] == '0' as int then
      Some(ValueOf(DigitRun(u, 8), 8))
    else
      var d := DigitRun(u, 10);
      if d == [] then None else Some(ValueOf(d, 10))
  }

  /** `sscanf(s, "%i", &v)`: `Some(v)` when the conversion succeeds, `None`
      when it fails and leaves `v` untouched. */
  function ScanInt(s: seq<byte>): (r: Option<int>)
    ensures r.None? <==> (var u := Unsigned(SkipSpace(s)); u == [] || 10 <= DigitOf(u[0]))
  {
    ScanSigned(SkipSpace(s))
  }

  /** The conversion once white space is skipped: an optional sign, then the
      magnitude. */
  function ScanSigned(t: seq<byte>): (r: Option<int>)
    ensures r.None? <==> ScanMagnitude(Unsigned(t)).None?
  {
    match ScanMagnitude(Unsigned(t))
    case None => None
    case Some(m) => if t != [] && t[0] == '-' as int then Some(-(m as int)) else Some(m)
  }

  /** The decimal digits of `n`, without leading zeros. */
  function Decimal(n: nat): (r: seq<byte>)
    ensures r != []
    ensures forall i :: 0 <= i < |r| ==> DigitOf(r[i]) < 10
    ensures 1 <= n ==> r[0] != '0' as int
    ensures n == 0 ==> r == ['0' as int]
  {
    if n < 10 then ['0' as int + n] else Decimal(n / 10) + ['0' as int + n % 10]
  }

  /** `sprintf(str, "%i", n)`. */
  function FormatInt(n: int): (r: seq<byte>)
    ensures 0 !in r
  {
    if n < 0 then ['-' as int] + Decimal(-n) else Decimal(n)
  }

  /** Appending a digit shifts the value one place left. */
  lemma ValueOfSnoc(digits: seq<byte>, c: byte, base: nat)
    ensures ValueOf(digits + [c], base) == ValueOf(digits, base) * base + DigitOf(c)
  {
    assert (digits + [c])[..|digits|] == digits;
  }

  /** The decimal text of `n` denotes `n`. */
  lemma {:induction false} DecimalValue(n: nat)
    ensures ValueOf(Decimal(n), 10) == n
  {
    if n < 10 {
      assert ValueOf(Decimal(n), 10) == ValueOf([], 10) * 10 + DigitOf('0' as int + n);
    } else {
      DecimalValue(n / 10);
      ValueOfSnoc(Decimal(n / 10), '0' as int + n % 10, 10);
    }
  }

  /** A conversion consumes the whole of a string made only of digits. */
  lemma DigitRunWhole(s: seq<byte>, base: nat)
    requires forall i :: 0 <= i < |s| ==> DigitOf(s[i]) < base
    ensures DigitRun(s, base) == s
  {
    var r := DigitRun(s, base);
    assert r == s[..|r|];
  }

  /** What the server writes with `%i` it reads back with `%i`: the block
      size it advertises in an option acknowledgement is the one it parsed. */
  lemma ScanFormatRoundTrip(n: int)
    ensures ScanInt(FormatInt(n)) == Some(n)
  {
    var m := if n < 0 then -n else n;
    var d := Decimal(m);
    assert ScanMagnitude(d) == Some(m) by {
      if m == 0 {
        ZeroScans();
      } else {
        DecimalScans(m);
      }
    }
    SignedScans(d, m);
  }

  /** A numeral that starts with a digit scans as its magnitude, and with a
      minus sign in front as its negation. */
  lemma SignedScans(d: seq<byte>, m: nat)
    requires d != [] && DigitOf(d[0]) < 10 && ScanMagnitude(d) == Some(m)
    ensures ScanInt(d) == Some(m)
    ensures ScanInt(['-' as int] + d) == Some(-(m as int))
  {
    NotSpaceNorSign(d[0]);
    assert ScanSigned(d) == Some(m);
    LeadingNonSpace(d);
    var s := ['-' as int] + d;
    assert Unsigned(s) == d by {
      assert s[1..] == d;
    }
    Negated(s, m);
    LeadingNonSpace(s);
  }

  /** A minus sign negates the magnitude that follows it. */
  lemma Negated(t: seq<byte>, m: nat)
    requires t != [] && t[0] == '-' as int && ScanMagnitude(Unsigned(t)) == Some(m)
    ensures ScanSigned(t) == Some(-(m as int))
  {
  }

  /** Nothing is skipped before a character that is not white space. */
  lemma LeadingNonSpace(s: seq<byte>)
    requires s != [] && !IsSpace(s[0])
    ensures ScanInt(s) == ScanSigned(s)
  {
    assert SpacesFrom(s, 0) == 0;
    assert SkipSpace(s) == s;
  }

  /** A digit is neither white space nor a sign. */
  lemma NotSpaceNorSign(c: byte)
    requires DigitOf(c) < 10
    ensures !IsSpace(c) && c != '-' as int && c != '+' as int
  {
  }

  /** A lone `0` is the octal numeral for zero. */
  lemma ZeroScans()
    ensures ScanMagnitude(['0' as int]) == Some(0)
  {
    var z: seq<byte> := ['0' as int];
    assert DigitRun(z, 8) == z by {
      DigitRunWhole(z, 8);
    }
    assert ValueOf(z, 8) == ValueOf([], 8) * 8 + DigitOf('0' as int);
  }

  /** The decimal text of a positive number scans as that number. */
  lemma DecimalScans(m: nat)
    requires 0 < m
    ensures ScanMagnitude(Decimal(m)) == Some(m)
  {
    var d := Decimal(m);
    assert DigitRun(d, 10) == d by {
      DigitRunWhole(d, 10);
    }
    DecimalValue(m);
  }
}
