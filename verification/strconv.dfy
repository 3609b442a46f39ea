/**
 Decimal integers as Go's strconv reads and writes them: Atoi and ParseInt(s, 10, 64)
 accept an optional sign, at least one digit, and values of a signed 64-bit integer.
 */
module Strconv {
  import opened Wrappers

  const MIN_INT64: int := -0x8000_0000_0000_0000
  const MAX_INT64: int := 0x7FFF_FFFF_FFFF_FFFF

  predicate IsDigit(c: char) {
    '0' <= c <= '9'
  }

  function DigitValue(c: char): nat
    requires IsDigit(c)
  {
    var zero := '0' as int;
    c as int - zero
  }

  /** The value of a run of digits; the empty run is 0. */
  function ParseDigits(s: string): Option<nat> {
    if s == "" then Some(0)
    else
      var c := s[|s| - 1];
      var front := ParseDigits(s[..|s| - 1]);
      if front.None? || !IsDigit(c) then None
      else Some(10 * front.value + DigitValue(c))
  }

  function ParseInt(s: string): Option<int> {
    var signed := s != "" && (s[0] == '+' || s[0] == '-');
    var digits := if signed then s[1..] else s;
    if digits == "" then None
    else
      match ParseDigits(digits)
      case None => None
      case Some(n) =>
        var magnitude: int := n;
        var v := if signed && s[0] == '-' then -magnitude else magnitude;
        if MIN_INT64 <= v <= MAX_INT64 then Some(v) else None
  }

  function DigitsOf(n: nat): (s: string)
    ensures |s| > 0 && forall i :: 0 <= i < |s| ==> IsDigit(s[i])
  {
    var last := ['0' + (n % 10) as char];
    if n < 10 then last else DigitsOf(n / 10) + last
  }

  function Itoa(v: int): (s: string)
    ensures |s| > 0 && forall i :: 0 <= i < |s| ==> IsDigit(s[i]) || s[i] == '-'
  {
    if v < 0 then "-" + DigitsOf(-v) else DigitsOf(v)
  }

  lemma {:induction false} DigitsRoundTrip(n: nat)
    ensures ParseDigits(DigitsOf(n)) == Some(n)
  {
    var s := DigitsOf(n);
    if n < 10 {
      assert s[..|s| - 1] == "";
    } else {
      DigitsRoundTrip(n / 10);
      assert s[..|s| - 1] == DigitsOf(n / 10);
    }
  }

  /** Reading back a written number gives that number. */
  lemma ItoaRoundTrip(v: int)
    requires MIN_INT64 <= v <= MAX_INT64
    ensures ParseInt(Itoa(v)) == Some(v)
  {
    if v < 0 {
      DigitsRoundTrip(-v);
      assert Itoa(v)[1..] == DigitsOf(-v);
    } else {
      DigitsRoundTrip(v);
    }
  }

  function Zeros(z: nat): string {
    seq(z, _ => '0')
  }

  lemma {:induction false} ZerosParse(z: nat, n: nat)
    ensures ParseDigits(Zeros(z) + DigitsOf(n)) == Some(n)
    decreases n, z
  {
    var s := Zeros(z) + DigitsOf(n);
    if n < 10 {
      assert s[..|s| - 1] == Zeros(z);
      OnlyZeros(z);
    } else {
      ZerosParse(z, n / 10);
      assert s[..|s| - 1] == Zeros(z) + DigitsOf(n / 10);
    }
  }

  lemma {:induction false} OnlyZeros(z: nat)
    ensures ParseDigits(Zeros(z)) == Some(0)
  {
    if z > 0 {
      OnlyZeros(z - 1);
      assert Zeros(z)[..z - 1] == Zeros(z - 1);
    }
  }

  lemma DigitsAppend(m: nat, c: char)
    requires IsDigit(c)
    ensures DigitsOf(10 * m + DigitValue(c)) == if m == 0 then [c] else DigitsOf(m) + [c]
  {
    var n := 10 * m + DigitValue(c);
    assert n / 10 == m && n % 10 == DigitValue(c);
  }

  /** Digits that read as n are those of n after some zeros. */
  lemma {:induction false} DigitsAre(d: string) returns (z: nat)
    requires d != "" && ParseDigits(d).Some?
    ensures d == Zeros(z) + DigitsOf(ParseDigits(d).value)
  {
    var front, c := d[..|d| - 1], d[|d| - 1];
    var m := ParseDigits(front).value;
    assert d == front + [c];
    DigitsAppend(m, c);
    if front == "" {
      z := 0;
    } else {
      z := DigitsAre(front);
      if m == 0 {
        assert DigitsOf(0) == "0" && Zeros(z) + "0" == Zeros(z + 1);
        z := z + 1;
      } else {
        assert Zeros(z) + DigitsOf(m) + [c] == Zeros(z) + (DigitsOf(m) + [c]);
      }
    }
  }

  ghost predicate SignFits(sign: string, v: int) {
    (v >= 0 && (sign == "" || sign == "+")) || (v <= 0 && sign == "-")
  }

  /** A sign, some zeros, and the digits of the magnitude of v. */
  ghost function Written(sign: string, z: nat, v: int): string {
    sign + (Zeros(z) + DigitsOf(if v < 0 then -v else v))
  }

  lemma SignedParses(sign: string, digits: string, n: nat, v: int)
    requires digits != "" && IsDigit(digits[0]) && ParseDigits(digits) == Some(n)
    requires SignFits(sign, v) && n == (if v < 0 then -v else v) && MIN_INT64 <= v <= MAX_INT64
    ensures ParseInt(sign + digits) == Some(v)
  {
    var s := sign + digits;
    if sign == "" {
      assert s == digits;
    } else {
      assert s[0] == sign[0] && s[1..] == digits;
    }
  }

  lemma WrittenParses(sign: string, z: nat, v: int)
    requires SignFits(sign, v) && MIN_INT64 <= v <= MAX_INT64
    ensures ParseInt(Written(sign, z, v)) == Some(v)
  {
    var n: nat := if v < 0 then -v else v;
    var digits := Zeros(z) + DigitsOf(n);
    ZerosParse(z, n);
    assert digits[0] == if z > 0 then '0' else DigitsOf(n)[0];
    SignedParses(sign, digits, n, v);
  }

  lemma ParsedIsWritten(s: string) returns (sign: string, z: nat)
    requires ParseInt(s).Some?
    ensures SignFits(sign, ParseInt(s).value) && s == Written(sign, z, ParseInt(s).value)
  {
    sign := if s[0] == '+' || s[0] == '-' then s[..1] else "";
    assert s == sign + s[|sign|..];
    z := DigitsAre(s[|sign|..]);
  }

  /** The texts that read as v: its digits after any zeros and a sign that fits, within 64 bits. */
  lemma ParseIff(s: string, v: int)
    ensures ParseInt(s) == Some(v) <==>
      MIN_INT64 <= v <= MAX_INT64 && exists sign, z :: SignFits(sign, v) && s == Written(sign, z, v)
  {
    if MIN_INT64 <= v <= MAX_INT64 {
      if sign, z :| SignFits(sign, v) && s == Written(sign, z, v) {
        WrittenParses(sign, z, v);
      }
    }
    if ParseInt(s) == Some(v) {
      var sign, z := ParsedIsWritten(s);
    }
  }
}
