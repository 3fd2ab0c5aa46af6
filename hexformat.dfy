/**
 * The `{:#010x}` format used by the CR0 and CR3 renderings: `0x` followed by the lowercase
 * hexadecimal digits of the number, zero-padded so that the whole text is at least ten
 * characters wide.
 */
module HexFormat {

  /** A lowercase hexadecimal digit. */
  function Digit(d: nat): (c: char)
    requires d < 16
    ensures DigitValue(c) == d
  {
    if d < 10 then (48 + d) as char else (87 + d) as char
  }

  /** The value of a digit character; 0 for anything that is not a lowercase hexadecimal digit. */
  function DigitValue(c: char): nat
  {
    if '0' <= c <= '9' then c as nat - 48
    else if 'a' <= c <= 'f' then c as nat - 87
    else 0
  }

  /** The digits of `n` without leading zeros (a single `0` for zero). */
  function Digits(n: nat): (s: string)
    ensures |s| >= 1
    decreases n
  {
    if n < 16 then [Digit(n)] else Digits(n / 16) + [Digit(n % 16)]
  }

  /** `s` with zeros in front, up to `width` characters. */
  function ZeroPad(s: string, width: nat): (r: string)
    ensures |r| == if |s| >= width then |s| else width
    ensures r[|r| - |s|..] == s
  {
    if |s| >= width then s else seq(width - |s|, _ => '0') + s
  }

  /** `fmt::format("{:#010x}", n)`. */
  function Alternate010(n: nat): (r: string)
    ensures |r| >= 10 && r[..2] == "0x"
  {
    "0x" + ZeroPad(Digits(n), 8)
  }

  /** Reads a string of hexadecimal digits, most significant first. */
  function Value(s: string): nat
  {
    if s == [] then 0 else Value(s[..|s| - 1]) * 16 + DigitValue(s[|s| - 1])
  }

  /** Reading the digits back gives the number. */
  lemma {:induction false} ValueOfDigits(n: nat)
    ensures Value(Digits(n)) == n
    decreases n
  {
    var s := Digits(n);
    if n >= 16 {
      ValueOfDigits(n / 16);
      assert s[..|s| - 1] == Digits(n / 16);
    }
  }

  /** Leading zeros do not change the value. */
  lemma {:induction false} ValueOfZeros(z: string, s: string)
    requires forall k :: 0 <= k < |z| ==> z[k] == '0'
    ensures Value(z + s) == Value(s)
    decreases |s|
  {
    if s == [] {
      assert z + s == z;
      ZerosAreZero(z);
    } else {
      ValueOfZeros(z, s[..|s| - 1]);
      assert (z + s)[..|z + s| - 1] == z + s[..|s| - 1];
    }
  }

  lemma {:induction false} ZerosAreZero(z: string)
    requires forall k :: 0 <= k < |z| ==> z[k] == '0'
    ensures Value(z) == 0
    decreases |z|
  {
    if z != [] {
      ZerosAreZero(z[..|z| - 1]);
    }
  }

  /** The rendered number reads back, after the `0x`, as the number itself. */
  lemma Alternate010RoundTrip(n: nat)
    ensures Value(Alternate010(n)[2..]) == n
  {
    var d := Digits(n);
    ValueOfDigits(n);
    var r := Alternate010(n);
    assert r[2..] == ZeroPad(d, 8);
    if |d| < 8 {
      ValueOfZeros(seq(8 - |d|, _ => '0'), d);
    }
  }

  /** A number below 2^32 takes exactly ten characters. */
  lemma {:induction false} Alternate010Width(n: nat)
    requires n < 0x1_0000_0000
    ensures |Alternate010(n)| == 10
  {
    DigitsLength(n, 8);
  }

  lemma {:induction false} DigitsLength(n: nat, k: nat)
    requires k >= 1 && n < Pow16(k)
    ensures |Digits(n)| <= k
    decreases n
  {
    if n >= 16 {
      DigitsLength(n / 16, k - 1);
    }
  }

  function Pow16(k: nat): nat
  {
    if k == 0 then 1 else 16 * Pow16(k - 1)
  }

  /** A hexadecimal digit character. */
  predicate IsDigit(c: char) {
    '0' <= c <= '9' || 'a' <= c <= 'f'
  }

  /** The rendering consists of `0x` and hexadecimal digits, hence holds no space. */
  lemma {:induction false} Alternate010NoSpace(n: nat)
    ensures ' ' !in Alternate010(n)
  {
    DigitsAreDigits(n);
    var d := Digits(n);
    var r := Alternate010(n);
    forall k | 0 <= k < |r| ensures r[k] != ' ' {
      if k >= 2 && |d| < 8 && k < 2 + 8 - |d| {
        assert r[k] == '0';
      } else if k >= 2 {
        assert r[k] in d;
      }
    }
  }

  lemma {:induction false} DigitsAreDigits(n: nat)
    ensures forall k :: 0 <= k < |Digits(n)| ==> IsDigit(Digits(n)[k])
    decreases n
  {
    if n >= 16 {
      DigitsAreDigits(n / 16);
    }
  }
}
