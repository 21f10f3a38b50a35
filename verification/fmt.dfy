/**
 * The integer formatting that the Rust `format!` macro does for the code modelled here:
 * `{:X}`, `{:b}` and `{}` print the digits of a number in base 16, 2 or 10 with no leading
 * zeros ("0" for zero), and a width such as `{:08X}` pads the digits on the left with '0'
 * up to that width, never truncating. A parser for the same digits states what the
 * formatted text means: parsing it back gives the number.
 */
module Fmt {
  import opened Wrappers

  /** `u8` */
  newtype byte = x: int | 0 <= x < 256

  function Pow(b: nat, e: nat): (r: nat)
    ensures b >= 1 ==> r >= 1
  {
    if e == 0 then 1 else b * Pow(b, e - 1)
  }

  predicate IsBase(base: nat)
  {
    2 <= base <= 16
  }

  /** The digit characters Rust prints for `{:X}` (upper case), `{:b}` and `{}`. */
  predicate IsDigitChar(c: char)
  {
    '0' <= c <= '9' || 'A' <= c <= 'F'
  }

  function DigitChar(d: nat): (c: char)
    requires d < 16
    ensures IsDigitChar(c)
  {
    if d < 10 then ('0' as int + d) as char else ('A' as int + d - 10) as char
  }

  function DigitValue(c: char): (r: Option<nat>)
    ensures r.Some? <==> IsDigitChar(c)
    ensures r.Some? ==> r.value < 16 && DigitChar(r.value) == c
  {
    if '0' <= c <= '9' then Some(c as int - '0' as int)
    else if 'A' <= c <= 'F' then Some(c as int - 'A' as int + 10)
    else None
  }

  /** The digits of `n` in `base`, most significant first, without leading zeros. */
  function Radix(n: nat, base: nat): (s: string)
    requires IsBase(base)
    ensures |s| >= 1
    decreases n
  {
    if n < base then [DigitChar(n)] else Radix(n / base, base) + [DigitChar(n % base)]
  }

  /** `{:0width$}` applied to already formatted digits. */
  function ZeroPad(s: string, width: nat): string
  {
    if |s| >= width then s else seq(width - |s|, _ => '0') + s
  }

  /** Padding only adds '0's in front, up to the width, and never cuts. */
  lemma ZeroPadShape(s: string, width: nat)
    ensures var r := ZeroPad(s, width);
            && |r| == (if |s| >= width then |s| else width)
            && r[|r| - |s|..] == s
            && forall i :: 0 <= i < |r| - |s| ==> r[i] == '0'
  {
  }

  /** `format!("{:0width$X}", n)` for base 16, `{:0width$b}` for base 2, `{:0width$}` for base 10. */
  function Formatted(n: nat, base: nat, width: nat): string
    requires IsBase(base)
  {
    ZeroPad(Radix(n, base), width)
  }

  /** The text is never shorter than the width, and never empty. */
  lemma FormattedLength(n: nat, base: nat, width: nat)
    requires IsBase(base)
    ensures |Formatted(n, base, width)| >= width && |Formatted(n, base, width)| >= 1
  {
    ZeroPadShape(Radix(n, base), width);
  }

  lemma {:induction false} RadixDigits(n: nat, base: nat)
    requires IsBase(base)
    ensures forall i :: 0 <= i < |Radix(n, base)| ==> IsDigitChar(Radix(n, base)[i])
    decreases n
  {
    if n >= base {
      RadixDigits(n / base, base);
    }
  }

  /** Formatted text is made of digit characters only. */
  lemma FormattedDigits(n: nat, base: nat, width: nat)
    requires IsBase(base)
    ensures forall i :: 0 <= i < |Formatted(n, base, width)| ==> IsDigitChar(Formatted(n, base, width)[i])
  {
    RadixDigits(n, base);
  }

  /** `{:02X}` of a byte. */
  function Hex2(b: byte): string
  {
    Formatted(b as nat, 16, 2)
  }

  /** Always exactly two digits, which read back as hexadecimal give the byte. */
  lemma Hex2RoundTrip(b: byte)
    ensures |Hex2(b)| == 2
    ensures Parse(Hex2(b), 16) == Some(b as nat)
  {
    FormattedWidth(b as nat, 16, 2);
    ParseFormatted(b as nat, 16, 2);
  }

  /** Reads digits of `base`, most significant first; None on any other character. */
  function Parse(s: string, base: nat): Option<nat>
  {
    if s == [] then Some(0)
    else
      match Parse(s[..|s| - 1], base)
      case None => None
      case Some(p) =>
        match DigitValue(s[|s| - 1])
        case None => None
        case Some(d) => if d < base then Some(p * base + d) else None
  }

  lemma {:induction false} ParseRadix(n: nat, base: nat)
    requires IsBase(base)
    ensures Parse(Radix(n, base), base) == Some(n)
    decreases n
  {
    if n < base {
      assert Radix(n, base)[..0] == [];
    } else {
      DivStep(n, base);
      var q, d := n / base, n % base;
      ParseRadix(q, base);
      ParseSnoc(Radix(q, base), d, base);
    }
  }

  lemma DivStep(n: nat, base: nat)
    requires 2 <= base <= n
    ensures n / base < n && n == (n / base) * base + n % base
  {
  }

  lemma ParseSnoc(t: string, d: nat, base: nat)
    requires IsBase(base) && d < base
    ensures Parse(t + [DigitChar(d)], base) ==
            if Parse(t, base).Some? then Some(Parse(t, base).value * base + d) else None
  {
    var s := t + [DigitChar(d)];
    assert s[..|s| - 1] == t;
  }

  lemma {:induction false} ParseLeadingZeros(z: string, t: string, base: nat)
    requires IsBase(base)
    requires forall i :: 0 <= i < |z| ==> z[i] == '0'
    ensures Parse(z + t, base) == Parse(t, base)
    decreases |t|
  {
    if t == [] {
      assert z + t == z;
      ParseZeros(z, base);
    } else {
      assert (z + t)[..|z + t| - 1] == z + t[..|t| - 1];
      ParseLeadingZeros(z, t[..|t| - 1], base);
    }
  }

  lemma {:induction false} ParseZeros(z: string, base: nat)
    requires IsBase(base)
    requires forall i :: 0 <= i < |z| ==> z[i] == '0'
    ensures Parse(z, base) == Some(0)
    decreases |z|
  {
    if z != [] {
      ParseZeros(z[..|z| - 1], base);
    }
  }

  /** Padding never changes the value: the formatted text parses back to the number. */
  lemma ParseFormatted(n: nat, base: nat, width: nat)
    requires IsBase(base)
    ensures Parse(Formatted(n, base, width), base) == Some(n)
  {
    var s := Radix(n, base);
    var r := Formatted(n, base, width);
    ParseRadix(n, base);
    ZeroPadShape(s, width);
    assert r == r[..|r| - |s|] + s;
    ParseLeadingZeros(r[..|r| - |s|], s, base);
  }

  lemma {:induction false} RadixLength(n: nat, base: nat, k: nat)
    requires IsBase(base) && 1 <= k && n < Pow(base, k)
    ensures |Radix(n, base)| <= k
    decreases k
  {
    if n >= base {
      var p := Pow(base, k - 1);
      assert Pow(base, k) == base * p;
      DivBound(n, base, p);
      assert k - 1 >= 1;
      RadixLength(n / base, base, k - 1);
    }
  }

  lemma DivBound(n: nat, base: nat, p: nat)
    requires 2 <= base <= n && n < base * p
    ensures p > 1 && n / base < p
  {
  }

  /** A number below `base^width` takes exactly `width` characters. */
  lemma FormattedWidth(n: nat, base: nat, width: nat)
    requires IsBase(base) && 1 <= width && n < Pow(base, width)
    ensures |Formatted(n, base, width)| == width
  {
    RadixLength(n, base, width);
    ZeroPadShape(Radix(n, base), width);
  }
}
