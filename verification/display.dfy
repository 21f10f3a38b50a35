/**
 * The display helpers of the pt-bintols binary: `bytes_to_bin` writes bytes as `0b` and then
 * eight binary digits per byte, separated by `_`, with a newline after every byte whose index
 * is a positive multiple of 8; `byte_bit_display` writes a byte count and the matching bit count.
 */
module Display {
  import opened Wrappers
  import opened Fmt

  /** `{:08b}` of a byte. */
  function Bin8(b: byte): string
  {
    Formatted(b as nat, 2, 8)
  }

  /** Eight binary digits that read back as the byte. */
  lemma Bin8RoundTrip(b: byte)
    ensures |Bin8(b)| == 8
    ensures Parse(Bin8(b), 2) == Some(b as nat)
    ensures forall i :: 0 <= i < 8 ==> IsDigitChar(Bin8(b)[i])
  {
    assert Pow(2, 8) == 256;
    FormattedWidth(b as nat, 2, 8);
    ParseFormatted(b as nat, 2, 8);
    FormattedDigits(b as nat, 2, 8);
  }

  /** What `bytes_to_bin(data)` returns; the text grows by one byte at a time. */
  function BinText(data: seq<byte>): (r: string)
    requires |data| > 0
    ensures |r| >= 2 && r[..2] == "0b"
  {
    if |data| == 1 then "0b" + Bin8(data[0])
    else
      var i := |data| - 1;
      BinText(data[..i]) + "_" + Bin8(data[i]) + (if i % 8 == 0 then "\n" else "")
  }

  /** `data.first().unwrap()` panics on empty input, so callers must pass at least one byte. */
  method BytesToBin(data: seq<byte>) returns (s: string)
    requires |data| > 0
    ensures s == BinText(data)
  {
    s := "0b" + Bin8(data[0]);
    var i := 1;
    while i < |data|
      invariant 1 <= i <= |data|
      invariant s == BinText(data[..i])
    {
      s := s + "_" + Bin8(data[i]);
      if i % 8 == 0 {
        s := s + "\n";
      }
      assert data[..i + 1][..i] == data[..i];
      i := i + 1;
    }
    assert data[..i] == data;
  }

  // ---------------------------------------------------------------------------------------
  // Reading the text back

  /** The text without its separators: every `_` and newline dropped. */
  function Unseparated(s: string): string
  {
    if s == [] then []
    else Unseparated(s[..|s| - 1]) + (if s[|s| - 1] in "_\n" then [] else [s[|s| - 1]])
  }

  lemma {:induction false} UnseparatedAppend(a: string, b: string)
    ensures Unseparated(a + b) == Unseparated(a) + Unseparated(b)
    decreases |b|
  {
    if b == [] {
      assert a + b == a;
    } else {
      var b' := b[..|b| - 1];
      assert (a + b)[..|a + b| - 1] == a + b';
      UnseparatedAppend(a, b');
    }
  }

  /** Digits are not separators. */
  lemma {:induction false} UnseparatedDigits(s: string)
    requires forall i :: 0 <= i < |s| ==> IsDigitChar(s[i])
    ensures Unseparated(s) == s
    decreases |s|
  {
    if s != [] {
      UnseparatedDigits(s[..|s| - 1]);
    }
  }

  /** The bits of the bytes, eight per byte, in order. */
  function Bits(data: seq<byte>): string
  {
    if data == [] then [] else Bits(data[..|data| - 1]) + Bin8(data[|data| - 1])
  }

  /** Reads a string of binary digits eight at a time. */
  function DecodeBits(bits: string): Option<seq<byte>>
    decreases |bits|
  {
    if bits == [] then Some([])
    else if |bits| < 8 then None
    else
      match DecodeBits(bits[..|bits| - 8])
      case None => None
      case Some(init) =>
        match Parse(bits[|bits| - 8..], 2)
        case None => None
        case Some(v) => if v < 256 then Some(init + [v as byte]) else None
  }

  /** After `0b`, dropping the separators leaves exactly eight bits per byte. */
  lemma {:induction false} BinTextBits(data: seq<byte>)
    requires |data| > 0
    ensures |BinText(data)| >= 2 && BinText(data)[..2] == "0b"
    ensures Unseparated(BinText(data)[2..]) == Bits(data)
    decreases |data|
  {
    var last := data[|data| - 1];
    Bin8RoundTrip(last);
    if |data| == 1 {
      BinTextOne(last);
      UnseparatedDigits(Bin8(last));
      assert data == [last];
    } else {
      var i := |data| - 1;
      BinTextBits(data[..i]);
      var nl: string := if i % 8 == 0 then "\n" else "";
      BinTextStep(data);
      SeparatedCell(BinText(data[..i])[2..], Bin8(last), nl);
    }
  }

  lemma BinTextOne(b: byte)
    ensures BinText([b]) == "0b" + Bin8(b)
    ensures BinText([b])[2..] == Bin8(b) && Bits([b]) == Bin8(b)
  {
    assert [b][..0] == [];
  }

  lemma BinTextStep(data: seq<byte>)
    requires |data| > 1
    ensures var i := |data| - 1;
            var prev := BinText(data[..i]);
            |prev| >= 2 ==>
              && BinText(data)[..2] == prev[..2]
              && BinText(data)[2..] == prev[2..] + ("_" + Bin8(data[i]) + (if i % 8 == 0 then "\n" else ""))
  {
  }

  /** A cell `_dddddddd` with an optional newline adds just its digits. */
  lemma SeparatedCell(prev: string, digits: string, nl: string)
    requires forall i :: 0 <= i < |digits| ==> IsDigitChar(digits[i])
    requires nl == "" || nl == "\n"
    ensures Unseparated(prev + ("_" + digits + nl)) == Unseparated(prev) + digits
  {
    UnseparatedDigits(digits);
    UnseparatedAppend(prev, "_" + digits + nl);
    UnseparatedAppend("_" + digits, nl);
    UnseparatedAppend("_", digits);
    assert Unseparated("_") == [] by {
      assert "_"[..0] == [];
    }
    assert Unseparated(nl) == [] by {
      if nl != "" {
        assert nl[..0] == [];
      }
    }
  }

  /** The bits decode back to the bytes. */
  lemma {:induction false} BitsRoundTrip(data: seq<byte>)
    ensures DecodeBits(Bits(data)) == Some(data)
    decreases |data|
  {
    if data != [] {
      var init := data[..|data| - 1];
      var last := data[|data| - 1];
      var bits := Bits(data);
      Bin8RoundTrip(last);
      BitsRoundTrip(init);
      assert bits[..|bits| - 8] == Bits(init);
      assert bits[|bits| - 8..] == Bin8(last);
      assert init + [last] == data;
    }
  }

  /** The text of `bytes_to_bin` determines the input: strip `0b` and separators, then decode. */
  lemma BinTextRoundTrip(data: seq<byte>)
    requires |data| > 0
    ensures DecodeBits(Unseparated(BinText(data)[2..])) == Some(data)
  {
    BinTextBits(data);
    BitsRoundTrip(data);
  }

  function Count(s: string, c: char): nat
  {
    multiset(s)[c]
  }

  /** A newline follows the bytes at indices 8, 16, 24, ...: (n - 1) / 8 of them for n bytes. */
  lemma {:induction false} NewlineCount(data: seq<byte>)
    requires |data| > 0
    ensures Count(BinText(data), '\n') == (|data| - 1) / 8
    decreases |data|
  {
    if |data| == 1 {
      NewlineFirst(data[0]);
      assert data == [data[0]];
    } else {
      NewlineCount(data[..|data| - 1]);
      NewlineStep(data);
      NewlineArith(|data| - 1);
    }
  }

  lemma NewlineArith(i: nat)
    requires i >= 1
    ensures i / 8 == (i - 1) / 8 + (if i % 8 == 0 then 1 else 0)
  {
  }

  lemma NewlineFirst(b: byte)
    ensures Count(BinText([b]), '\n') == 0
  {
    Bin8NoNewline(b);
    BinTextOne(b);
    assert multiset("0b" + Bin8(b)) == multiset("0b") + multiset(Bin8(b));
  }

  lemma NewlineStep(data: seq<byte>)
    requires |data| > 1
    ensures var i := |data| - 1;
            Count(BinText(data), '\n') == Count(BinText(data[..i]), '\n') + (if i % 8 == 0 then 1 else 0)
  {
    var i := |data| - 1;
    Bin8NoNewline(data[i]);
    var nl: string := if i % 8 == 0 then "\n" else "";
    assert BinText(data) == BinText(data[..i]) + "_" + Bin8(data[i]) + nl;
    CountCell(BinText(data[..i]), Bin8(data[i]), nl);
  }

  lemma Bin8NoNewline(b: byte)
    ensures '\n' !in multiset(Bin8(b))
  {
    FormattedDigits(b as nat, 2, 8);
  }

  /** A cell adds a newline to the count only when it ends in one. */
  lemma CountCell(prev: string, digits: string, nl: string)
    requires '\n' !in multiset(digits)
    requires nl == "" || nl == "\n"
    ensures Count(prev + "_" + digits + nl, '\n') == Count(prev, '\n') + |nl|
  {
    assert multiset(prev + "_" + digits + nl) == multiset(prev) + multiset("_") + multiset(digits) + multiset(nl);
  }

  // ---------------------------------------------------------------------------------------
  // byte_bit_display

  /** `usize::MAX` on a 64-bit target. */
  const USIZE_MAX: nat := 0xFFFF_FFFF_FFFF_FFFF

  /**
   * `format!("{:07} B = {:08} bit", data, data * 8)`; None when `data * 8` overflows a `usize`,
   * which panics in a debug build.
   */
  function ByteBitDisplay(data: nat): (r: Option<string>)
    requires data <= USIZE_MAX
    ensures r.None? <==> data * 8 > USIZE_MAX
  {
    if data * 8 > USIZE_MAX then None
    else Some(Formatted(data, 10, 7) + " B = " + Formatted(data * 8, 10, 8) + " bit")
  }

  /** The text is a count of at least 7 digits, " B = ", eight times it in at least 8 digits, " bit". */
  lemma ByteBitDisplayParts(data: nat)
    requires data * 8 <= USIZE_MAX
    ensures var t := ByteBitDisplay(data);
            var bytes := Formatted(data, 10, 7);
            var bits := Formatted(data * 8, 10, 8);
            && t == Some(bytes + " B = " + bits + " bit")
            && |bytes| >= 7 && Parse(bytes, 10) == Some(data)
            && |bits| >= 8 && Parse(bits, 10) == Some(data * 8)
  {
    FormattedLength(data, 10, 7);
    FormattedLength(data * 8, 10, 8);
    ParseFormatted(data, 10, 7);
    ParseFormatted(data * 8, 10, 8);
  }

  /** Small counts are zero-padded: 1 byte is "0000001 B = 00000008 bit". */
  lemma ByteBitDisplayExample()
    ensures ByteBitDisplay(1) == Some("0000001 B = 00000008 bit")
  {
    assert Radix(1, 10) == "1" && Radix(8, 10) == "8";
    assert seq(6, _ => '0') == "000000";
    assert seq(7, _ => '0') == "0000000";
    assert Formatted(1, 10, 7) == "0000001";
    assert Formatted(1 * 8, 10, 8) == "00000008";
    assert "0000001" + " B = " + "00000008" + " bit" == "0000001 B = 00000008 bit";
  }
}
