/**
 * `array_to_unsigned` of libpt-bintols: joins a big-endian byte slice into an unsigned
 * integer of a chosen width. The accumulator is a `u128`, so a slice of more than 16 bytes is
 * refused before any arithmetic, and a value that does not fit the target type is refused by
 * the final `try_from`.
 */
module Join {
  import opened Wrappers
  import opened Fmt

  /** The unsigned target types `T` of `array_to_unsigned::<T>`. */
  datatype Width = U8 | U16 | U32 | U64 | U128
  {
    function Bytes(): nat
    {
      match this
      case U8 => 1
      case U16 => 2
      case U32 => 4
      case U64 => 8
      case U128 => 16
    }

    /** `T::MAX` */
    function Max(): nat
    {
      Pow(256, Bytes()) - 1
    }
  }

  /** `u128::BITS / 8` */
  const U128_BYTES: nat := 16

  datatype JoinError =
    | TooLong     // more parts than a u128 holds
    | DoesNotFit  // `T::try_from(u128)` failed

  /** The number a byte string denotes when read most significant byte first. */
  function BigEndian(parts: seq<byte>): (r: nat)
    // zero exactly when every byte is zero
    ensures r == 0 <==> forall i :: 0 <= i < |parts| ==> parts[i] == 0
  {
    if parts == [] then 0 else BigEndian(parts[..|parts| - 1]) * 256 + parts[|parts| - 1] as nat
  }

  /** What `array_to_unsigned::<T>(parts)` returns. */
  function Joined(parts: seq<byte>, w: Width): (r: Result<nat, JoinError>)
    ensures r.Ok? ==> r.value <= w.Max()
  {
    if |parts| > U128_BYTES then Err(TooLong)
    else if BigEndian(parts) <= w.Max() then Ok(BigEndian(parts))
    else Err(DoesNotFit)
  }

  method ArrayToUnsigned(parts: seq<byte>, w: Width) returns (r: Result<nat, JoinError>)
    ensures r == Joined(parts, w)
  {
    if |parts| > U128_BYTES {
      return Err(TooLong);
    }
    var ri: nat := 0;
    var i := 0;
    // `parts.iter().rev().enumerate()`: the i-th byte from the end weighs 256^i
    while i < |parts|
      invariant 0 <= i <= |parts|
      invariant ri == BigEndian(parts[|parts| - i..])
      invariant ri < Pow(256, i)
    {
      var e := parts[|parts| - 1 - i];
      BigEndianCons(e, parts[|parts| - i..]);
      assert [e] + parts[|parts| - i..] == parts[|parts| - (i + 1)..];
      BigEndianBound(parts[|parts| - (i + 1)..]);
      ri := ri + e as nat * Pow(256, i);
      i := i + 1;
    }
    assert parts[|parts| - i..] == parts;
    if ri <= w.Max() {
      r := Ok(ri);
    } else {
      r := Err(DoesNotFit);
    }
  }

  /** Prepending a byte adds it at the weight of the bytes it goes in front of. */
  lemma {:induction false} BigEndianCons(x: byte, s: seq<byte>)
    ensures BigEndian([x] + s) == x as nat * Pow(256, |s|) + BigEndian(s)
    decreases |s|
  {
    var t := [x] + s;
    if s == [] {
      assert t[..|t| - 1] == [];
    } else {
      var s' := s[..|s| - 1];
      assert t[..|t| - 1] == [x] + s';
      BigEndianCons(x, s');
      assert Pow(256, |s|) == 256 * Pow(256, |s'|);
    }
  }

  /** k bytes always denote less than 256^k, so 16 bytes never overflow the u128 accumulator. */
  lemma {:induction false} BigEndianBound(s: seq<byte>)
    ensures BigEndian(s) < Pow(256, |s|)
    decreases |s|
  {
    if s != [] {
      var s' := s[..|s| - 1];
      BigEndianBound(s');
      assert BigEndian(s') * 256 + 255 < Pow(256, |s'|) * 256;
    }
  }

  /** The accumulator of the source's loop never exceeds `u128::MAX` for an accepted slice. */
  lemma JoinedWithinU128(parts: seq<byte>)
    requires |parts| <= U128_BYTES
    ensures BigEndian(parts) <= U128.Max()
  {
    BigEndianBound(parts);
    PowMonotone(256, |parts|, U128_BYTES);
  }

  lemma {:induction false} PowMonotone(b: nat, i: nat, j: nat)
    requires 1 <= b && i <= j
    ensures Pow(b, i) <= Pow(b, j)
    decreases j
  {
    if i < j {
      PowMonotone(b, i, j - 1);
      assert Pow(b, j) == b * Pow(b, j - 1);
      MulAtLeast(b, Pow(b, j - 1));
    }
  }

  lemma MulAtLeast(b: nat, x: nat)
    requires 1 <= b
    ensures x <= b * x
  {
  }

  /** "If the array is not long enough, the number will be padded with null bytes." */
  lemma LeadingZeroIgnored(s: seq<byte>)
    ensures BigEndian([0] + s) == BigEndian(s)
  {
    BigEndianCons(0, s);
  }

  lemma {:induction false} AllOnes(k: nat)
    ensures BigEndian(seq(k, _ => 255 as byte)) == Pow(256, k) - 1
    decreases k
  {
    if k > 0 {
      var s := seq(k, _ => 255 as byte);
      assert s[..k - 1] == seq(k - 1, _ => 255 as byte);
      AllOnes(k - 1);
    }
  }

  /** The documented example: `[0b00000110, 0b10110101]` as a u32 is 1717. */
  lemma DocExample()
    ensures Joined([0x06, 0xB5], U32) == Ok(1717)
  {
    assert Pow(256, 2) == 65536;
    assert Pow(256, 4) == 65536 * 65536;
    BigEndianPair(0x06, 0xB5);
  }

  lemma BigEndianPair(a: byte, b: byte)
    ensures BigEndian([a, b]) == a as nat * 256 + b as nat
  {
    var s := [a, b];
    assert s[..|s| - 1] == [a];
    assert [a][..0] == [];
    assert BigEndian([a]) == BigEndian([]) * 256 + a as nat;
    assert BigEndian(s) == BigEndian([a]) * 256 + b as nat;
  }

  /** Rows of the crate's u128 join test, and the two error paths. */
  lemma U128Table()
    ensures Joined([1, 0], U128) == Ok(256)
    ensures Joined([], U128) == Ok(0)
    ensures Joined(seq(16, _ => 255 as byte), U128) == Ok(U128.Max())
    ensures Joined([1, 0, 0, 0, 0, 0, 0, 0, 0], U128) == Ok(U64.Max() + 1)
    ensures Joined(seq(17, _ => 0 as byte), U128) == Err(TooLong)
  {
    BigEndianPair(1, 0);
    JoinedWithinU128([1, 0]);
    U128AllOnes();
    U128NineBytes();
  }

  lemma U128AllOnes()
    ensures Joined(seq(16, _ => 255 as byte), U128) == Ok(U128.Max())
  {
    var s := seq(16, _ => 255 as byte);
    AllOnes(16);
    assert BigEndian(s) == U128.Max();
  }

  lemma U128NineBytes()
    ensures Joined([1, 0, 0, 0, 0, 0, 0, 0, 0], U128) == Ok(U64.Max() + 1)
  {
    U64Successor();
    JoinedWithinU128([1, 0, 0, 0, 0, 0, 0, 0, 0]);
  }

  /** A one followed by eight zero bytes is `u64::MAX + 1`. */
  lemma U64Successor()
    ensures BigEndian([1, 0, 0, 0, 0, 0, 0, 0, 0]) == U64.Max() + 1
  {
    var z8 := seq(8, _ => 0 as byte);
    var p: seq<byte> := [1, 0, 0, 0, 0, 0, 0, 0, 0];
    assert p == [1 as byte] + z8;
    BigEndianCons(1, z8);
    ZerosAreZero(8);
  }

  /** Rows of the crate's u64 join test, and a value too wide for a u8. */
  lemma NarrowTable()
    ensures Joined(seq(8, _ => 255 as byte), U64) == Ok(U64.Max())
    ensures Joined([1, 1], U64) == Ok(257)
    ensures Joined([1, 0], U8) == Err(DoesNotFit)
  {
    AllOnes(8);
    BigEndianPair(1, 1);
    BigEndianPair(1, 0);
    assert Pow(256, 1) == 256;
    PowMonotone(256, 2, 8);
    assert Pow(256, 2) == 65536;
  }

  lemma {:induction false} ZerosAreZero(k: nat)
    ensures BigEndian(seq(k, _ => 0 as byte)) == 0
    decreases k
  {
    if k > 0 {
      assert seq(k, _ => 0 as byte)[..k - 1] == seq(k - 1, _ => 0 as byte);
      ZerosAreZero(k - 1);
    }
  }
}
