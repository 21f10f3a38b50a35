/**
 * `unsigned_to_vec` of libpt-bintols: splits an unsigned integer into its bytes, most
 * significant first, dropping the leading zero bytes (zero itself gives one zero byte).
 * Together with `array_to_unsigned` (module Join) it forms a round trip.
 */
module SplitNumbers {
  import opened Wrappers
  import opened Fmt
  import opened Join

  /** The minimal big-endian bytes of `n`, defined digit by digit from the least significant. */
  function Split(n: nat): (s: seq<byte>)
    ensures |s| >= 1
    decreases n
  {
    if n < 256 then [n as byte] else Split(n / 256) + [(n % 256) as byte]
  }

  function Reversed<T>(s: seq<T>): (r: seq<T>)
    ensures |r| == |s|
    ensures forall i :: 0 <= i < |s| ==> r[i] == s[|s| - 1 - i]
  {
    if s == [] then [] else Reversed(s[1..]) + [s[0]]
  }

  /** `T` is an unsigned type of width `w`, so `num <= T::MAX`. */
  method UnsignedToVec(num: nat, w: Width) returns (buf: seq<byte>)
    requires num <= w.Max()
    ensures buf == Split(num)
  {
    var n := num;
    if n == 0 {
      return [0];
    }
    buf := [];
    while n > 0
      invariant Split(num) == (if n > 0 then Split(n) else []) + Reversed(buf)
      decreases n
    {
      var low := (n % 256) as byte;  // `num as u8` keeps the low byte
      ghost var rest := if n / 256 > 0 then Split(n / 256) else [];
      assert Split(n) == rest + [low];
      ReversedSnoc(buf, low);
      assert rest + [low] + Reversed(buf) == rest + Reversed(buf + [low]);
      buf := buf + [low];
      n := n / 256;
    }
    buf := Reversed(buf);
  }

  lemma ReversedSnoc<T>(s: seq<T>, x: T)
    ensures Reversed(s + [x]) == [x] + Reversed(s)
  {
  }

  /** The bytes denote the number: read big-endian they give `n` back. */
  lemma {:induction false} SplitValue(n: nat)
    ensures BigEndian(Split(n)) == n
    decreases n
  {
    var s := Split(n);
    if n < 256 {
      assert s[..0] == [];
    } else {
      assert s[..|s| - 1] == Split(n / 256);
      SplitValue(n / 256);
    }
  }

  /** Zero is one zero byte; any other number has no leading zero byte. */
  lemma {:induction false} SplitMinimal(n: nat)
    ensures n == 0 ==> Split(n) == [0]
    ensures n > 0 ==> Split(n)[0] != 0
    decreases n
  {
    if n >= 256 {
      SplitMinimal(n / 256);
    }
  }

  /** A number below 256^k takes at most k bytes; a u128 takes 1 to 16. */
  lemma {:induction false} SplitLength(n: nat, k: nat)
    requires 1 <= k && n < Pow(256, k)
    ensures 1 <= |Split(n)| <= k
    decreases k
  {
    if n >= 256 {
      var p := Pow(256, k - 1);
      assert Pow(256, k) == 256 * p;
      DivBound(n, 256, p);
      SplitLength(n / 256, k - 1);
    }
  }

  /** `array_to_unsigned::<T>(&unsigned_to_vec(n)) == n` for every value `n` of `T`. */
  lemma SplitThenJoin(n: nat, w: Width)
    requires n <= w.Max()
    ensures Joined(Split(n), w) == Ok(n)
  {
    SplitLength(n, w.Bytes());
    SplitValue(n);
  }

  /** The other direction: minimal bytes are exactly what splitting their value gives. */
  lemma {:induction false} JoinThenSplit(s: seq<byte>)
    requires |s| >= 1 && (s[0] != 0 || s == [0])
    ensures Split(BigEndian(s)) == s
    decreases |s|
  {
    var last := s[|s| - 1];
    var init := s[..|s| - 1];
    if |s| == 1 {
      assert init == [];
      assert BigEndian(s) == last as nat;
    } else {
      assert init[0] == s[0] && s[0] != 0;
      JoinThenSplit(init);
      BigEndianAtLeastHead(init);
      var v := BigEndian(s);
      assert v == BigEndian(init) * 256 + last as nat;
      assert v >= 256;
      assert v / 256 == BigEndian(init) && v % 256 == last as nat;
    }
  }

  lemma BigEndianAtLeastHead(s: seq<byte>)
    requires |s| >= 1
    ensures BigEndian(s) >= s[0] as nat
  {
    assert s == [s[0]] + s[1..];
    BigEndianCons(s[0], s[1..]);
  }

  /** The documented example and the small rows of the crate's split tests that agree with the code. */
  lemma SmallExamples()
    ensures Split(1717) == [0x06, 0xB5]
    ensures Split(16) == [16] && Split(255) == [255] && Split(0) == [0]
    ensures Split(256) == [1, 0]
  {
  }

  /** `T::MAX` of every width is all 0xFF bytes, as many as the width has. */
  lemma MaxIsAllOnes(w: Width)
    ensures Split(w.Max()) == seq(w.Bytes(), _ => 255 as byte)
  {
    var ones := seq(w.Bytes(), _ => 255 as byte);
    AllOnes(w.Bytes());
    assert BigEndian(ones) == w.Max();
    assert ones[0] == 255;
    JoinThenSplit(ones);
  }

  /** `u64::MAX + 1` needs a ninth byte. */
  lemma U64OverflowExample()
    ensures Split(U64.Max() + 1) == [1, 0, 0, 0, 0, 0, 0, 0, 0]
  {
    U64Successor();
    JoinThenSplit([1, 0, 0, 0, 0, 0, 0, 0, 0]);
  }
}
