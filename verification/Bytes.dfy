/** Bytes, fixed-width big-endian integers and bit-wise operations on integers. */
module Bytes {

  type byte = x: int | 0 <= x < 256
  type bytes = seq<byte>

  datatype Option<+T> = None | Some(value: T)

  datatype Result<+T, +E> = Ok(value: T) | Err(error: E)

  const U16 := 0x1_0000
  const U32 := 0x1_0000_0000
  const U64 := 0x1_0000_0000_0000_0000

  /** Time since an instant; a clock that reads earlier counts as no time at all. */
  function Elapsed(now: nat, since: nat): nat {
    if now < since then 0 else now - since
  }

  lemma Regroup<T>(a: seq<T>, b: seq<T>, c: seq<T>)
    ensures a + (b + c) == (a + b) + c
  {
  }

  /** The bytes of a text that uses only ASCII characters. */
  function Ascii(text: string): (r: bytes)
    ensures |r| == |text|
  {
    seq(|text|, i requires 0 <= i < |text| => text[i] as int % 256)
  }

  /** 256 to the power `n`: the number of values an `n`-byte integer has. */
  function Pow256(n: nat): (p: nat)
    ensures p > 0
  {
    if n == 0 then 1 else 256 * Pow256(n - 1)
  }

  lemma Pow256Values()
    ensures Pow256(1) == 256 && Pow256(2) == U16 && Pow256(4) == U32 && Pow256(8) == U64
  {
    assert Pow256(3) == 256 * Pow256(2);
    assert Pow256(5) == 256 * Pow256(4);
    assert Pow256(6) == 256 * Pow256(5);
    assert Pow256(7) == 256 * Pow256(6);
  }

  /** The `n` low-order bytes of `v`, most significant first. */
  function BigEndian(v: nat, n: nat): (s: bytes)
    ensures |s| == n
  {
    if n == 0 then [] else BigEndian(v / 256, n - 1) + [v % 256]
  }

  function FromBigEndian(s: bytes): nat {
    if s == [] then 0 else FromBigEndian(s[..|s| - 1]) * 256 + s[|s| - 1]
  }

  lemma {:induction false} BigEndianRoundTrip(v: nat, n: nat)
    requires v < Pow256(n)
    ensures FromBigEndian(BigEndian(v, n)) == v
  {
    if n > 0 {
      BigEndianRoundTrip(v / 256, n - 1);
      assert BigEndian(v, n)[..n - 1] == BigEndian(v / 256, n - 1);
    }
  }

  lemma Shifts(v: nat)
    ensures v / 256 / 256 == v / 0x1_0000 && v / 0x1_0000 / 256 == v / 0x100_0000 && v / 0x100_0000 / 256 == v / U32
  {
  }

  lemma BigEndianStep(v: nat, n: nat)
    ensures BigEndian(v, n + 1) == BigEndian(v / 256, n) + [v % 256]
  {
  }

  /** The last four of at least four bytes. */
  lemma LastFour(v: nat, n: nat)
    ensures BigEndian(v, n + 4)
            == BigEndian(v / U32, n) + [v / 0x100_0000 % 256, v / 0x1_0000 % 256, v / 0x100 % 256, v % 256]
  {
    Shifts(v);
    BigEndianStep(v, n + 3);
    BigEndianStep(v / 256, n + 2);
    BigEndianStep(v / 0x1_0000, n + 1);
    BigEndianStep(v / 0x100_0000, n);
  }

  /** The bytes of the fields, the most significant first. */
  lemma FieldBytes(v: nat)
    ensures BigEndian(v, 2) == [v / 0x100 % 256, v % 256]
    ensures BigEndian(v, 4) == [v / 0x100_0000 % 256, v / 0x1_0000 % 256, v / 0x100 % 256, v % 256]
    ensures BigEndian(v, 8) == BigEndian(v / U32, 4) + BigEndian(v, 4)
  {
    BigEndianStep(v, 1);
    BigEndianStep(v / 256, 0);
    LastFour(v, 0);
    LastFour(v, 4);
  }

  lemma {:induction false} FromBigEndianBound(s: bytes)
    ensures FromBigEndian(s) < Pow256(|s|)
  {
    if s != [] {
      FromBigEndianBound(s[..|s| - 1]);
    }
  }

  lemma {:induction false} BigEndianOfFrom(s: bytes)
    ensures BigEndian(FromBigEndian(s), |s|) == s
  {
    if s != [] {
      BigEndianOfFrom(s[..|s| - 1]);
      var q := FromBigEndian(s[..|s| - 1]);
      assert (q * 256 + s[|s| - 1]) / 256 == q;
      assert s == s[..|s| - 1] + [s[|s| - 1]];
    }
  }

  /** Reads back the 2-, 4- and 8-byte fields written by `BigEndian`. */
  lemma FieldsRoundTrip(v: nat)
    ensures v < U16 ==> FromBigEndian(BigEndian(v, 2)) == v
    ensures v < U32 ==> FromBigEndian(BigEndian(v, 4)) == v
    ensures v < U64 ==> FromBigEndian(BigEndian(v, 8)) == v
  {
    Pow256Values();
    if v < U16 { BigEndianRoundTrip(v, 2); }
    if v < U32 { BigEndianRoundTrip(v, 4); }
    if v < U64 { BigEndianRoundTrip(v, 8); }
  }

  /** Writing back a field that was read gives the same bytes, and the value fits the width. */
  lemma FieldsRead(s: bytes)
    ensures BigEndian(FromBigEndian(s), |s|) == s
    ensures |s| == 2 ==> FromBigEndian(s) < U16
    ensures |s| == 4 ==> FromBigEndian(s) < U32
    ensures |s| == 8 ==> FromBigEndian(s) < U64
  {
    Pow256Values();
    BigEndianOfFrom(s);
    FromBigEndianBound(s);
  }

  function Pow2(n: nat): (p: nat)
    ensures p > 0
  {
    if n == 0 then 1 else 2 * Pow2(n - 1)
  }

  /** Exclusive or of the `n` low-order bits. */
  function XorBits(a: nat, b: nat, n: nat): (r: nat)
    ensures r < Pow2(n)
  {
    if n == 0 then 0 else 2 * XorBits(a / 2, b / 2, n - 1) + (a % 2 + b % 2) % 2
  }

  /** Inclusive or of the `n` low-order bits. */
  function OrBits(a: nat, b: nat, n: nat): (r: nat)
    ensures r < Pow2(n)
  {
    if n == 0 then 0 else 2 * OrBits(a / 2, b / 2, n - 1) + if a % 2 == 0 && b % 2 == 0 then 0 else 1
  }

  lemma ParityUndo(a: nat, b: nat)
    ensures ((a % 2 + b % 2) % 2 + b % 2) % 2 == a % 2
  {
  }

  lemma HalfAndBit(high: nat, low: nat)
    requires low < 2
    ensures (2 * high + low) / 2 == high && (2 * high + low) % 2 == low
  {
  }

  /** The last bit and the rest of an exclusive or. */
  lemma XorBitsStep(a: nat, b: nat, n: nat)
    requires n > 0
    ensures XorBits(a, b, n) / 2 == XorBits(a / 2, b / 2, n - 1) && XorBits(a, b, n) % 2 == (a % 2 + b % 2) % 2
    ensures XorBits(a, b, n) == 2 * XorBits(a / 2, b / 2, n - 1) + (a % 2 + b % 2) % 2
  {
    HalfAndBit(XorBits(a / 2, b / 2, n - 1), (a % 2 + b % 2) % 2);
  }

  lemma {:induction false} XorBitsUndo(a: nat, b: nat, n: nat)
    requires a < Pow2(n)
    ensures XorBits(XorBits(a, b, n), b, n) == a
  {
    if n > 0 {
      XorBitsUndo(a / 2, b / 2, n - 1);
      XorBitsStep(a, b, n);
      XorBitsStep(XorBits(a, b, n), b, n);
      ParityUndo(a, b);
    }
  }

  /** Bit number `k` of a number. */
  function Bit(a: nat, k: nat): nat {
    if k == 0 then a % 2 else Bit(a / 2, k - 1)
  }

  /** Each bit of an exclusive or is one exactly when the two bits differ. */
  lemma {:induction false} XorBitAt(a: nat, b: nat, n: nat, k: nat)
    requires k < n
    ensures Bit(XorBits(a, b, n), k) == if Bit(a, k) == Bit(b, k) then 0 else 1
  {
    XorBitsStep(a, b, n);
    if k > 0 {
      XorBitAt(a / 2, b / 2, n - 1, k - 1);
    }
  }

  lemma {:induction false} XorBitsZero(a: nat, b: nat, n: nat)
    requires a < Pow2(n) && b < Pow2(n)
    ensures XorBits(a, b, n) == 0 <==> a == b
  {
    if n > 0 {
      XorBitsZero(a / 2, b / 2, n - 1);
    }
  }

  lemma {:induction false} OrBitsZero(a: nat, b: nat, n: nat)
    requires a < Pow2(n) && b < Pow2(n)
    ensures OrBits(a, b, n) == 0 <==> a == 0 && b == 0
  {
    if n > 0 {
      OrBitsZero(a / 2, b / 2, n - 1);
    }
  }

  lemma Pow2Values()
    ensures Pow2(8) == 256 && Pow2(16) == U16 && Pow2(32) == U32
  {
    assert Pow2(4) == 16;
    Pow2Sum(4, 4);
    Pow2Sum(8, 8);
    Pow2Sum(16, 16);
  }

  lemma {:induction false} Pow2Sum(a: nat, b: nat)
    ensures Pow2(a + b) == Pow2(a) * Pow2(b)
  {
    if b > 0 {
      Pow2Sum(a, b - 1);
    }
  }

  function Xor(a: byte, b: byte): byte {
    Pow2Values();
    XorBits(a, b, 8)
  }

  /** Byte-wise exclusive or with a key stream of the same length. */
  function XorAll(input: bytes, stream: bytes): (r: bytes)
    requires |input| == |stream|
    ensures |r| == |input|
  {
    seq(|input|, i requires 0 <= i < |input| => Xor(input[i], stream[i]))
  }

  /** Applying the same key stream twice gives the input back. */
  lemma XorAllUndo(input: bytes, stream: bytes)
    requires |input| == |stream|
    ensures XorAll(XorAll(input, stream), stream) == input
  {
    Pow2Values();
    forall i | 0 <= i < |input|
      ensures Xor(Xor(input[i], stream[i]), stream[i]) == input[i]
    {
      XorBitsUndo(input[i], stream[i], 8);
    }
  }

  ghost predicate FillsLength(xof: (seq<bytes>, nat) -> bytes) {
    forall chunks, n: nat :: |xof(chunks, n)| == n
  }

  /** An extendable-output hash over length-prefixed chunks: only its output length is known. */
  type Xof = f: (seq<bytes>, nat) -> bytes | FillsLength(f) witness (chunks: seq<bytes>, n: nat) => seq(n, _ => 0)

  lemma PrefixesGrow(left: bytes, right: bytes, i: nat)
    requires i < |left| == |right|
    ensures left[..i + 1] == right[..i + 1] <==> left[..i] == right[..i] && left[i] == right[i]
  {
    assert left[..i + 1] == left[..i] + [left[i]];
    assert right[..i + 1] == right[..i] + [right[i]];
  }

  /** The accumulating comparison used for every tag: it never stops early. */
  method ConstantTimeEq(left: bytes, right: bytes) returns (same: bool)
    ensures same <==> left == right
  {
    if |left| != |right| {
      return false;
    }
    Pow2Values();
    var diff := 0;
    for i := 0 to |left|
      invariant diff < 256
      invariant diff == 0 <==> left[..i] == right[..i]
    {
      XorBitsZero(left[i], right[i], 8);
      OrBitsZero(diff, Xor(left[i], right[i]), 8);
      PrefixesGrow(left, right, i);
      diff := OrBits(diff, Xor(left[i], right[i]), 8);
    }
    same := diff == 0;
    assert left[..|left|] == left && right[..|right|] == right;
  }
}
