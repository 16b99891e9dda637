/** Bytes, the little-endian fields of the firmware's packed structs, and the two bitwise
    operators the firmware applies to integers it also computes with. */
module Bytes {

  newtype byte = x: int | 0 <= x < 256

  type bytes = seq<byte>

  /** The k low-order bytes of n, least significant first. */
  function Le(n: nat, k: nat): (r: bytes)
    ensures |r| == k
  {
    if k == 0 then [] else [(n % 256) as byte] + Le(n / 256, k - 1)
  }

  /** The number a little-endian field holds. */
  function Un(b: bytes): nat {
    if b == [] then 0 else b[0] as nat + 256 * Un(b[1..])
  }

  function Pow256(k: nat): (r: nat)
    ensures r > 0
  {
    if k == 0 then 1 else 256 * Pow256(k - 1)
  }

  lemma {:induction false} LeUn(n: nat, k: nat)
    requires n < Pow256(k)
    ensures Un(Le(n, k)) == n
  {
    if k > 0 {
      LeUn(n / 256, k - 1);
      assert Le(n, k)[1..] == Le(n / 256, k - 1);
    }
  }

  lemma {:induction false} UnLe(b: bytes)
    ensures Un(b) < Pow256(|b|)
    ensures Le(Un(b), |b|) == b
  {
    if b != [] {
      UnLe(b[1..]);
      assert b == [b[0]] + b[1..];
      assert Un(b) / 256 == Un(b[1..]) && Un(b) % 256 == b[0] as nat;
    }
  }

  lemma Field16(n: nat)
    requires n < 0x1_0000
    ensures Un(Le(n, 2)) == n
  {
    assert Pow256(1) == 256 && Pow256(2) == 0x1_0000;
    LeUn(n, 2);
  }

  lemma Field32(n: nat)
    requires n < 0x1_0000_0000
    ensures Un(Le(n, 4)) == n
  {
    assert Pow256(1) == 256 && Pow256(2) == 0x1_0000 && Pow256(3) == 0x100_0000 && Pow256(4) == 0x1_0000_0000;
    LeUn(n, 4);
  }

  /** Two fields of one width hold the same number exactly when their bytes agree. */
  lemma FieldInjective(m: nat, n: nat, k: nat)
    requires m < Pow256(k) && n < Pow256(k) && Le(m, k) == Le(n, k)
    ensures m == n
  {
    LeUn(m, k);
    LeUn(n, k);
  }

  /** Equal concatenations with equally long fronts agree on both parts. */
  lemma SplitEqual(a: bytes, x: bytes, b: bytes, y: bytes)
    requires |a| == |b| && a + x == b + y
    ensures a == b && x == y
  {
    assert (a + x)[..|a|] == a && (b + y)[..|b|] == b;
    assert (a + x)[|a|..] == x && (b + y)[|b|..] == y;
  }

  /** n copies of one byte, as memset leaves them. */
  function Fill(v: byte, n: nat): (r: bytes)
    ensures |r| == n
  {
    seq(n, _ => v)
  }

  lemma SubSlice(b: bytes, a: nat, n: nat, x: nat, y: nat)
    requires a + n <= |b| && x <= y <= n
    ensures b[a..a + n][x..y] == b[a + x..a + y]
  {
    var part := b[a..a + n];
    forall k | 0 <= k < y - x
      ensures part[x..y][k] == b[a + x..a + y][k]
    {
      assert part[x + k] == b[a + x + k];
    }
  }

  // ---- bitwise operators, bit by bit ----

  function BitAnd(a: nat, b: nat): nat {
    if a == 0 || b == 0 then 0
    else 2 * BitAnd(a / 2, b / 2) + (if a % 2 == 1 && b % 2 == 1 then 1 else 0)
  }

  function BitOr(a: nat, b: nat): nat {
    if a == 0 then b else if b == 0 then a
    else 2 * BitOr(a / 2, b / 2) + (if a % 2 == 1 || b % 2 == 1 then 1 else 0)
  }

  function OddBit(a: nat, b: nat): nat {
    if a % 2 != b % 2 then 1 else 0
  }

  function BitXor(a: nat, b: nat): nat {
    if a == 0 then b else if b == 0 then a
    else 2 * BitXor(a / 2, b / 2) + OddBit(a, b)
  }

  function Pow2(k: nat): (r: nat)
    ensures r > 0
  {
    if k == 0 then 1 else 2 * Pow2(k - 1)
  }

  lemma {:induction false} BitsBound(a: nat, b: nat, k: nat)
    requires a < Pow2(k) && b < Pow2(k)
    ensures BitAnd(a, b) < Pow2(k) && BitOr(a, b) < Pow2(k) && BitXor(a, b) < Pow2(k)
  {
    if k > 0 {
      BitsBound(a / 2, b / 2, k - 1);
    }
  }

  lemma ByteBits(a: byte, b: byte)
    ensures BitAnd(a as nat, b as nat) < 256 && BitOr(a as nat, b as nat) < 256 && BitXor(a as nat, b as nat) < 256
  {
    hide BitAnd, BitOr, BitXor;
    assert Pow2(8) == 256 by { assert Pow2(4) == 16; }
    BitsBound(a as nat, b as nat, 8);
  }

  function And8(a: byte, b: byte): byte {
    ByteBits(a, b);
    BitAnd(a as nat, b as nat) as byte
  }

  function Or8(a: byte, b: byte): byte {
    ByteBits(a, b);
    BitOr(a as nat, b as nat) as byte
  }

  function Xor8(a: byte, b: byte): byte {
    ByteBits(a, b);
    BitXor(a as nat, b as nat) as byte
  }

  lemma {:induction false} BitAndSelf(a: nat)
    ensures BitAnd(a, a) == a
  {
    if a > 0 {
      BitAndSelf(a / 2);
    }
  }

  function Ones(k: nat): nat {
    if k == 0 then 0 else 2 * Ones(k - 1) + 1
  }

  lemma {:induction false} BitAndOnes(k: nat, b: nat)
    requires b <= Ones(k)
    ensures BitAnd(Ones(k), b) == b
  {
    if k > 0 && b > 0 {
      BitAndOnes(k - 1, b / 2);
    }
  }

  lemma OnesValues()
    ensures Ones(8) == 0xFF && Ones(32) == 0xFFFF_FFFF
  {
    assert Ones(4) == 15 && Ones(8) == 0xFF && Ones(12) == 0xFFF && Ones(16) == 0xFFFF;
    assert Ones(20) == 0xF_FFFF && Ones(24) == 0xFF_FFFF && Ones(28) == 0xFFF_FFFF;
  }

  /** The all-ones mask that the read command passes selects every 32-bit group. */
  lemma BitAndAllOnes(b: nat)
    requires b < 0x1_0000_0000
    ensures BitAnd(0xFFFF_FFFF, b) == b
  {
    hide BitAnd, Ones;
    OnesValues();
    BitAndOnes(32, b);
  }

  /** Programming an erased byte stores the datum itself. */
  lemma AndErased(b: byte)
    ensures And8(255, b) == b
  {
    hide BitAnd, Ones;
    OnesValues();
    BitAndOnes(8, b as nat);
  }

  lemma {:induction false} BitXorZero(a: nat, b: nat)
    ensures BitXor(a, b) == 0 <==> a == b
  {
    if a > 0 && b > 0 {
      BitXorZero(a / 2, b / 2);
    }
  }

  lemma {:induction false} BitOrZero(a: nat, b: nat)
    ensures BitOr(a, b) == 0 <==> a == 0 && b == 0
  {
    if a > 0 && b > 0 {
      BitOrZero(a / 2, b / 2);
    }
  }

  lemma {:induction false} BitXorAssoc(a: nat, b: nat, c: nat)
    ensures BitXor(BitXor(a, b), c) == BitXor(a, BitXor(b, c))
  {
    if a > 0 && b > 0 && c > 0 {
      BitXorAssoc(a / 2, b / 2, c / 2);
      XorHalves(a, b, c);
    }
  }

  function Bit(n: nat, k: nat): nat {
    if k == 0 then n % 2 else Bit(n / 2, k - 1)
  }

  /** The operators work bit by bit. */
  lemma {:induction false} BitByBit(a: nat, b: nat, k: nat)
    ensures Bit(BitAnd(a, b), k) == (if Bit(a, k) == 1 && Bit(b, k) == 1 then 1 else 0)
    ensures Bit(BitOr(a, b), k) == (if Bit(a, k) == 1 || Bit(b, k) == 1 then 1 else 0)
    ensures Bit(BitXor(a, b), k) == (if Bit(a, k) != Bit(b, k) then 1 else 0)
    decreases k
  {
    hide BitAnd, BitOr, BitXor;
    HalvesOfAnd(a, b);
    HalvesOfOr(a, b);
    HalvesOfXor(a, b);
    if k > 0 {
      BitByBit(a / 2, b / 2, k - 1);
    }
  }

  lemma HalvesOfAnd(a: nat, b: nat)
    ensures BitAnd(a, b) / 2 == BitAnd(a / 2, b / 2)
    ensures BitAnd(a, b) % 2 == if a % 2 == 1 && b % 2 == 1 then 1 else 0
  {
  }

  lemma HalvesOfOr(a: nat, b: nat)
    ensures BitOr(a, b) / 2 == BitOr(a / 2, b / 2)
    ensures BitOr(a, b) % 2 == if a % 2 == 1 || b % 2 == 1 then 1 else 0
  {
  }

  /** Programming a byte clears bits and sets none. */
  lemma AndBits(a: byte, b: byte, k: nat)
    ensures Bit(And8(a, b) as nat, k) == (if Bit(a as nat, k) == 1 && Bit(b as nat, k) == 1 then 1 else 0)
  {
    hide BitAnd, Bit;
    BitByBit(a as nat, b as nat, k);
  }

  lemma {:induction false} BitXorInjective(a: nat, b: nat, v: nat)
    requires BitXor(a, v) == BitXor(b, v)
    ensures a == b
  {
    if a > 0 || b > 0 {
      hide BitXor;
      HalvesOfXor(a, v);
      HalvesOfXor(b, v);
      BitXorInjective(a / 2, b / 2, v / 2);
      assert a % 2 == b % 2;
      SameHalves(a, b);
    }
  }

  lemma XorInjective(x: byte, y: byte, v: byte)
    requires Xor8(x, v) == Xor8(y, v)
    ensures x == y
  {
    hide BitXor;
    BitXorInjective(x as nat, y as nat, v as nat);
  }

  lemma XorHalves(a: nat, b: nat, c: nat)
    requires BitXor(BitXor(a / 2, b / 2), c / 2) == BitXor(a / 2, BitXor(b / 2, c / 2))
    ensures BitXor(BitXor(a, b), c) == BitXor(a, BitXor(b, c))
  {
    hide BitXor;
    var x, y := BitXor(a, b), BitXor(b, c);
    HalvesOfXor(a, b);
    HalvesOfXor(b, c);
    HalvesOfXor(x, c);
    HalvesOfXor(a, y);
    assert OddBit(x, c) == OddBit(a, y);
    SameHalves(BitXor(x, c), BitXor(a, y));
  }

  lemma SameHalves(m: nat, n: nat)
    requires m / 2 == n / 2 && m % 2 == n % 2
    ensures m == n
  {
  }

  lemma HalvesOfXor(a: nat, b: nat)
    ensures BitXor(a, b) / 2 == BitXor(a / 2, b / 2) && BitXor(a, b) % 2 == OddBit(a, b)
  {
  }

  lemma XorZero(x: byte, y: byte)
    ensures Xor8(x, y) == 0 <==> x == y
  {
    BitXorZero(x as nat, y as nat);
  }

  lemma OrZero(x: byte, y: byte)
    ensures Or8(x, y) == 0 <==> x == 0 && y == 0
  {
    BitOrZero(x as nat, y as nat);
  }

  /** 0x36 followed by 0x6a is 0x5c: the in-place step from HMAC's inner to its outer pad. */
  lemma XorPads(x: byte)
    ensures Xor8(Xor8(x, 0x36), 0x6a) == Xor8(x, 0x5c)
  {
    hide BitXor;
    BitXorAssoc(x as nat, 0x36, 0x6a);
    PadsDiffer();
  }

  lemma PadsDiffer()
    ensures BitXor(0x36, 0x6a) == 0x5c
  {
    assert BitXor(1, 3) == 2;
    assert BitXor(3, 6) == 5;
    assert BitXor(6, 0xd) == 0xb;
    assert BitXor(0xd, 0x1a) == 0x17;
    assert BitXor(0x1b, 0x35) == 0x2e;
  }
}
