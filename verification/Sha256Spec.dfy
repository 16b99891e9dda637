/** SHA-256 as FIPS 180-4 defines it: sections 4.1.2 (functions), 5.1.1 (padding), 6.2.1 and 6.2.2
    (the hash computation), on a whole message at a time. */
module Sha256Spec {
  import opened Bytes

  /** A 32-bit word; sums are modulo 2^32. */
  type word = x: bv32 | true

  function Add(x: word, y: word): word {
    x + y
  }

  function Sum4(a: word, b: word, c: word, d: word): word {
    a + b + c + d
  }

  function Sum5(a: word, b: word, c: word, d: word, e: word): word {
    a + b + c + d + e
  }

  function Rotr(x: word, n: word): word
    requires 0 < n < 32
  {
    (x >> n) | (x << (32 - n))
  }

  function Shr(x: word, n: word): word
    requires 0 < n < 32
  {
    x >> n
  }

  function Xor3(x: word, y: word, z: word): word {
    x ^ y ^ z
  }

  function Ch(x: word, y: word, z: word): word {
    (x & y) ^ (!x & z)
  }

  function Maj(x: word, y: word, z: word): word {
    (x & y) ^ (x & z) ^ (y & z)
  }

  function BigSigma0(x: word): word {
    Xor3(Rotr(x, 2), Rotr(x, 13), Rotr(x, 22))
  }

  function BigSigma1(x: word): word {
    Xor3(Rotr(x, 6), Rotr(x, 11), Rotr(x, 25))
  }

  function SmallSigma0(x: word): word {
    Xor3(Rotr(x, 7), Rotr(x, 18), Shr(x, 3))
  }

  function SmallSigma1(x: word): word {
    Xor3(Rotr(x, 17), Rotr(x, 19), Shr(x, 10))
  }

  /** Section 4.2.2: the round constants. */
  function K(t: nat): word
    requires t < 64
  {
    KRow(t / 8)[t % 8]
  }

  function KRow(r: nat): (row: seq<word>)
    requires r < 8
    ensures |row| == 8
  {
    match r
    case 0 => [0x428a2f98, 0x71374491, 0xb5c0fbcf, 0xe9b5dba5, 0x3956c25b, 0x59f111f1, 0x923f82a4, 0xab1c5ed5]
    case 1 => [0xd807aa98, 0x12835b01, 0x243185be, 0x550c7dc3, 0x72be5d74, 0x80deb1fe, 0x9bdc06a7, 0xc19bf174]
    case 2 => [0xe49b69c1, 0xefbe4786, 0x0fc19dc6, 0x240ca1cc, 0x2de92c6f, 0x4a7484aa, 0x5cb0a9dc, 0x76f988da]
    case 3 => [0x983e5152, 0xa831c66d, 0xb00327c8, 0xbf597fc7, 0xc6e00bf3, 0xd5a79147, 0x06ca6351, 0x14292967]
    case 4 => [0x27b70a85, 0x2e1b2138, 0x4d2c6dfc, 0x53380d13, 0x650a7354, 0x766a0abb, 0x81c2c92e, 0x92722c85]
    case 5 => [0xa2bfe8a1, 0xa81a664b, 0xc24b8b70, 0xc76c51a3, 0xd192e819, 0xd6990624, 0xf40e3585, 0x106aa070]
    case 6 => [0x19a4c116, 0x1e376c08, 0x2748774c, 0x34b0bcb5, 0x391c0cb3, 0x4ed8aa4a, 0x5b9cca4f, 0x682e6ff3]
    case _ => [0x748f82ee, 0x78a5636f, 0x84c87814, 0x8cc70208, 0x90befffa, 0xa4506ceb, 0xbef9a3f7, 0xc67178f2]
  }

  /** The eight working variables, and likewise the eight words of a hash value. */
  datatype Vars = Vars(a: word, b: word, c: word, d: word, e: word, f: word, g: word, h: word)

  /** Section 5.3.3. */
  const H0: Vars := Vars(0x6a09e667, 0xbb67ae85, 0x3c6ef372, 0xa54ff53a, 0x510e527f, 0x9b05688c, 0x1f83d9ab, 0x5be0cd19)

  /** Word t of a block, most significant byte first. */
  function BlockWord(block: bytes, t: nat): word
    requires |block| == 64 && t < 16
  {
    Packed(block[4 * t] as word, block[4 * t + 1] as word, block[4 * t + 2] as word, block[4 * t + 3] as word)
  }

  function Packed(p: word, q: word, r: word, s: word): word {
    (p << 24) | (q << 16) | (r << 8) | s
  }

  /** Step 1 of section 6.2.2: the message schedule. */
  function W(block: bytes, t: nat): word
    requires |block| == 64 && t < 64
  {
    if t < 16 then BlockWord(block, t)
    else Sum4(SmallSigma1(W(block, t - 2)), W(block, t - 7), SmallSigma0(W(block, t - 15)), W(block, t - 16))
  }

  lemma GivenWord(block: bytes, t: nat)
    requires |block| == 64 && t < 16
    ensures W(block, t) == BlockWord(block, t)
  {
  }

  /** Step 3, one round. */
  function Round(v: Vars, k: word, w: word): Vars {
    var t1 := Sum5(v.h, BigSigma1(v.e), Ch(v.e, v.f, v.g), k, w);
    var t2 := Add(BigSigma0(v.a), Maj(v.a, v.b, v.c));
    Vars(Add(t1, t2), v.a, v.b, v.c, Add(v.d, t1), v.e, v.f, v.g)
  }

  function Rounds(v: Vars, block: bytes, t: nat): Vars
    requires |block| == 64 && t <= 64
  {
    if t == 0 then v else Round(Rounds(v, block, t - 1), K(t - 1), W(block, t - 1))
  }

  /** Step 4. */
  function AddVars(x: Vars, y: Vars): Vars {
    Vars(Add(x.a, y.a), Add(x.b, y.b), Add(x.c, y.c), Add(x.d, y.d), Add(x.e, y.e), Add(x.f, y.f), Add(x.g, y.g), Add(x.h, y.h))
  }

  function Compress(v: Vars, block: bytes): Vars
    requires |block| == 64
  {
    AddVars(v, Rounds(v, block, 64))
  }

  /** The hash value after the first n blocks of p. */
  function HashBlocks(p: bytes, n: nat): Vars
    requires 64 * n <= |p|
  {
    if n == 0 then H0 else Compress(HashBlocks(p, n - 1), p[64 * (n - 1)..64 * n])
  }

  /** The bits in n bytes, as far as 64 bits can count them: exactly 8 * n below 2^61 bytes, which
      is the whole range of the standard. */
  function BitCount(n: nat): nat {
    8 * n % 0x1_0000_0000_0000_0000
  }

  /** A 64-bit number, most significant byte first. */
  function Be64(n: nat): (r: bytes)
    ensures |r| == 8
  {
    [(n / 0x100_0000_0000_0000 % 256) as byte, (n / 0x1_0000_0000_0000 % 256) as byte,
     (n / 0x100_0000_0000 % 256) as byte, (n / 0x1_0000_0000 % 256) as byte,
     (n / 0x100_0000 % 256) as byte, (n / 0x1_0000 % 256) as byte,
     (n / 0x100 % 256) as byte, (n % 256) as byte]
  }

  /** Section 5.1.1: the number of zero bytes between the 0x80 byte and the length. */
  function ZeroCount(n: nat): (k: nat)
    ensures k < 64 && (n + 1 + k) % 64 == 56
  {
    (119 - n % 64) % 64
  }

  lemma PaddedSize(n: nat)
    ensures (n + 1 + ZeroCount(n) + 8) % 64 == 0
  {
  }

  function Pad(m: bytes): (p: bytes)
    ensures |p| % 64 == 0 && |p| == |m| + 1 + ZeroCount(|m|) + 8
  {
    PaddedSize(|m|);
    m + [0x80] + Fill(0, ZeroCount(|m|)) + Be64(BitCount(|m|))
  }

  function WordBytes(x: word): (r: bytes)
    ensures |r| == 4
  {
    [LowByte(x >> 24), LowByte(x >> 16), LowByte(x >> 8), LowByte(x)]
  }

  function LowByte(x: word): byte {
    (x & 0xff) as bv8 as byte
  }

  function DigestOf(v: Vars): (r: bytes)
    ensures |r| == 32
  {
    WordBytes(v.a) + WordBytes(v.b) + WordBytes(v.c) + WordBytes(v.d)
    + WordBytes(v.e) + WordBytes(v.f) + WordBytes(v.g) + WordBytes(v.h)
  }

  function PaddedHash(m: bytes): Vars {
    HashBlocks(Pad(m), |Pad(m)| / 64)
  }

  function Sha256(m: bytes): (r: bytes)
    ensures |r| == 32
  {
    DigestOf(PaddedHash(m))
  }

  /** Hashing n blocks depends only on those blocks. */
  lemma {:induction false} HashBlocksPrefix(p: bytes, q: bytes, n: nat)
    requires 64 * n <= |p| && 64 * n <= |q| && p[..64 * n] == q[..64 * n]
    ensures HashBlocks(p, n) == HashBlocks(q, n)
  {
    hide Compress;
    if n > 0 {
      assert p[..64 * (n - 1)] == p[..64 * n][..64 * (n - 1)] == q[..64 * (n - 1)];
      assert p[64 * (n - 1)..64 * n] == p[..64 * n][64 * (n - 1)..] == q[64 * (n - 1)..64 * n];
      HashBlocksPrefix(p, q, n - 1);
    }
  }
}
