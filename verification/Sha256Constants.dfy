/** The constants of SHA-256 against their definition: sections 4.2.2 and 5.3.3 of FIPS 180-4. */
module Sha256Constants {
  import opened Sha256Spec

  // ---- the first 64 primes ----

  ghost predicate IsPrime(n: nat) {
    n >= 2 && forall d: nat :: 2 <= d < n ==> !Divides(d, n)
  }

  ghost predicate Divides(d: nat, n: nat) {
    exists k: nat :: n == d * k
  }

  function Prime(t: nat): nat
    requires t < 64
  {
    PrimeRow(t / 8)[t % 8]
  }

  function PrimeRow(r: nat): (row: seq<nat>)
    requires r < 8
    ensures |row| == 8
  {
    match r
    case 0 => [2, 3, 5, 7, 11, 13, 17, 19]
    case 1 => [23, 29, 31, 37, 41, 43, 47, 53]
    case 2 => [59, 61, 67, 71, 73, 79, 83, 89]
    case 3 => [97, 101, 103, 107, 109, 113, 127, 131]
    case 4 => [137, 139, 149, 151, 157, 163, 167, 173]
    case 5 => [179, 181, 191, 193, 197, 199, 211, 223]
    case 6 => [227, 229, 233, 239, 241, 251, 257, 263]
    case _ => [269, 271, 277, 281, 283, 293, 307, 311]
  }

  /** Not a multiple of one of the first seven primes, unless it is that prime: below 19 * 19 that
      is what a prime is. */
  predicate Sieved(n: nat) {
    Clear(n, 2) && Clear(n, 3) && Clear(n, 5) && Clear(n, 7) && Clear(n, 11) && Clear(n, 13) && Clear(n, 17)
  }

  predicate Clear(n: nat, p: nat)
    requires p > 0
  {
    n % p != 0 || n == p
  }

  lemma Sieve0a(n: nat)
    requires 1 < n <= 7
    ensures Sieved(n) <==> n in [2, 3, 5, 7]
  {
    assert n == 2 || n == 3 || n == 4 || n == 5 || n == 6 || n == 7;
  }

  lemma Sieve0b(n: nat)
    requires 7 < n <= 19
    ensures Sieved(n) <==> n in [11, 13, 17, 19]
  {
    assert n == 8 || n == 9 || n == 10 || n == 11 || n == 12 || n == 13 || n == 14 || n == 15 || n == 16
           || n == 17 || n == 18 || n == 19;
  }

  lemma Sieve1a(n: nat)
    requires 19 < n <= 37
    ensures Sieved(n) <==> n in [23, 29, 31, 37]
  {
    assert n == 20 || n == 21 || n == 22 || n == 23 || n == 24 || n == 25 || n == 26 || n == 27 || n == 28
           || n == 29 || n == 30 || n == 31 || n == 32 || n == 33 || n == 34 || n == 35 || n == 36 || n == 37;
  }

  lemma Sieve1b(n: nat)
    requires 37 < n <= 53
    ensures Sieved(n) <==> n in [41, 43, 47, 53]
  {
    assert n == 38 || n == 39 || n == 40 || n == 41 || n == 42 || n == 43 || n == 44 || n == 45 || n == 46
           || n == 47 || n == 48 || n == 49 || n == 50 || n == 51 || n == 52 || n == 53;
  }

  lemma Sieve2a(n: nat)
    requires 53 < n <= 71
    ensures Sieved(n) <==> n in [59, 61, 67, 71]
  {
    assert n == 54 || n == 55 || n == 56 || n == 57 || n == 58 || n == 59 || n == 60 || n == 61 || n == 62
           || n == 63 || n == 64 || n == 65 || n == 66 || n == 67 || n == 68 || n == 69 || n == 70 || n == 71;
  }

  lemma Sieve2b(n: nat)
    requires 71 < n <= 89
    ensures Sieved(n) <==> n in [73, 79, 83, 89]
  {
    assert n == 72 || n == 73 || n == 74 || n == 75 || n == 76 || n == 77 || n == 78 || n == 79 || n == 80
           || n == 81 || n == 82 || n == 83 || n == 84 || n == 85 || n == 86 || n == 87 || n == 88 || n == 89;
  }

  lemma Sieve3a(n: nat)
    requires 89 < n <= 107
    ensures Sieved(n) <==> n in [97, 101, 103, 107]
  {
    assert n == 90 || n == 91 || n == 92 || n == 93 || n == 94 || n == 95 || n == 96 || n == 97 || n == 98
           || n == 99 || n == 100 || n == 101 || n == 102 || n == 103 || n == 104 || n == 105 || n == 106 || n == 107;
  }

  lemma Sieve3b(n: nat)
    requires 107 < n <= 131
    ensures Sieved(n) <==> n in [109, 113, 127, 131]
  {
    assert n == 108 || n == 109 || n == 110 || n == 111 || n == 112 || n == 113 || n == 114 || n == 115 || n == 116
           || n == 117 || n == 118 || n == 119 || n == 120 || n == 121 || n == 122 || n == 123 || n == 124 || n == 125
           || n == 126 || n == 127 || n == 128 || n == 129 || n == 130 || n == 131;
  }

  lemma Sieve4a(n: nat)
    requires 131 < n <= 151
    ensures Sieved(n) <==> n in [137, 139, 149, 151]
  {
    assert n == 132 || n == 133 || n == 134 || n == 135 || n == 136 || n == 137 || n == 138 || n == 139 || n == 140
           || n == 141 || n == 142 || n == 143 || n == 144 || n == 145 || n == 146 || n == 147 || n == 148 || n == 149
           || n == 150 || n == 151;
  }

  lemma Sieve4b(n: nat)
    requires 151 < n <= 173
    ensures Sieved(n) <==> n in [157, 163, 167, 173]
  {
    assert n == 152 || n == 153 || n == 154 || n == 155 || n == 156 || n == 157 || n == 158 || n == 159 || n == 160
           || n == 161 || n == 162 || n == 163 || n == 164 || n == 165 || n == 166 || n == 167 || n == 168 || n == 169
           || n == 170 || n == 171 || n == 172 || n == 173;
  }

  lemma Sieve5a(n: nat)
    requires 173 < n <= 193
    ensures Sieved(n) <==> n in [179, 181, 191, 193]
  {
    assert n == 174 || n == 175 || n == 176 || n == 177 || n == 178 || n == 179 || n == 180 || n == 181 || n == 182
           || n == 183 || n == 184 || n == 185 || n == 186 || n == 187 || n == 188 || n == 189 || n == 190 || n == 191
           || n == 192 || n == 193;
  }

  lemma Sieve5b(n: nat)
    requires 193 < n <= 223
    ensures Sieved(n) <==> n in [197, 199, 211, 223]
  {
    assert n == 194 || n == 195 || n == 196 || n == 197 || n == 198 || n == 199 || n == 200 || n == 201 || n == 202
           || n == 203 || n == 204 || n == 205 || n == 206 || n == 207 || n == 208 || n == 209 || n == 210 || n == 211
           || n == 212 || n == 213 || n == 214 || n == 215 || n == 216 || n == 217 || n == 218 || n == 219 || n == 220
           || n == 221 || n == 222 || n == 223;
  }

  lemma Sieve6a(n: nat)
    requires 223 < n <= 239
    ensures Sieved(n) <==> n in [227, 229, 233, 239]
  {
    assert n == 224 || n == 225 || n == 226 || n == 227 || n == 228 || n == 229 || n == 230 || n == 231 || n == 232
           || n == 233 || n == 234 || n == 235 || n == 236 || n == 237 || n == 238 || n == 239;
  }

  lemma Sieve6b(n: nat)
    requires 239 < n <= 263
    ensures Sieved(n) <==> n in [241, 251, 257, 263]
  {
    assert n == 240 || n == 241 || n == 242 || n == 243 || n == 244 || n == 245 || n == 246 || n == 247 || n == 248
           || n == 249 || n == 250 || n == 251 || n == 252 || n == 253 || n == 254 || n == 255 || n == 256 || n == 257
           || n == 258 || n == 259 || n == 260 || n == 261 || n == 262 || n == 263;
  }

  lemma Sieve7a(n: nat)
    requires 263 < n <= 281
    ensures Sieved(n) <==> n in [269, 271, 277, 281]
  {
    assert n == 264 || n == 265 || n == 266 || n == 267 || n == 268 || n == 269 || n == 270 || n == 271 || n == 272
           || n == 273 || n == 274 || n == 275 || n == 276 || n == 277 || n == 278 || n == 279 || n == 280 || n == 281;
  }

  lemma Sieve7b(n: nat)
    requires 281 < n <= 311
    ensures Sieved(n) <==> n in [283, 293, 307, 311]
  {
    assert n == 282 || n == 283 || n == 284 || n == 285 || n == 286 || n == 287 || n == 288 || n == 289 || n == 290
           || n == 291 || n == 292 || n == 293 || n == 294 || n == 295 || n == 296 || n == 297 || n == 298 || n == 299
           || n == 300 || n == 301 || n == 302 || n == 303 || n == 304 || n == 305 || n == 306 || n == 307 || n == 308
           || n == 309 || n == 310 || n == 311;
  }

  lemma PrimesIncrease(t: nat)
    requires t < 63
    ensures Prime(t) < Prime(t + 1)
  {
    hide PrimeRow;
    var r := t / 8;
    if t % 8 < 7 {
      RowIncreases(r);
      assert t + 1 == 8 * r + (t % 8 + 1);
    } else {
      RowsIncrease(r);
      assert t + 1 == 8 * (r + 1);
    }
  }

  lemma RowIncreases(r: nat)
    requires r < 8
    ensures forall i :: 0 <= i < 7 ==> PrimeRow(r)[i] < PrimeRow(r)[i + 1]
  {
  }

  lemma RowsIncrease(r: nat)
    requires r < 7
    ensures PrimeRow(r)[7] < PrimeRow(r + 1)[0]
  {
  }

  predicate IsProduct(n: nat, d: nat, k: nat) {
    n == d * k
  }

  lemma Factor(n: nat, d: nat, k: nat, p: nat, l: nat) returns (m: nat)
    requires IsProduct(n, d, k) && d == p * l
    ensures n == p * m
  {
    m := l * k;
  }

  lemma Multiple2(n: nat, m: nat)
    requires n == 2 * m && n != 2
    ensures !Clear(n, 2)
  {
  }

  lemma Multiple3(n: nat, m: nat)
    requires n == 3 * m && n != 3
    ensures !Clear(n, 3)
  {
  }

  lemma Multiple5(n: nat, m: nat)
    requires n == 5 * m && n != 5
    ensures !Clear(n, 5)
  {
  }

  lemma Multiple7(n: nat, m: nat)
    requires n == 7 * m && n != 7
    ensures !Clear(n, 7)
  {
  }

  lemma Multiple11(n: nat, m: nat)
    requires n == 11 * m && n != 11
    ensures !Clear(n, 11)
  {
  }

  lemma Multiple13(n: nat, m: nat)
    requires n == 13 * m && n != 13
    ensures !Clear(n, 13)
  {
  }

  lemma Multiple17(n: nat, m: nat)
    requires n == 17 * m && n != 17
    ensures !Clear(n, 17)
  {
  }

  lemma NoSmallDivisor(n: nat, d: nat, k: nat)
    requires 2 <= d <= 18 && d < n && IsProduct(n, d, k)
    ensures !Sieved(n)
  {
    hide IsProduct, Clear;
    if d % 2 == 0 {
      var m := Factor(n, d, k, 2, d / 2);
      Multiple2(n, m);
    } else if d % 3 == 0 {
      var m := Factor(n, d, k, 3, d / 3);
      Multiple3(n, m);
    } else if d % 5 == 0 {
      var m := Factor(n, d, k, 5, d / 5);
      Multiple5(n, m);
    } else if d % 7 == 0 {
      var m := Factor(n, d, k, 7, d / 7);
      Multiple7(n, m);
    } else if d % 11 == 0 {
      var m := Factor(n, d, k, 11, d / 11);
      Multiple11(n, m);
    } else if d % 13 == 0 {
      var m := Factor(n, d, k, 13, d / 13);
      Multiple13(n, m);
    } else if d % 17 == 0 {
      var m := Factor(n, d, k, 17, d / 17);
      Multiple17(n, m);
    }
  }

  lemma NoDivisor(n: nat, d: nat)
    requires Sieved(n) && 2 <= d < n < 361
    ensures !Divides(d, n)
  {
    if k: nat :| n == d * k {
      if d <= 18 {
        NoSmallDivisor(n, d, k);
      } else {
        SmallCofactor(n, d, k);
        NoSmallDivisor(n, k, d);
      }
    }
  }

  lemma SmallCofactor(n: nat, d: nat, k: nat)
    requires n == d * k && d < n < 361 && d > 18
    ensures 2 <= k <= 18 && k < n
  {
    assert k >= 19 ==> 19 * 19 <= d * k;
  }

  lemma SievedIsPrime(n: nat)
    requires 2 <= n < 361
    ensures IsPrime(n) <==> Sieved(n)
  {
    if Sieved(n) {
      forall d: nat | 2 <= d < n
        ensures !Divides(d, n)
      {
        NoDivisor(n, d);
      }
    } else {
      if n % 2 == 0 && n != 2 {
        Composite(n, 2, n / 2);
      } else if n % 3 == 0 && n != 3 {
        Composite(n, 3, n / 3);
      } else if n % 5 == 0 && n != 5 {
        Composite(n, 5, n / 5);
      } else if n % 7 == 0 && n != 7 {
        Composite(n, 7, n / 7);
      } else if n % 11 == 0 && n != 11 {
        Composite(n, 11, n / 11);
      } else if n % 13 == 0 && n != 13 {
        Composite(n, 13, n / 13);
      } else if n % 17 == 0 && n != 17 {
        Composite(n, 17, n / 17);
      }
    }
  }

  lemma Composite(n: nat, d: nat, k: nat)
    requires 2 <= d < n && n == d * k
    ensures !IsPrime(n)
  {
    assert Divides(d, n);
  }

  /** Row r holds exactly the primes up to its last entry that are not in an earlier row. */
  lemma RowIsPrimes(r: nat, n: nat)
    requires r < 8 && (if r == 0 then 1 else PrimeRow(r - 1)[7]) < n <= PrimeRow(r)[7]
    ensures IsPrime(n) <==> n in PrimeRow(r)
  {
    hide IsPrime, Sieved;
    SievedIsPrime(n);
    match r
    case 0 =>
      if n <= 7 { Sieve0a(n); } else { Sieve0b(n); }
      assert PrimeRow(0) == [2, 3, 5, 7, 11, 13, 17, 19];
    case 1 =>
      if n <= 37 { Sieve1a(n); } else { Sieve1b(n); }
      assert PrimeRow(1) == [23, 29, 31, 37, 41, 43, 47, 53];
    case 2 =>
      if n <= 71 { Sieve2a(n); } else { Sieve2b(n); }
      assert PrimeRow(2) == [59, 61, 67, 71, 73, 79, 83, 89];
    case 3 =>
      if n <= 107 { Sieve3a(n); } else { Sieve3b(n); }
      assert PrimeRow(3) == [97, 101, 103, 107, 109, 113, 127, 131];
    case 4 =>
      if n <= 151 { Sieve4a(n); } else { Sieve4b(n); }
      assert PrimeRow(4) == [137, 139, 149, 151, 157, 163, 167, 173];
    case 5 =>
      if n <= 193 { Sieve5a(n); } else { Sieve5b(n); }
      assert PrimeRow(5) == [179, 181, 191, 193, 197, 199, 211, 223];
    case 6 =>
      if n <= 239 { Sieve6a(n); } else { Sieve6b(n); }
      assert PrimeRow(6) == [227, 229, 233, 239, 241, 251, 257, 263];
    case _ =>
      if n <= 281 { Sieve7a(n); } else { Sieve7b(n); }
      assert PrimeRow(7) == [269, 271, 277, 281, 283, 293, 307, 311];
  }

  // ---- the constants ----

  predicate CubeRoot(p: nat, n: nat) {
    n * n * n <= p * 0x1_0000_0000_0000_0000_0000_0000 < (n + 1) * (n + 1) * (n + 1)
  }

  predicate SquareRoot(p: nat, n: nat) {
    n * n <= p * 0x1_0000_0000_0000_0000 < (n + 1) * (n + 1)
  }

  /** k is the first 32 bits of the fractional part of the cube root of p. */
  ghost predicate CubeFraction(p: nat, k: word) {
    exists q: nat :: CubeRoot(p, q * 0x1_0000_0000 + k as nat)
  }

  ghost predicate SquareFraction(p: nat, k: word) {
    exists q: nat :: SquareRoot(p, q * 0x1_0000_0000 + k as nat)
  }

  lemma CubeRow0()
    ensures forall i :: 0 <= i < 8 ==> CubeFraction(PrimeRow(0)[i], KRow(0)[i])
  {
    assert CubeRoot(2, 1 * 0x1_0000_0000 + 0x428a2f98);
    assert CubeRoot(3, 1 * 0x1_0000_0000 + 0x71374491);
    assert CubeRoot(5, 1 * 0x1_0000_0000 + 0xb5c0fbcf);
    assert CubeRoot(7, 1 * 0x1_0000_0000 + 0xe9b5dba5);
    assert CubeRoot(11, 2 * 0x1_0000_0000 + 0x3956c25b);
    assert CubeRoot(13, 2 * 0x1_0000_0000 + 0x59f111f1);
    assert CubeRoot(17, 2 * 0x1_0000_0000 + 0x923f82a4);
    assert CubeRoot(19, 2 * 0x1_0000_0000 + 0xab1c5ed5);
  }

  lemma CubeRow1()
    ensures forall i :: 0 <= i < 8 ==> CubeFraction(PrimeRow(1)[i], KRow(1)[i])
  {
    assert CubeRoot(23, 2 * 0x1_0000_0000 + 0xd807aa98);
    assert CubeRoot(29, 3 * 0x1_0000_0000 + 0x12835b01);
    assert CubeRoot(31, 3 * 0x1_0000_0000 + 0x243185be);
    assert CubeRoot(37, 3 * 0x1_0000_0000 + 0x550c7dc3);
    assert CubeRoot(41, 3 * 0x1_0000_0000 + 0x72be5d74);
    assert CubeRoot(43, 3 * 0x1_0000_0000 + 0x80deb1fe);
    assert CubeRoot(47, 3 * 0x1_0000_0000 + 0x9bdc06a7);
    assert CubeRoot(53, 3 * 0x1_0000_0000 + 0xc19bf174);
  }

  lemma CubeRow2()
    ensures forall i :: 0 <= i < 8 ==> CubeFraction(PrimeRow(2)[i], KRow(2)[i])
  {
    assert CubeRoot(59, 3 * 0x1_0000_0000 + 0xe49b69c1);
    assert CubeRoot(61, 3 * 0x1_0000_0000 + 0xefbe4786);
    assert CubeRoot(67, 4 * 0x1_0000_0000 + 0x0fc19dc6);
    assert CubeRoot(71, 4 * 0x1_0000_0000 + 0x240ca1cc);
    assert CubeRoot(73, 4 * 0x1_0000_0000 + 0x2de92c6f);
    assert CubeRoot(79, 4 * 0x1_0000_0000 + 0x4a7484aa);
    assert CubeRoot(83, 4 * 0x1_0000_0000 + 0x5cb0a9dc);
    assert CubeRoot(89, 4 * 0x1_0000_0000 + 0x76f988da);
  }

  lemma CubeRow3()
    ensures forall i :: 0 <= i < 8 ==> CubeFraction(PrimeRow(3)[i], KRow(3)[i])
  {
    assert CubeRoot(97, 4 * 0x1_0000_0000 + 0x983e5152);
    assert CubeRoot(101, 4 * 0x1_0000_0000 + 0xa831c66d);
    assert CubeRoot(103, 4 * 0x1_0000_0000 + 0xb00327c8);
    assert CubeRoot(107, 4 * 0x1_0000_0000 + 0xbf597fc7);
    assert CubeRoot(109, 4 * 0x1_0000_0000 + 0xc6e00bf3);
    assert CubeRoot(113, 4 * 0x1_0000_0000 + 0xd5a79147);
    assert CubeRoot(127, 5 * 0x1_0000_0000 + 0x06ca6351);
    assert CubeRoot(131, 5 * 0x1_0000_0000 + 0x14292967);
  }

  lemma CubeRow4()
    ensures forall i :: 0 <= i < 8 ==> CubeFraction(PrimeRow(4)[i], KRow(4)[i])
  {
    assert CubeRoot(137, 5 * 0x1_0000_0000 + 0x27b70a85);
    assert CubeRoot(139, 5 * 0x1_0000_0000 + 0x2e1b2138);
    assert CubeRoot(149, 5 * 0x1_0000_0000 + 0x4d2c6dfc);
    assert CubeRoot(151, 5 * 0x1_0000_0000 + 0x53380d13);
    assert CubeRoot(157, 5 * 0x1_0000_0000 + 0x650a7354);
    assert CubeRoot(163, 5 * 0x1_0000_0000 + 0x766a0abb);
    assert CubeRoot(167, 5 * 0x1_0000_0000 + 0x81c2c92e);
    assert CubeRoot(173, 5 * 0x1_0000_0000 + 0x92722c85);
  }

  lemma CubeRow5()
    ensures forall i :: 0 <= i < 8 ==> CubeFraction(PrimeRow(5)[i], KRow(5)[i])
  {
    assert CubeRoot(179, 5 * 0x1_0000_0000 + 0xa2bfe8a1);
    assert CubeRoot(181, 5 * 0x1_0000_0000 + 0xa81a664b);
    assert CubeRoot(191, 5 * 0x1_0000_0000 + 0xc24b8b70);
    assert CubeRoot(193, 5 * 0x1_0000_0000 + 0xc76c51a3);
    assert CubeRoot(197, 5 * 0x1_0000_0000 + 0xd192e819);
    assert CubeRoot(199, 5 * 0x1_0000_0000 + 0xd6990624);
    assert CubeRoot(211, 5 * 0x1_0000_0000 + 0xf40e3585);
    assert CubeRoot(223, 6 * 0x1_0000_0000 + 0x106aa070);
  }

  lemma CubeRow6()
    ensures forall i :: 0 <= i < 8 ==> CubeFraction(PrimeRow(6)[i], KRow(6)[i])
  {
    assert CubeRoot(227, 6 * 0x1_0000_0000 + 0x19a4c116);
    assert CubeRoot(229, 6 * 0x1_0000_0000 + 0x1e376c08);
    assert CubeRoot(233, 6 * 0x1_0000_0000 + 0x2748774c);
    assert CubeRoot(239, 6 * 0x1_0000_0000 + 0x34b0bcb5);
    assert CubeRoot(241, 6 * 0x1_0000_0000 + 0x391c0cb3);
    assert CubeRoot(251, 6 * 0x1_0000_0000 + 0x4ed8aa4a);
    assert CubeRoot(257, 6 * 0x1_0000_0000 + 0x5b9cca4f);
    assert CubeRoot(263, 6 * 0x1_0000_0000 + 0x682e6ff3);
  }

  lemma CubeRow7()
    ensures forall i :: 0 <= i < 8 ==> CubeFraction(PrimeRow(7)[i], KRow(7)[i])
  {
    assert CubeRoot(269, 6 * 0x1_0000_0000 + 0x748f82ee);
    assert CubeRoot(271, 6 * 0x1_0000_0000 + 0x78a5636f);
    assert CubeRoot(277, 6 * 0x1_0000_0000 + 0x84c87814);
    assert CubeRoot(281, 6 * 0x1_0000_0000 + 0x8cc70208);
    assert CubeRoot(283, 6 * 0x1_0000_0000 + 0x90befffa);
    assert CubeRoot(293, 6 * 0x1_0000_0000 + 0xa4506ceb);
    assert CubeRoot(307, 6 * 0x1_0000_0000 + 0xbef9a3f7);
    assert CubeRoot(311, 6 * 0x1_0000_0000 + 0xc67178f2);
  }

  /** Section 4.2.2: the round constants are the first 32 fractional bits of the cube roots of the
      first 64 primes. */
  lemma RoundConstants(t: nat)
    requires t < 64
    ensures CubeFraction(Prime(t), K(t))
  {
    hide CubeFraction;
    match t / 8
    case 0 => CubeRow0();
    case 1 => CubeRow1();
    case 2 => CubeRow2();
    case 3 => CubeRow3();
    case 4 => CubeRow4();
    case 5 => CubeRow5();
    case 6 => CubeRow6();
    case _ => CubeRow7();
  }

  /** Section 5.3.3: the initial hash value, from the square roots of the first eight. */
  lemma InitialHash()
    ensures SquareFraction(Prime(0), H0.a) && SquareFraction(Prime(1), H0.b)
    ensures SquareFraction(Prime(2), H0.c) && SquareFraction(Prime(3), H0.d)
    ensures SquareFraction(Prime(4), H0.e) && SquareFraction(Prime(5), H0.f)
    ensures SquareFraction(Prime(6), H0.g) && SquareFraction(Prime(7), H0.h)
  {
    hide SquareFraction;
    assert PrimeRow(0) == [2, 3, 5, 7, 11, 13, 17, 19];
    SquareRootIs(2, 1, 0x6a09e667);
    SquareRootIs(3, 1, 0xbb67ae85);
    SquareRootIs(5, 2, 0x3c6ef372);
    SquareRootIs(7, 2, 0xa54ff53a);
    SquareRootIs(11, 3, 0x510e527f);
    SquareRootIs(13, 3, 0x9b05688c);
    SquareRootIs(17, 4, 0x1f83d9ab);
    SquareRootIs(19, 4, 0x5be0cd19);
  }

  lemma SquareRootIs(p: nat, q: nat, k: word)
    requires SquareRoot(p, q * 0x1_0000_0000 + k as nat)
    ensures SquareFraction(p, k)
  {
  }
}
