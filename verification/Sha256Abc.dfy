/** What SHA-256 makes of the message "abc": the schedule, the rounds and the digest. */
module Sha256Abc {
  import opened Bytes
  import opened Sha256Spec

  // ---- the length field ----

  /** The length field is the bit count, most significant byte first. */
  lemma LengthField(n: nat)
    requires n < 0x1_0000_0000_0000_0000
    ensures BigEndian(Be64(n)) == n
  {
    hide BigEndian;
    var b := Be64(n);
    assert BigEndian([]) == 0 by { Nothing(); }
    assert b[..0] == [] && b[..8] == b;
    OneMoreByte(b, 0, n / 0x100_0000_0000_0000);
    OneMoreByte(b, 1, n / 0x1_0000_0000_0000);
    OneMoreByte(b, 2, n / 0x100_0000_0000);
    OneMoreByte(b, 3, n / 0x1_0000_0000);
    OneMoreByte(b, 4, n / 0x100_0000);
    OneMoreByte(b, 5, n / 0x1_0000);
    OneMoreByte(b, 6, n / 0x100);
    OneMoreByte(b, 7, n);
  }

  /** The first k bytes stand for m / 256 when the first k + 1 are to stand for m. */
  lemma OneMoreByte(b: bytes, k: nat, m: nat)
    requires k < |b| && BigEndian(b[..k]) == m / 256 && b[k] as nat == m % 256
    ensures BigEndian(b[..k + 1]) == m
  {
    assert b[..k + 1][..k] == b[..k];
  }

  lemma Nothing()
    ensures BigEndian([]) == 0
  {
  }

  function BigEndian(b: bytes): nat {
    if b == [] then 0 else 256 * BigEndian(b[..|b| - 1]) + b[|b| - 1] as nat
  }

  // ---- the block ----

  ghost predicate Word(b: bytes, t: nat, x: word) {
    |b| == 64 && t < 64 && W(b, t) == x
  }

  ghost predicate Words(b: bytes, r: nat, x0: word, x1: word, x2: word, x3: word, x4: word, x5: word, x6: word, x7: word) {
    && Word(b, 8 * r, x0) && Word(b, 8 * r + 1, x1) && Word(b, 8 * r + 2, x2) && Word(b, 8 * r + 3, x3)
    && Word(b, 8 * r + 4, x4) && Word(b, 8 * r + 5, x5) && Word(b, 8 * r + 6, x6) && Word(b, 8 * r + 7, x7)
  }

  ghost predicate State(b: bytes, t: nat, v: Vars) {
    |b| == 64 && t <= 64 && Rounds(H0, b, t) == v
  }

  lemma NextWord(b: bytes, t: nat, w16: word, w15: word, w7: word, w2: word) returns (x: word)
    requires 16 <= t < 64 && Word(b, t - 16, w16) && Word(b, t - 15, w15) && Word(b, t - 7, w7) && Word(b, t - 2, w2)
    ensures x == Sum4(SmallSigma1(w2), w7, SmallSigma0(w15), w16) && Word(b, t, x)
  {
    hide Sum4, SmallSigma0, SmallSigma1;
    x := W(b, t);
  }

  lemma NextRound(b: bytes, t: nat, v: Vars, w: word) returns (u: Vars)
    requires State(b, t, v) && Word(b, t, w)
    ensures u == Round(v, K(t), w) && State(b, t + 1, u)
  {
    hide K, W, Round;
    u := Round(v, K(t), w);
  }

  lemma AbcRounds0a(b: bytes)
    requires Words(b, 0, 0x61626380, 0x00000000, 0x00000000, 0x00000000, 0x00000000, 0x00000000, 0x00000000, 0x00000000)
    requires State(b, 0, Vars(0x6a09e667, 0xbb67ae85, 0x3c6ef372, 0xa54ff53a, 0x510e527f, 0x9b05688c, 0x1f83d9ab, 0x5be0cd19))
    ensures State(b, 4, Vars(0xd550f666, 0xc8c347a7, 0x5a6ad9ad, 0x5d6aebcd, 0x24e00850, 0xf92939eb, 0x78ce7989, 0xfa2a4622))
  {
    hide State, Word;
    var v := Vars(0x6a09e667, 0xbb67ae85, 0x3c6ef372, 0xa54ff53a, 0x510e527f, 0x9b05688c, 0x1f83d9ab, 0x5be0cd19);
    v := NextRound(b, 0, v, 0x61626380);
    v := NextRound(b, 1, v, 0x00000000);
    v := NextRound(b, 2, v, 0x00000000);
    v := NextRound(b, 3, v, 0x00000000);
  }

  lemma AbcRounds0b(b: bytes)
    requires Words(b, 0, 0x61626380, 0x00000000, 0x00000000, 0x00000000, 0x00000000, 0x00000000, 0x00000000, 0x00000000)
    requires State(b, 4, Vars(0xd550f666, 0xc8c347a7, 0x5a6ad9ad, 0x5d6aebcd, 0x24e00850, 0xf92939eb, 0x78ce7989, 0xfa2a4622))
    ensures State(b, 8, Vars(0x85a07b5f, 0xe5030380, 0x2b4209f5, 0x04409a6a, 0x0c657a79, 0x9b27a401, 0x714260ad, 0x43ada245))
  {
    hide State, Word;
    var v := Vars(0xd550f666, 0xc8c347a7, 0x5a6ad9ad, 0x5d6aebcd, 0x24e00850, 0xf92939eb, 0x78ce7989, 0xfa2a4622);
    v := NextRound(b, 4, v, 0x00000000);
    v := NextRound(b, 5, v, 0x00000000);
    v := NextRound(b, 6, v, 0x00000000);
    v := NextRound(b, 7, v, 0x00000000);
  }

  lemma AbcRounds1a(b: bytes)
    requires Words(b, 1, 0x00000000, 0x00000000, 0x00000000, 0x00000000, 0x00000000, 0x00000000, 0x00000000, 0x00000018)
    requires State(b, 8, Vars(0x85a07b5f, 0xe5030380, 0x2b4209f5, 0x04409a6a, 0x0c657a79, 0x9b27a401, 0x714260ad, 0x43ada245))
    ensures State(b, 12, Vars(0xf71fc5a9, 0x4798a3f4, 0x8c87346b, 0x8e04ecb9, 0x816fd6e9, 0x436b23e8, 0x1cc92596, 0x32ca2d8c))
  {
    hide State, Word;
    var v := Vars(0x85a07b5f, 0xe5030380, 0x2b4209f5, 0x04409a6a, 0x0c657a79, 0x9b27a401, 0x714260ad, 0x43ada245);
    v := NextRound(b, 8, v, 0x00000000);
    v := NextRound(b, 9, v, 0x00000000);
    v := NextRound(b, 10, v, 0x00000000);
    v := NextRound(b, 11, v, 0x00000000);
  }

  lemma AbcRounds1b(b: bytes)
    requires Words(b, 1, 0x00000000, 0x00000000, 0x00000000, 0x00000000, 0x00000000, 0x00000000, 0x00000000, 0x00000018)
    requires State(b, 12, Vars(0xf71fc5a9, 0x4798a3f4, 0x8c87346b, 0x8e04ecb9, 0x816fd6e9, 0x436b23e8, 0x1cc92596, 0x32ca2d8c))
    ensures State(b, 16, Vars(0xb0fa238e, 0xc0645fde, 0xd932eb16, 0x87912990, 0x07590dcd, 0x0b92f20c, 0x745a48de, 0x1e578218))
  {
    hide State, Word;
    var v := Vars(0xf71fc5a9, 0x4798a3f4, 0x8c87346b, 0x8e04ecb9, 0x816fd6e9, 0x436b23e8, 0x1cc92596, 0x32ca2d8c);
    v := NextRound(b, 12, v, 0x00000000);
    v := NextRound(b, 13, v, 0x00000000);
    v := NextRound(b, 14, v, 0x00000000);
    v := NextRound(b, 15, v, 0x00000018);
  }

  lemma AbcWords2(b: bytes)
    requires Words(b, 0, 0x61626380, 0x00000000, 0x00000000, 0x00000000, 0x00000000, 0x00000000, 0x00000000, 0x00000000)
    requires Words(b, 1, 0x00000000, 0x00000000, 0x00000000, 0x00000000, 0x00000000, 0x00000000, 0x00000000, 0x00000018)
    ensures Words(b, 2, 0x61626380, 0x000f0000, 0x7da86405, 0x600003c6, 0x3e9d7b78, 0x0183fc00, 0x12dcbfdb, 0xe2e2c38e)
  {
    hide Word;
    var x16 := NextWord(b, 16, 0x61626380, 0x00000000, 0x00000000, 0x00000000);
    var x17 := NextWord(b, 17, 0x00000000, 0x00000000, 0x00000000, 0x00000018);
    var x18 := NextWord(b, 18, 0x00000000, 0x00000000, 0x00000000, x16);
    var x19 := NextWord(b, 19, 0x00000000, 0x00000000, 0x00000000, x17);
    var x20 := NextWord(b, 20, 0x00000000, 0x00000000, 0x00000000, x18);
    var x21 := NextWord(b, 21, 0x00000000, 0x00000000, 0x00000000, x19);
    var x22 := NextWord(b, 22, 0x00000000, 0x00000000, 0x00000018, x20);
    var x23 := NextWord(b, 23, 0x00000000, 0x00000000, x16, x21);
  }

  lemma AbcRounds2a(b: bytes)
    requires Words(b, 2, 0x61626380, 0x000f0000, 0x7da86405, 0x600003c6, 0x3e9d7b78, 0x0183fc00, 0x12dcbfdb, 0xe2e2c38e)
    requires State(b, 16, Vars(0xb0fa238e, 0xc0645fde, 0xd932eb16, 0x87912990, 0x07590dcd, 0x0b92f20c, 0x745a48de, 0x1e578218))
    ensures State(b, 20, Vars(0xe1f20c33, 0xfe777bbf, 0xc2fbd9d1, 0x21da9a9b, 0xb0638179, 0xcc899961, 0x846ee454, 0x8034229c))
  {
    hide State, Word;
    var v := Vars(0xb0fa238e, 0xc0645fde, 0xd932eb16, 0x87912990, 0x07590dcd, 0x0b92f20c, 0x745a48de, 0x1e578218);
    v := NextRound(b, 16, v, 0x61626380);
    v := NextRound(b, 17, v, 0x000f0000);
    v := NextRound(b, 18, v, 0x7da86405);
    v := NextRound(b, 19, v, 0x600003c6);
  }

  lemma AbcRounds2b(b: bytes)
    requires Words(b, 2, 0x61626380, 0x000f0000, 0x7da86405, 0x600003c6, 0x3e9d7b78, 0x0183fc00, 0x12dcbfdb, 0xe2e2c38e)
    requires State(b, 20, Vars(0xe1f20c33, 0xfe777bbf, 0xc2fbd9d1, 0x21da9a9b, 0xb0638179, 0xcc899961, 0x846ee454, 0x8034229c))
    ensures State(b, 24, Vars(0xc5d53d8d, 0xa7a3623f, 0xc2606d6d, 0x9dc68b63, 0xaa47c347, 0x49f5114a, 0xe1257970, 0x8ada8930))
  {
    hide State, Word;
    var v := Vars(0xe1f20c33, 0xfe777bbf, 0xc2fbd9d1, 0x21da9a9b, 0xb0638179, 0xcc899961, 0x846ee454, 0x8034229c);
    v := NextRound(b, 20, v, 0x3e9d7b78);
    v := NextRound(b, 21, v, 0x0183fc00);
    v := NextRound(b, 22, v, 0x12dcbfdb);
    v := NextRound(b, 23, v, 0xe2e2c38e);
  }

  lemma AbcWords3(b: bytes)
    requires Words(b, 1, 0x00000000, 0x00000000, 0x00000000, 0x00000000, 0x00000000, 0x00000000, 0x00000000, 0x00000018)
    requires Words(b, 2, 0x61626380, 0x000f0000, 0x7da86405, 0x600003c6, 0x3e9d7b78, 0x0183fc00, 0x12dcbfdb, 0xe2e2c38e)
    ensures Words(b, 3, 0xc8215c1a, 0xb73679a2, 0xe5bc3909, 0x32663c5b, 0x9d209d67, 0xec8726cb, 0x702138a4, 0xd3b7973b)
  {
    hide Word;
    var x24 := NextWord(b, 24, 0x00000000, 0x00000000, 0x000f0000, 0x12dcbfdb);
    var x25 := NextWord(b, 25, 0x00000000, 0x00000000, 0x7da86405, 0xe2e2c38e);
    var x26 := NextWord(b, 26, 0x00000000, 0x00000000, 0x600003c6, x24);
    var x27 := NextWord(b, 27, 0x00000000, 0x00000000, 0x3e9d7b78, x25);
    var x28 := NextWord(b, 28, 0x00000000, 0x00000000, 0x0183fc00, x26);
    var x29 := NextWord(b, 29, 0x00000000, 0x00000000, 0x12dcbfdb, x27);
    var x30 := NextWord(b, 30, 0x00000000, 0x00000018, 0xe2e2c38e, x28);
    var x31 := NextWord(b, 31, 0x00000018, 0x61626380, x24, x29);
  }

  lemma AbcRounds3a(b: bytes)
    requires Words(b, 3, 0xc8215c1a, 0xb73679a2, 0xe5bc3909, 0x32663c5b, 0x9d209d67, 0xec8726cb, 0x702138a4, 0xd3b7973b)
    requires State(b, 24, Vars(0xc5d53d8d, 0xa7a3623f, 0xc2606d6d, 0x9dc68b63, 0xaa47c347, 0x49f5114a, 0xe1257970, 0x8ada8930))
    ensures State(b, 28, Vars(0x77d37528, 0xb62ec4bc, 0xcde8037d, 0x1c2c2838, 0xedffbff8, 0xc74c6516, 0x14383d8e, 0x2823ef91))
  {
    hide State, Word;
    var v := Vars(0xc5d53d8d, 0xa7a3623f, 0xc2606d6d, 0x9dc68b63, 0xaa47c347, 0x49f5114a, 0xe1257970, 0x8ada8930);
    v := NextRound(b, 24, v, 0xc8215c1a);
    v := NextRound(b, 25, v, 0xb73679a2);
    v := NextRound(b, 26, v, 0xe5bc3909);
    v := NextRound(b, 27, v, 0x32663c5b);
  }

  lemma AbcRounds3b(b: bytes)
    requires Words(b, 3, 0xc8215c1a, 0xb73679a2, 0xe5bc3909, 0x32663c5b, 0x9d209d67, 0xec8726cb, 0x702138a4, 0xd3b7973b)
    requires State(b, 28, Vars(0x77d37528, 0xb62ec4bc, 0xcde8037d, 0x1c2c2838, 0xedffbff8, 0xc74c6516, 0x14383d8e, 0x2823ef91))
    ensures State(b, 32, Vars(0x73b33bf5, 0xea992a22, 0xa0060b30, 0x363482c9, 0xba591112, 0x0109ab3a, 0xade79437, 0x6112a3b7))
  {
    hide State, Word;
    var v := Vars(0x77d37528, 0xb62ec4bc, 0xcde8037d, 0x1c2c2838, 0xedffbff8, 0xc74c6516, 0x14383d8e, 0x2823ef91);
    v := NextRound(b, 28, v, 0x9d209d67);
    v := NextRound(b, 29, v, 0xec8726cb);
    v := NextRound(b, 30, v, 0x702138a4);
    v := NextRound(b, 31, v, 0xd3b7973b);
  }

  lemma AbcWords4(b: bytes)
    requires Words(b, 2, 0x61626380, 0x000f0000, 0x7da86405, 0x600003c6, 0x3e9d7b78, 0x0183fc00, 0x12dcbfdb, 0xe2e2c38e)
    requires Words(b, 3, 0xc8215c1a, 0xb73679a2, 0xe5bc3909, 0x32663c5b, 0x9d209d67, 0xec8726cb, 0x702138a4, 0xd3b7973b)
    ensures Words(b, 4, 0x93f5997f, 0x3b68ba73, 0xaff4ffc1, 0xf10a5c62, 0x0a8b3996, 0x72af830a, 0x9409e33e, 0x24641522)
  {
    hide Word;
    var x32 := NextWord(b, 32, 0x61626380, 0x000f0000, 0xb73679a2, 0x702138a4);
    var x33 := NextWord(b, 33, 0x000f0000, 0x7da86405, 0xe5bc3909, 0xd3b7973b);
    var x34 := NextWord(b, 34, 0x7da86405, 0x600003c6, 0x32663c5b, x32);
    var x35 := NextWord(b, 35, 0x600003c6, 0x3e9d7b78, 0x9d209d67, x33);
    var x36 := NextWord(b, 36, 0x3e9d7b78, 0x0183fc00, 0xec8726cb, x34);
    var x37 := NextWord(b, 37, 0x0183fc00, 0x12dcbfdb, 0x702138a4, x35);
    var x38 := NextWord(b, 38, 0x12dcbfdb, 0xe2e2c38e, 0xd3b7973b, x36);
    var x39 := NextWord(b, 39, 0xe2e2c38e, 0xc8215c1a, x32, x37);
  }

  lemma AbcRounds4a(b: bytes)
    requires Words(b, 4, 0x93f5997f, 0x3b68ba73, 0xaff4ffc1, 0xf10a5c62, 0x0a8b3996, 0x72af830a, 0x9409e33e, 0x24641522)
    requires State(b, 32, Vars(0x73b33bf5, 0xea992a22, 0xa0060b30, 0x363482c9, 0xba591112, 0x0109ab3a, 0xade79437, 0x6112a3b7))
    ensures State(b, 36, Vars(0x65a0cfe4, 0xa9a7738c, 0xfe604df5, 0x98e12507, 0xf4b002d6, 0x085f3833, 0x59249dd3, 0x9cd9f5f6))
  {
    hide State, Word;
    var v := Vars(0x73b33bf5, 0xea992a22, 0xa0060b30, 0x363482c9, 0xba591112, 0x0109ab3a, 0xade79437, 0x6112a3b7);
    v := NextRound(b, 32, v, 0x93f5997f);
    v := NextRound(b, 33, v, 0x3b68ba73);
    v := NextRound(b, 34, v, 0xaff4ffc1);
    v := NextRound(b, 35, v, 0xf10a5c62);
  }

  lemma AbcRounds4b(b: bytes)
    requires Words(b, 4, 0x93f5997f, 0x3b68ba73, 0xaff4ffc1, 0xf10a5c62, 0x0a8b3996, 0x72af830a, 0x9409e33e, 0x24641522)
    requires State(b, 36, Vars(0x65a0cfe4, 0xa9a7738c, 0xfe604df5, 0x98e12507, 0xf4b002d6, 0x085f3833, 0x59249dd3, 0x9cd9f5f6))
    ensures State(b, 40, Vars(0x79ea687a, 0x6dc57a8a, 0x34df1604, 0x41a65cb1, 0x1efbc0a0, 0xf0781bc8, 0xa507a53d, 0x0772a26b))
  {
    hide State, Word;
    var v := Vars(0x65a0cfe4, 0xa9a7738c, 0xfe604df5, 0x98e12507, 0xf4b002d6, 0x085f3833, 0x59249dd3, 0x9cd9f5f6);
    v := NextRound(b, 36, v, 0x0a8b3996);
    v := NextRound(b, 37, v, 0x72af830a);
    v := NextRound(b, 38, v, 0x9409e33e);
    v := NextRound(b, 39, v, 0x24641522);
  }

  lemma AbcWords5(b: bytes)
    requires Words(b, 3, 0xc8215c1a, 0xb73679a2, 0xe5bc3909, 0x32663c5b, 0x9d209d67, 0xec8726cb, 0x702138a4, 0xd3b7973b)
    requires Words(b, 4, 0x93f5997f, 0x3b68ba73, 0xaff4ffc1, 0xf10a5c62, 0x0a8b3996, 0x72af830a, 0x9409e33e, 0x24641522)
    ensures Words(b, 5, 0x9f47bf94, 0xf0a64f5a, 0x3e246a79, 0x27333ba3, 0x0c4763f2, 0x840abf27, 0x7a290d5d, 0x065c43da)
  {
    hide Word;
    var x40 := NextWord(b, 40, 0xc8215c1a, 0xb73679a2, 0x3b68ba73, 0x9409e33e);
    var x41 := NextWord(b, 41, 0xb73679a2, 0xe5bc3909, 0xaff4ffc1, 0x24641522);
    var x42 := NextWord(b, 42, 0xe5bc3909, 0x32663c5b, 0xf10a5c62, x40);
    var x43 := NextWord(b, 43, 0x32663c5b, 0x9d209d67, 0x0a8b3996, x41);
    var x44 := NextWord(b, 44, 0x9d209d67, 0xec8726cb, 0x72af830a, x42);
    var x45 := NextWord(b, 45, 0xec8726cb, 0x702138a4, 0x9409e33e, x43);
    var x46 := NextWord(b, 46, 0x702138a4, 0xd3b7973b, 0x24641522, x44);
    var x47 := NextWord(b, 47, 0xd3b7973b, 0x93f5997f, x40, x45);
  }

  lemma AbcRounds5a(b: bytes)
    requires Words(b, 5, 0x9f47bf94, 0xf0a64f5a, 0x3e246a79, 0x27333ba3, 0x0c4763f2, 0x840abf27, 0x7a290d5d, 0x065c43da)
    requires State(b, 40, Vars(0x79ea687a, 0x6dc57a8a, 0x34df1604, 0x41a65cb1, 0x1efbc0a0, 0xf0781bc8, 0xa507a53d, 0x0772a26b))
    ensures State(b, 44, Vars(0x9d4baf93, 0x17aa0dfe, 0xdf46652f, 0xd6670766, 0xfda24c2e, 0xdecd4715, 0x838b2711, 0x26352d63))
  {
    hide State, Word;
    var v := Vars(0x79ea687a, 0x6dc57a8a, 0x34df1604, 0x41a65cb1, 0x1efbc0a0, 0xf0781bc8, 0xa507a53d, 0x0772a26b);
    v := NextRound(b, 40, v, 0x9f47bf94);
    v := NextRound(b, 41, v, 0xf0a64f5a);
    v := NextRound(b, 42, v, 0x3e246a79);
    v := NextRound(b, 43, v, 0x27333ba3);
  }

  lemma AbcRounds5b(b: bytes)
    requires Words(b, 5, 0x9f47bf94, 0xf0a64f5a, 0x3e246a79, 0x27333ba3, 0x0c4763f2, 0x840abf27, 0x7a290d5d, 0x065c43da)
    requires State(b, 44, Vars(0x9d4baf93, 0x17aa0dfe, 0xdf46652f, 0xd6670766, 0xfda24c2e, 0xdecd4715, 0x838b2711, 0x26352d63))
    ensures State(b, 48, Vars(0x4172328d, 0xa14c14b0, 0x72ab4b91, 0x26628815, 0xfecf0bc6, 0xd57b94a9, 0xb7755da1, 0xa80f11f0))
  {
    hide State, Word;
    var v := Vars(0x9d4baf93, 0x17aa0dfe, 0xdf46652f, 0xd6670766, 0xfda24c2e, 0xdecd4715, 0x838b2711, 0x26352d63);
    v := NextRound(b, 44, v, 0x0c4763f2);
    v := NextRound(b, 45, v, 0x840abf27);
    v := NextRound(b, 46, v, 0x7a290d5d);
    v := NextRound(b, 47, v, 0x065c43da);
  }

  lemma AbcWords6(b: bytes)
    requires Words(b, 4, 0x93f5997f, 0x3b68ba73, 0xaff4ffc1, 0xf10a5c62, 0x0a8b3996, 0x72af830a, 0x9409e33e, 0x24641522)
    requires Words(b, 5, 0x9f47bf94, 0xf0a64f5a, 0x3e246a79, 0x27333ba3, 0x0c4763f2, 0x840abf27, 0x7a290d5d, 0x065c43da)
    ensures Words(b, 6, 0xfb3e89cb, 0xcc7617db, 0xb9e66c34, 0xa9993667, 0x84badedd, 0xc21462bc, 0x1487472c, 0xb20f7a99)
  {
    hide Word;
    var x48 := NextWord(b, 48, 0x93f5997f, 0x3b68ba73, 0xf0a64f5a, 0x7a290d5d);
    var x49 := NextWord(b, 49, 0x3b68ba73, 0xaff4ffc1, 0x3e246a79, 0x065c43da);
    var x50 := NextWord(b, 50, 0xaff4ffc1, 0xf10a5c62, 0x27333ba3, x48);
    var x51 := NextWord(b, 51, 0xf10a5c62, 0x0a8b3996, 0x0c4763f2, x49);
    var x52 := NextWord(b, 52, 0x0a8b3996, 0x72af830a, 0x840abf27, x50);
    var x53 := NextWord(b, 53, 0x72af830a, 0x9409e33e, 0x7a290d5d, x51);
    var x54 := NextWord(b, 54, 0x9409e33e, 0x24641522, 0x065c43da, x52);
    var x55 := NextWord(b, 55, 0x24641522, 0x9f47bf94, x48, x53);
  }

  lemma AbcRounds6a(b: bytes)
    requires Words(b, 6, 0xfb3e89cb, 0xcc7617db, 0xb9e66c34, 0xa9993667, 0x84badedd, 0xc21462bc, 0x1487472c, 0xb20f7a99)
    requires State(b, 48, Vars(0x4172328d, 0xa14c14b0, 0x72ab4b91, 0x26628815, 0xfecf0bc6, 0xd57b94a9, 0xb7755da1, 0xa80f11f0))
    ensures State(b, 52, Vars(0x886e7a22, 0x7a0508a1, 0xf11bfaa8, 0x05757ceb, 0x49231c1e, 0x52f1ccf7, 0x6e5c390c, 0xbd714038))
  {
    hide State, Word;
    var v := Vars(0x4172328d, 0xa14c14b0, 0x72ab4b91, 0x26628815, 0xfecf0bc6, 0xd57b94a9, 0xb7755da1, 0xa80f11f0);
    v := NextRound(b, 48, v, 0xfb3e89cb);
    v := NextRound(b, 49, v, 0xcc7617db);
    v := NextRound(b, 50, v, 0xb9e66c34);
    v := NextRound(b, 51, v, 0xa9993667);
  }

  lemma AbcRounds6b(b: bytes)
    requires Words(b, 6, 0xfb3e89cb, 0xcc7617db, 0xb9e66c34, 0xa9993667, 0x84badedd, 0xc21462bc, 0x1487472c, 0xb20f7a99)
    requires State(b, 52, Vars(0x886e7a22, 0x7a0508a1, 0xf11bfaa8, 0x05757ceb, 0x49231c1e, 0x52f1ccf7, 0x6e5c390c, 0xbd714038))
    ensures State(b, 56, Vars(0x38cc9913, 0x3ec45cdb, 0xf5702fdb, 0x101fd28f, 0x54cb266b, 0xe50e1b4f, 0x9f4787c3, 0x529e7d00))
  {
    hide State, Word;
    var v := Vars(0x886e7a22, 0x7a0508a1, 0xf11bfaa8, 0x05757ceb, 0x49231c1e, 0x52f1ccf7, 0x6e5c390c, 0xbd714038);
    v := NextRound(b, 52, v, 0x84badedd);
    v := NextRound(b, 53, v, 0xc21462bc);
    v := NextRound(b, 54, v, 0x1487472c);
    v := NextRound(b, 55, v, 0xb20f7a99);
  }

  lemma AbcWords7(b: bytes)
    requires Words(b, 5, 0x9f47bf94, 0xf0a64f5a, 0x3e246a79, 0x27333ba3, 0x0c4763f2, 0x840abf27, 0x7a290d5d, 0x065c43da)
    requires Words(b, 6, 0xfb3e89cb, 0xcc7617db, 0xb9e66c34, 0xa9993667, 0x84badedd, 0xc21462bc, 0x1487472c, 0xb20f7a99)
    ensures Words(b, 7, 0xef57b9cd, 0xebe6b238, 0x9fe3095e, 0x78bc8d4b, 0xa43fcf15, 0x668b2ff8, 0xeeaba2cc, 0x12b1edeb)
  {
    hide Word;
    var x56 := NextWord(b, 56, 0x9f47bf94, 0xf0a64f5a, 0xcc7617db, 0x1487472c);
    var x57 := NextWord(b, 57, 0xf0a64f5a, 0x3e246a79, 0xb9e66c34, 0xb20f7a99);
    var x58 := NextWord(b, 58, 0x3e246a79, 0x27333ba3, 0xa9993667, x56);
    var x59 := NextWord(b, 59, 0x27333ba3, 0x0c4763f2, 0x84badedd, x57);
    var x60 := NextWord(b, 60, 0x0c4763f2, 0x840abf27, 0xc21462bc, x58);
    var x61 := NextWord(b, 61, 0x840abf27, 0x7a290d5d, 0x1487472c, x59);
    var x62 := NextWord(b, 62, 0x7a290d5d, 0x065c43da, 0xb20f7a99, x60);
    var x63 := NextWord(b, 63, 0x065c43da, 0xfb3e89cb, x56, x61);
  }

  lemma AbcRounds7a(b: bytes)
    requires Words(b, 7, 0xef57b9cd, 0xebe6b238, 0x9fe3095e, 0x78bc8d4b, 0xa43fcf15, 0x668b2ff8, 0xeeaba2cc, 0x12b1edeb)
    requires State(b, 56, Vars(0x38cc9913, 0x3ec45cdb, 0xf5702fdb, 0x101fd28f, 0x54cb266b, 0xe50e1b4f, 0x9f4787c3, 0x529e7d00))
    ensures State(b, 60, Vars(0xb6ae8fff, 0xffb70472, 0xc062d46f, 0xfcd1887b, 0xb21bad3d, 0x6d83bfc6, 0x7e44008e, 0x9b5e906c))
  {
    hide State, Word;
    var v := Vars(0x38cc9913, 0x3ec45cdb, 0xf5702fdb, 0x101fd28f, 0x54cb266b, 0xe50e1b4f, 0x9f4787c3, 0x529e7d00);
    v := NextRound(b, 56, v, 0xef57b9cd);
    v := NextRound(b, 57, v, 0xebe6b238);
    v := NextRound(b, 58, v, 0x9fe3095e);
    v := NextRound(b, 59, v, 0x78bc8d4b);
  }

  lemma AbcRounds7b(b: bytes)
    requires Words(b, 7, 0xef57b9cd, 0xebe6b238, 0x9fe3095e, 0x78bc8d4b, 0xa43fcf15, 0x668b2ff8, 0xeeaba2cc, 0x12b1edeb)
    requires State(b, 60, Vars(0xb6ae8fff, 0xffb70472, 0xc062d46f, 0xfcd1887b, 0xb21bad3d, 0x6d83bfc6, 0x7e44008e, 0x9b5e906c))
    ensures State(b, 64, Vars(0x506e3058, 0xd39a2165, 0x04d24d6c, 0xb85e2ce9, 0x5ef50f24, 0xfb121210, 0x948d25b6, 0x961f4894))
  {
    hide State, Word;
    var v := Vars(0xb6ae8fff, 0xffb70472, 0xc062d46f, 0xfcd1887b, 0xb21bad3d, 0x6d83bfc6, 0x7e44008e, 0x9b5e906c);
    v := NextRound(b, 60, v, 0xa43fcf15);
    v := NextRound(b, 61, v, 0x668b2ff8);
    v := NextRound(b, 62, v, 0xeeaba2cc);
    v := NextRound(b, 63, v, 0x12b1edeb);
  }

  function Abc(): bytes {
    [0x61, 0x62, 0x63]
  }

  function AbcBlock(): (b: bytes)
    ensures |b| == 64
  {
    Abc() + [0x80] + Fill(0, 52) + [0, 0, 0, 0, 0, 0, 0, 24]
  }

  lemma AbcPadded()
    ensures Pad(Abc()) == AbcBlock()
  {
    hide Be64, BitCount, ZeroCount;
    AbcLength();
  }

  lemma AbcLength()
    ensures ZeroCount(3) == 52 && BitCount(3) == 24 && Be64(24) == [0, 0, 0, 0, 0, 0, 0, 24]
  {
  }

  lemma AbcFirstWords(b: bytes)
    requires b == AbcBlock()
    ensures Words(b, 0, 0x61626380, 0x00000000, 0x00000000, 0x00000000, 0x00000000, 0x00000000, 0x00000000, 0x00000000)
    ensures Words(b, 1, 0x00000000, 0x00000000, 0x00000000, 0x00000000, 0x00000000, 0x00000000, 0x00000000, 0x00000018)
  {
    hide Word;
    assert forall i :: 4 <= i < 63 ==> b[i] == 0;
    FirstWord(b);
    LastWord(b);
    forall t | 1 <= t < 15
      ensures Word(b, t, 0)
    {
      ZeroWord(b, t);
    }
  }

  lemma FirstWord(b: bytes)
    requires |b| == 64 && b[0] == 0x61 && b[1] == 0x62 && b[2] == 0x63 && b[3] == 0x80
    ensures Word(b, 0, 0x61626380)
  {
    hide Packed, W;
    GivenWord(b, 0);
    Letters();
    PackedLetters();
  }

  lemma Letters()
    ensures 0x61 as byte as word == 0x61 && 0x62 as byte as word == 0x62
    ensures 0x63 as byte as word == 0x63 && 0x80 as byte as word == 0x80
  {
  }

  lemma PackedLetters()
    ensures Packed(0x61, 0x62, 0x63, 0x80) == 0x61626380
  {
  }

  lemma LastWord(b: bytes)
    requires |b| == 64 && b[60] == 0 && b[61] == 0 && b[62] == 0 && b[63] == 0x18
    ensures Word(b, 15, 0x18)
  {
  }

  lemma ZeroWord(b: bytes, t: nat)
    requires |b| == 64 && t < 16 && b[4 * t] == 0 && b[4 * t + 1] == 0 && b[4 * t + 2] == 0 && b[4 * t + 3] == 0
    ensures Word(b, t, 0)
  {
  }

  lemma AbcStart(b: bytes)
    requires |b| == 64
    ensures State(b, 0, Vars(0x6a09e667, 0xbb67ae85, 0x3c6ef372, 0xa54ff53a, 0x510e527f, 0x9b05688c, 0x1f83d9ab, 0x5be0cd19))
  {
  }

  lemma AbcRun(b: bytes)
    requires b == AbcBlock()
    ensures State(b, 64, Vars(0x506e3058, 0xd39a2165, 0x04d24d6c, 0xb85e2ce9, 0x5ef50f24, 0xfb121210, 0x948d25b6, 0x961f4894))
  {
    hide Words, State, AbcBlock;
    AbcFirstWords(b);
    AbcStart(b);
    AbcRounds0a(b);
    AbcRounds0b(b);
    AbcRounds1a(b);
    AbcRounds1b(b);
    AbcWords2(b);
    AbcRounds2a(b);
    AbcRounds2b(b);
    AbcWords3(b);
    AbcRounds3a(b);
    AbcRounds3b(b);
    AbcWords4(b);
    AbcRounds4a(b);
    AbcRounds4b(b);
    AbcWords5(b);
    AbcRounds5a(b);
    AbcRounds5b(b);
    AbcWords6(b);
    AbcRounds6a(b);
    AbcRounds6b(b);
    AbcWords7(b);
    AbcRounds7a(b);
    AbcRounds7b(b);
  }

  lemma OneBlock(b: bytes)
    requires |b| == 64
    ensures HashBlocks(b, 1) == AddVars(H0, Rounds(H0, b, 64))
  {
    hide Rounds, AddVars;
    assert HashBlocks(b, 0) == H0 && b[0..64] == b;
  }

  lemma AbcSum(v: Vars)
    requires v == Vars(0x506e3058, 0xd39a2165, 0x04d24d6c, 0xb85e2ce9, 0x5ef50f24, 0xfb121210, 0x948d25b6, 0x961f4894)
    ensures AddVars(H0, v) == Vars(0xba7816bf, 0x8f01cfea, 0x414140de, 0x5dae2223, 0xb00361a3, 0x96177a9c, 0xb410ff61, 0xf20015ad)
  {
  }

  lemma AbcBytes()
    ensures DigestOf(Vars(0xba7816bf, 0x8f01cfea, 0x414140de, 0x5dae2223, 0xb00361a3, 0x96177a9c, 0xb410ff61, 0xf20015ad))
         == [0xba, 0x78, 0x16, 0xbf, 0x8f, 0x01, 0xcf, 0xea, 0x41, 0x41, 0x40, 0xde, 0x5d, 0xae, 0x22, 0x23,
             0xb0, 0x03, 0x61, 0xa3, 0x96, 0x17, 0x7a, 0x9c, 0xb4, 0x10, 0xff, 0x61, 0xf2, 0x00, 0x15, 0xad]
  {
  }

  /** The digest that the standard publishes for the message "abc". */
  lemma AbcDigest()
    ensures Sha256(Abc()) == [0xba, 0x78, 0x16, 0xbf, 0x8f, 0x01, 0xcf, 0xea, 0x41, 0x41, 0x40, 0xde, 0x5d, 0xae, 0x22, 0x23,
                              0xb0, 0x03, 0x61, 0xa3, 0x96, 0x17, 0x7a, 0x9c, 0xb4, 0x10, 0xff, 0x61, 0xf2, 0x00, 0x15, 0xad]
  {
    hide Rounds, AddVars, HashBlocks, AbcBlock, Pad, DigestOf;
    var b := AbcBlock();
    AbcPadded();
    AbcRun(b);
    OneBlock(b);
    AbcSum(Rounds(H0, b, 64));
    AbcBytes();
  }

}
