/** sha256_raw.c: the streaming SHA-256 context, its in-place compression function, and its shared
    scratch memory, proved to compute Sha256Spec whatever way the message is split into updates. */
module Sha256Stream {
  import opened Bytes
  import opened Sha256Spec

  /** The file's static scratch buffers. Every routine overwrites what it uses before reading it. */
  class Scratch {
    const schedule: array<word>
    const pad: array<byte>
    const innerHash: array<byte>
    const hkdfBlock: array<byte>

    ghost predicate Valid()
    {
      && schedule.Length == 64 && pad.Length == 64 && innerHash.Length == 32 && hkdfBlock.Length == 32
      && pad != innerHash && pad != hkdfBlock && innerHash != hkdfBlock
    }

    constructor ()
      ensures Valid() && fresh(schedule) && fresh(pad) && fresh(innerHash) && fresh(hkdfBlock)
    {
      schedule := new word[64](_ => 0);
      pad := new byte[64](_ => 0);
      innerHash := new byte[32](_ => 0);
      hkdfBlock := new byte[32](_ => 0);
    }
  }

  class Ctx {
    const state: array<word>
    const buf: array<byte>
    const sc: Scratch
    /** Bits hashed in complete blocks, modulo 2^64. */
    var length: nat
    /** Bytes waiting in buf. */
    var curlen: nat
    /** Everything absorbed since Init. */
    ghost var message: bytes

    /** The context's memory is laid out properly; its contents may be anything. */
    ghost predicate Allocated()
    {
      && state.Length == 8 && buf.Length == 64 && sc.Valid() && state != sc.schedule
      && buf != sc.pad && buf != sc.innerHash && buf != sc.hkdfBlock
    }

    ghost function Hash(): Vars
      reads state
      requires state.Length == 8
    {
      Vars(state[0], state[1], state[2], state[3], state[4], state[5], state[6], state[7])
    }

    /** All complete blocks of the message are hashed, the rest waits in the buffer. */
    ghost predicate Valid()
      reads this, state, buf
    {
      && Allocated() && curlen < 64 && |message| % 64 == curlen
      && Hash() == HashBlocks(message, |message| / 64)
      && buf[..curlen] == message[|message| - curlen..]
      && length == BitCount(|message| - curlen)
    }

    constructor (scratch: Scratch)
      requires scratch.Valid()
      ensures Allocated() && sc == scratch && fresh(state) && fresh(buf)
    {
      state := new word[8](_ => 0);
      buf := new byte[64](_ => 0);
      sc := scratch;
      length, curlen := 0, 0;
      message := [];
    }

    /** sha256_compress: schedule loop, round loop, in-place update, and the scratch wiped again. */
    method Compress(block: bytes)
      requires Allocated() && |block| == 64
      modifies state, sc.schedule
      ensures Hash() == Sha256Spec.Compress(old(Hash()), block)
      ensures forall i :: 0 <= i < 64 ==> sc.schedule[i] == 0
    {
      hide W, Rounds, Add;
      BuildSchedule(block);
      var v := RunRounds(block);
      state[0], state[1], state[2], state[3] := Add(state[0], v.a), Add(state[1], v.b), Add(state[2], v.c), Add(state[3], v.d);
      state[4], state[5], state[6], state[7] := Add(state[4], v.e), Add(state[5], v.f), Add(state[6], v.g), Add(state[7], v.h);
      forall i | 0 <= i < 64 {
        sc.schedule[i] := 0;
      }
    }

    method BuildSchedule(block: bytes)
      requires Allocated() && |block| == 64
      modifies sc.schedule
      ensures forall t :: 0 <= t < 64 ==> sc.schedule[t] == W(block, t)
    {
      hide BlockWord, Rotr, Shr, Xor3, Sum4, W;
      var w := sc.schedule;
      var i := 0;
      while i < 16
        invariant 0 <= i <= 16
        invariant forall t :: 0 <= t < i ==> w[t] == W(block, t)
      {
        GivenWord(block, i);
        w[i] := BlockWord(block, i);
        i := i + 1;
      }
      while i < 64
        invariant 16 <= i <= 64
        invariant forall t :: 0 <= t < i ==> w[t] == W(block, t)
      {
        var s0 := Xor3(Rotr(w[i - 15], 7), Rotr(w[i - 15], 18), Shr(w[i - 15], 3));
        var s1 := Xor3(Rotr(w[i - 2], 17), Rotr(w[i - 2], 19), Shr(w[i - 2], 10));
        SumOrder(w[i - 16], s0, w[i - 7], s1);
        ExpandedWord(block, i);
        w[i] := Sum4(w[i - 16], s0, w[i - 7], s1);
        i := i + 1;
      }
    }

    method RunRounds(block: bytes) returns (v: Vars)
      requires Allocated() && |block| == 64
      requires forall t :: 0 <= t < 64 ==> sc.schedule[t] == W(block, t)
      ensures v == Rounds(Hash(), block, 64)
    {
      hide W, K, Rotr, Xor3, Ch, Maj, Add, Sum5;
      var a, b, c, d := state[0], state[1], state[2], state[3];
      var e, f, g, h := state[4], state[5], state[6], state[7];
      var i := 0;
      while i < 64
        invariant 0 <= i <= 64
        invariant Vars(a, b, c, d, e, f, g, h) == Rounds(Hash(), block, i)
      {
        var s1 := Xor3(Rotr(e, 6), Rotr(e, 11), Rotr(e, 25));
        var t1 := Sum5(h, s1, Ch(e, f, g), K(i), sc.schedule[i]);
        var s0 := Xor3(Rotr(a, 2), Rotr(a, 13), Rotr(a, 22));
        var t2 := Add(s0, Maj(a, b, c));
        h := g;
        g := f;
        f := e;
        e := Add(d, t1);
        d := c;
        c := b;
        b := a;
        a := Add(t1, t2);
        i := i + 1;
      }
      return Vars(a, b, c, d, e, f, g, h);
    }

    /** sha256_raw_ctx_init */
    method Init()
      requires Allocated()
      modifies this, state
      ensures Valid() && message == []
    {
      hide BitCount, HashBlocks;
      var i := 0;
      while i < 8
        invariant 0 <= i <= 8
        invariant forall k :: 0 <= k < i ==> state[k] == WordOf(H0, k)
      {
        state[i] := WordOf(H0, i);
        i := i + 1;
      }
      length, curlen := 0, 0;
      message := [];
      NothingAbsorbed();
      WordsOf(Hash(), H0);
      assert buf[..0] == message[0..];
    }

    /** sha256_raw_ctx_update: full blocks straight from the input, the rest through the buffer. */
    method Update(data: bytes)
      requires Valid()
      modifies this, state, buf, sc.schedule
      ensures Valid() && message == old(message) + data
    {
      hide HashBlocks, BitCount, Hash;
      var at := 0;
      while at < |data|
        invariant 0 <= at <= |data|
        invariant Valid() && message == old(message) + data[..at]
      {
        ghost var done := at;
        if curlen == 0 && |data| - at >= 64 {
          TakeBlock(data[at..at + 64]);
          at := at + 64;
        } else {
          var n := if 64 - curlen > |data| - at then |data| - at else 64 - curlen;
          TakePart(data[at..at + n]);
          at := at + n;
        }
        assert data[..at] == data[..done] + data[done..at];
      }
      assert data[..at] == data;
    }

    /** The direct path: one whole block from the input. */
    method TakeBlock(block: bytes)
      requires Valid() && curlen == 0 && |block| == 64
      modifies this, state, sc.schedule
      ensures Valid() && message == old(message) + block
    {
      hide Sha256Spec.Compress, BitCount, WrapAdd, HashBlocks;
      Compress(block);
      length := WrapAdd(length, 512);
      CountMore(|message|, 64);
      HashMore(message, |message| / 64, block);
      assert message[..64 * (|message| / 64)] == message;
      message := message + block;
    }

    /** The buffered path: up to as many bytes as the buffer still takes. */
    method TakePart(part: bytes)
      requires Valid() && 0 < |part| <= 64 - curlen
      modifies this, state, buf, sc.schedule
      ensures Valid() && message == old(message) + part
    {
      hide Sha256Spec.Compress, BitCount, WrapAdd, Hash, HashBlocks;
      ghost var m := message;
      ghost var held := buf[..curlen];
      forall i | 0 <= i < |part| {
        buf[curlen + i] := part[i];
      }
      assert buf[..curlen + |part|] == held + part;
      curlen := curlen + |part|;
      message := message + part;
      if curlen == 64 {
        assert buf[..] == held + part;
        Compress(buf[..]);
        length := WrapAdd(length, 512);
        curlen := 0;
        CountMore(|m| - |held|, 64);
        BufferFull(m, held, part);
      } else {
        BufferGrows(m, held, part);
      }
    }

    /** Append zero bytes up to a limit. */
    method ZeroTo(limit: nat)
      requires Allocated() && curlen <= limit <= 64
      modifies buf, `curlen
      ensures curlen == limit
      ensures buf[..limit] == old(buf[..curlen]) + Fill(0, limit - old(curlen))
    {
      while curlen < limit
        invariant old(curlen) <= curlen <= limit
        invariant buf[..curlen] == old(buf[..curlen]) + Fill(0, curlen - old(curlen))
      {
        buf[curlen] := 0;
        curlen := curlen + 1;
      }
    }

    /** sha256_raw_ctx_final: padding of one or two blocks, the digest, and the context wiped. */
    method Final(digest: array<byte>)
      requires Valid() && digest.Length >= 32 && digest != buf
      modifies this, state, buf, sc.schedule, digest
      ensures digest[..32] == Sha256(old(message)) && digest[32..] == old(digest[32..])
      ensures curlen == 0 && length == 0 && forall i :: 0 <= i < 8 ==> state[i] == 0
      ensures forall i :: 0 <= i < 64 ==> buf[i] == 0
    {
      hide HashBlocks, PaddedHash, DigestOf, BitCount;
      PadAndHash();
      WriteDigest(digest);
      Wipe();
    }

    /** memset(ctx, 0, sizeof(*ctx)) */
    method Wipe()
      requires Allocated()
      modifies this, state, buf
      ensures curlen == 0 && length == 0 && forall i :: 0 <= i < 8 ==> state[i] == 0
      ensures forall i :: 0 <= i < 64 ==> buf[i] == 0
    {
      forall i | 0 <= i < 8 {
        state[i] := 0;
      }
      forall i | 0 <= i < 64 {
        buf[i] := 0;
      }
      length, curlen := 0, 0;
    }

    method PadAndHash()
      requires Valid()
      modifies this, state, buf, sc.schedule
      ensures Hash() == PaddedHash(old(message))
    {
      hide Sha256Spec.Compress, Be64, BitCount, PaddedHash, HashBlocks;
      PadTo56();
      ghost var front := buf[..56];
      AppendLength();
      assert buf[..] == front + Be64(length);
      Compress(buf[..]);
    }

    /** Compressing the first 56 buffered bytes and the length completes the hash of m. */
    ghost predicate OneBlockFrom(m: bytes)
      reads this, state, buf
      requires Allocated()
    {
      Sha256Spec.Compress(Hash(), buf[..56] + Be64(length)) == PaddedHash(m)
    }

    /** The 0x80 byte and the zeros up to byte 56, through an extra block when there is no room. */
    method PadTo56()
      requires Valid()
      modifies this, state, buf, sc.schedule
      ensures OneBlockFrom(old(message))
    {
      hide Sha256Spec.Compress, Be64, BitCount, WrapAdd, Pad, HashBlocks, Fill, ZeroCount;
      ghost var m, r := message, curlen;
      CountMore(|m| - r, r);
      length := WrapAdd(length, 8 * curlen);
      buf[curlen] := 0x80;
      curlen := curlen + 1;
      assert buf[..curlen] == Rest(m) + [0x80];
      if curlen > 56 {
        PadTwo(m);
        Spill();
      } else {
        PadOne(m);
        ZeroTo(56);
      }
    }

    /** No room for the length: the block is filled with zeros and hashed, and a new one begun. */
    method Spill()
      requires Allocated() && curlen <= 64
      modifies state, buf, `curlen, sc.schedule
      ensures Hash() == Sha256Spec.Compress(old(Hash()), old(buf[..curlen]) + Fill(0, 64 - old(curlen)))
      ensures buf[..56] == Fill(0, 56)
    {
      hide Sha256Spec.Compress, Fill;
      ZeroTo(64);
      assert buf[..] == buf[..64];
      Compress(buf[..]);
      curlen := 0;
      ZeroTo(56);
      assert buf[..0] + Fill(0, 56) == Fill(0, 56);
    }

    method AppendLength()
      requires Allocated()
      modifies buf
      ensures buf[..] == old(buf[..56]) + Be64(length)
    {
      hide Be64;
      forall i | 0 <= i < 8 {
        buf[56 + i] := Be64(length)[i];
      }
    }

    method WriteDigest(digest: array<byte>)
      requires Allocated() && digest.Length >= 32 && digest != buf
      modifies digest
      ensures digest[..32] == DigestOf(Hash()) && digest[32..] == old(digest[32..])
    {
      hide WordBytes, FirstWords;
      var i := 0;
      ghost var v := Hash();
      NoWords(v);
      while i < 8
        invariant 0 <= i <= 8 && Hash() == v
        invariant digest[..4 * i] == FirstWords(v, i)
        invariant digest[32..] == old(digest[32..])
      {
        ghost var done := digest[..4 * i];
        forall j | 0 <= j < 4 {
          digest[4 * i + j] := WordBytes(state[i])[j];
        }
        assert digest[4 * i..4 * i + 4] == WordBytes(WordOf(v, i));
        assert digest[..4 * i] == done;
        assert digest[..4 * i + 4] == done + WordBytes(WordOf(v, i));
        OneMoreWord(v, i);
        i := i + 1;
      }
      AllWords(v);
    }
  }

  function WordOf(v: Vars, i: nat): word
    requires i < 8
  {
    match i
    case 0 => v.a
    case 1 => v.b
    case 2 => v.c
    case 3 => v.d
    case 4 => v.e
    case 5 => v.f
    case 6 => v.g
    case _ => v.h
  }

  lemma WordsOf(v: Vars, w: Vars)
    requires forall k :: 0 <= k < 8 ==> WordOf(v, k) == WordOf(w, k)
    ensures v == w
  {
    assert WordOf(v, 0) == WordOf(w, 0) && WordOf(v, 1) == WordOf(w, 1) && WordOf(v, 2) == WordOf(w, 2) && WordOf(v, 3) == WordOf(w, 3);
    assert WordOf(v, 4) == WordOf(w, 4) && WordOf(v, 5) == WordOf(w, 5) && WordOf(v, 6) == WordOf(w, 6) && WordOf(v, 7) == WordOf(w, 7);
  }

  function FirstWords(v: Vars, n: nat): bytes
    requires n <= 8
  {
    if n == 0 then [] else FirstWords(v, n - 1) + WordBytes(WordOf(v, n - 1))
  }

  lemma NoWords(v: Vars)
    ensures FirstWords(v, 0) == []
  {
  }

  lemma OneMoreWord(v: Vars, i: nat)
    requires i < 8
    ensures FirstWords(v, i + 1) == FirstWords(v, i) + WordBytes(WordOf(v, i))
  {
  }

  lemma AllWords(v: Vars)
    ensures FirstWords(v, 8) == DigestOf(v)
  {
    hide WordBytes;
    assert FirstWords(v, 1) == WordBytes(v.a);
    assert FirstWords(v, 2) == FirstWords(v, 1) + WordBytes(v.b) && FirstWords(v, 3) == FirstWords(v, 2) + WordBytes(v.c);
    assert FirstWords(v, 4) == FirstWords(v, 3) + WordBytes(v.d) && FirstWords(v, 5) == FirstWords(v, 4) + WordBytes(v.e);
    assert FirstWords(v, 6) == FirstWords(v, 5) + WordBytes(v.f) && FirstWords(v, 7) == FirstWords(v, 6) + WordBytes(v.g);
  }

  function Rest(m: bytes): (r: bytes)
    ensures |r| == |m| % 64
  {
    m[|m| - |m| % 64..]
  }

  function OneLastBlock(m: bytes): (b: bytes)
    requires |m| % 64 <= 55
    ensures |b| == 64
  {
    Rest(m) + [0x80] + Fill(0, 55 - |m| % 64) + Be64(BitCount(|m|))
  }

  function LastButOne(m: bytes): (b: bytes)
    requires |m| % 64 > 55
    ensures |b| == 64
  {
    Rest(m) + [0x80] + Fill(0, 63 - |m| % 64)
  }

  function LastOfTwo(m: bytes): (b: bytes)
    ensures |b| == 64
  {
    Fill(0, 56) + Be64(BitCount(|m|))
  }

  /** One more whole block after the first k blocks of m. */
  lemma HashMore(m: bytes, k: nat, block: bytes)
    requires |block| == 64 && 64 * k <= |m|
    ensures HashBlocks(m[..64 * k] + block, k + 1) == Sha256Spec.Compress(HashBlocks(m, k), block)
  {
    hide Sha256Spec.Compress;
    var p := m[..64 * k] + block;
    assert p[64 * k..64 * (k + 1)] == block;
    assert p[..64 * k] == m[..64 * k];
    HashBlocksPrefix(p, m, k);
  }

  lemma Regroup(a: bytes, b: bytes, c: bytes, d: bytes, e: bytes)
    ensures (a + b) + c + d + e == a + (b + c + d + e)
  {
  }

  lemma Regroup2(a: bytes, b: bytes, c: bytes, d: bytes, e: bytes)
    ensures a + (b + (c + d) + e) == a + (b + c) + (d + e)
  {
  }

  lemma ZeroCounts(n: nat)
    ensures n % 64 <= 55 ==> ZeroCount(n) == 55 - n % 64 && n + 1 + ZeroCount(n) + 8 == 64 * (n / 64 + 1)
    ensures n % 64 > 55 ==> ZeroCount(n) == 119 - n % 64 && n + 1 + ZeroCount(n) + 8 == 64 * (n / 64 + 2)
  {
  }

  /** At most 55 bytes left over: the padded message ends with one block. */
  lemma PadOne(m: bytes)
    requires |m| % 64 <= 55
    ensures |Pad(m)| / 64 == |m| / 64 + 1
    ensures HashBlocks(Pad(m), |m| / 64 + 1) == Sha256Spec.Compress(HashBlocks(m, |m| / 64), OneLastBlock(m))
  {
    hide Sha256Spec.Compress, Be64, BitCount, HashBlocks, ZeroCount;
    ZeroCounts(|m|);
    assert m == m[..64 * (|m| / 64)] + Rest(m);
    Regroup(m[..64 * (|m| / 64)], Rest(m), [0x80], Fill(0, ZeroCount(|m|)), Be64(BitCount(|m|)));
    HashMore(m, |m| / 64, OneLastBlock(m));
  }

  /** More than 55 bytes left over: it ends with two. */
  lemma PadTwo(m: bytes)
    requires |m| % 64 > 55
    ensures |Pad(m)| / 64 == |m| / 64 + 2
    ensures HashBlocks(Pad(m), |m| / 64 + 2)
         == Sha256Spec.Compress(Sha256Spec.Compress(HashBlocks(m, |m| / 64), LastButOne(m)), LastOfTwo(m))
  {
    hide Sha256Spec.Compress, Be64, BitCount, HashBlocks, ZeroCount;
    var front := m[..64 * (|m| / 64)] + LastButOne(m);
    ZeroCounts(|m|);
    assert m == m[..64 * (|m| / 64)] + Rest(m);
    assert Fill(0, ZeroCount(|m|)) == Fill(0, 63 - |m| % 64) + Fill(0, 56);
    Regroup(m[..64 * (|m| / 64)], Rest(m), [0x80], Fill(0, 63 - |m| % 64) + Fill(0, 56), Be64(BitCount(|m|)));
    Regroup2(m[..64 * (|m| / 64)], Rest(m) + [0x80], Fill(0, 63 - |m| % 64), Fill(0, 56), Be64(BitCount(|m|)));
    HashMore(m, |m| / 64, LastButOne(m));
    assert front[..64 * (|m| / 64 + 1)] == front;
    HashMore(front, |m| / 64 + 1, LastOfTwo(m));
  }

  lemma ExpandedWord(block: bytes, t: nat)
    requires |block| == 64 && 16 <= t < 64
    ensures W(block, t) == Sum4(SmallSigma1(W(block, t - 2)), W(block, t - 7), SmallSigma0(W(block, t - 15)), W(block, t - 16))
  {
  }

  /** The code sums a schedule word in the opposite order to the standard. */
  lemma SumOrder(a: word, b: word, c: word, d: word)
    ensures Sum4(a, b, c, d) == Sum4(d, c, b, a)
  {
  }

  /** uint64_t addition. */
  function WrapAdd(x: nat, y: nat): nat {
    (x + y) % 0x1_0000_0000_0000_0000
  }

  lemma NothingAbsorbed()
    ensures BitCount(0) == 0 && HashBlocks([], 0) == H0
  {
    hide Sha256Spec.Compress;
  }

  lemma CountMore(n: nat, k: nat)
    ensures WrapAdd(BitCount(n), 8 * k) == BitCount(n + k)
  {
    var m := 0x1_0000_0000_0000_0000;
    assert 8 * n == m * (8 * n / m) + 8 * n % m;
  }

  lemma BufferFull(m: bytes, held: bytes, part: bytes)
    requires |held| + |part| == 64 && |part| > 0 && |m| % 64 == |held| && held == m[|m| - |held|..]
    ensures |m + part| % 64 == 0 && |m + part| / 64 == |m| / 64 + 1
    ensures HashBlocks(m + part, |m| / 64 + 1) == Sha256Spec.Compress(HashBlocks(m, |m| / 64), held + part)
  {
    hide Sha256Spec.Compress, BitCount, WrapAdd;
    assert m[..64 * (|m| / 64)] + (held + part) == m + part;
    HashMore(m, |m| / 64, held + part);
  }

  lemma SameBlock(n: nat, k: nat)
    requires n % 64 + k < 64
    ensures (n + k) / 64 == n / 64 && (n + k) % 64 == n % 64 + k
  {
  }

  lemma BufferGrows(m: bytes, held: bytes, part: bytes)
    requires |held| + |part| < 64 && |m| % 64 == |held| && held == m[|m| - |held|..]
    ensures |m + part| % 64 == |held| + |part| && |m + part| / 64 == |m| / 64
    ensures held + part == (m + part)[|m| - |held|..]
    ensures HashBlocks(m + part, |m| / 64) == HashBlocks(m, |m| / 64)
  {
    hide HashBlocks;
    SameBlock(|m|, |part|);
    var k := |m| / 64;
    assert 64 * k <= |m| && (m + part)[..64 * k] == m[..64 * k];
    HashBlocksPrefix(m + part, m, k);
  }
}
