/** HMAC-SHA-256 (section 2 of RFC 2104) and HKDF (sections 2.2 and 2.3 of RFC 5869): the
    definitions, and the streaming code of sha256_raw.c proved to compute them. */
module Hmac {
  import opened Bytes
  import opened Sha256Spec
  import opened Sha256Stream

  // ---- definitions ----

  /** The key, hashed if longer than a block, padded with zeros to a block. */
  function BlockKey(key: bytes): (k: bytes)
    ensures |k| == 64
  {
    if |key| > 64 then Sha256(key) + Fill(0, 32) else key + Fill(0, 64 - |key|)
  }

  function XorAll(b: bytes, v: byte): (r: bytes)
    ensures |r| == |b|
  {
    seq(|b|, i requires 0 <= i < |b| => Xor8(b[i], v))
  }

  function HmacSha256(key: bytes, text: bytes): (mac: bytes)
    ensures |mac| == 32
  {
    Sha256(XorAll(BlockKey(key), 0x5c) + Sha256(XorAll(BlockKey(key), 0x36) + text))
  }

  /** RFC 5869: an absent salt stands for HashLen zero bytes. */
  function Extract(salt: bytes, ikm: bytes): (prk: bytes)
    ensures |prk| == 32
  {
    HmacSha256(if salt == [] then Fill(0, 32) else salt, ikm)
  }

  /** T(n) of RFC 5869. */
  function T(prk: bytes, info: bytes, n: nat): (t: bytes)
    requires n <= 255
    ensures n > 0 ==> |t| == 32
  {
    if n == 0 then [] else HmacSha256(prk, T(prk, info, n - 1) + info + [n as byte])
  }

  /** T(1) | ... | T(n). */
  function Ts(prk: bytes, info: bytes, n: nat): (t: bytes)
    requires n <= 255
    ensures |t| == 32 * n
  {
    if n == 0 then [] else Ts(prk, info, n - 1) + T(prk, info, n)
  }

  /** The first len bytes of T(1) | T(2) | ... */
  function Expand(prk: bytes, info: bytes, len: nat): (okm: bytes)
    requires len <= 8160
    ensures |okm| == len
  {
    Ts(prk, info, (len + 31) / 32)[..len]
  }

  // ---- properties of the definitions ----

  lemma {:induction false} TsPrefix(prk: bytes, info: bytes, m: nat, n: nat)
    requires m <= n <= 255
    ensures Ts(prk, info, n)[..32 * m] == Ts(prk, info, m)
    decreases n
  {
    hide T;
    if m < n {
      TsPrefix(prk, info, m, n - 1);
      assert Ts(prk, info, n)[..32 * m] == Ts(prk, info, n - 1)[..32 * m];
    } else {
      assert Ts(prk, info, n)[..32 * m] == Ts(prk, info, n);
    }
  }

  /** A shorter request is a prefix of a longer one. */
  lemma ExpandPrefix(prk: bytes, info: bytes, short: nat, long: nat)
    requires short <= long <= 8160
    ensures Expand(prk, info, long)[..short] == Expand(prk, info, short)
  {
    hide Ts;
    var m, n := (short + 31) / 32, (long + 31) / 32;
    TsPrefix(prk, info, m, n);
    assert Ts(prk, info, n)[..long][..short] == Ts(prk, info, n)[..32 * m][..short];
  }

  /** Trailing zeros of a short key do not matter; in particular the empty salt, the absent salt and
      32 zero bytes all give the same PRK. */
  lemma ZeroExtendedKey(key: bytes, n: nat, text: bytes)
    requires |key| + n <= 64
    ensures HmacSha256(key + Fill(0, n), text) == HmacSha256(key, text)
  {
    hide XorAll, Sha256;
    assert BlockKey(key + Fill(0, n)) == BlockKey(key);
  }

  lemma AbsentSalt(ikm: bytes)
    ensures Extract([], ikm) == Extract(Fill(0, 32), ikm) == HmacSha256([], ikm)
  {
    hide HmacSha256;
    ZeroExtendedKey([], 32, ikm);
    assert [] + Fill(0, 32) == Fill(0, 32);
  }

  // ---- what equal MACs and equal derived keys come to ----

  /** Two texts with one digest. */
  predicate Collide(x: bytes, y: bytes) {
    x != y && Sha256(x) == Sha256(y)
  }

  function InnerText(key: bytes, text: bytes): bytes {
    XorAll(BlockKey(key), 0x36) + text
  }

  function OuterText(key: bytes, text: bytes): bytes {
    XorAll(BlockKey(key), 0x5c) + Sha256(InnerText(key, text))
  }

  /** A collision of SHA-256 inside two HMACs: on the texts behind their inner pads, or on the inner
      digests behind their outer pads. */
  predicate MacsCollide(key: bytes, text: bytes, key': bytes, text': bytes) {
    Collide(InnerText(key, text), InnerText(key', text')) || Collide(OuterText(key, text), OuterText(key', text'))
  }

  /** Two HMACs that agree although their keys, of one length, or their texts differ. */
  lemma EqualMacs(key: bytes, text: bytes, key': bytes, text': bytes)
    requires |key| == |key'| <= 64 && (key != key' || text != text')
    requires HmacSha256(key, text) == HmacSha256(key', text')
    ensures MacsCollide(key, text, key', text')
  {
    hide XorAll, Sha256;
    var a, b := XorAll(BlockKey(key), 0x5c), XorAll(BlockKey(key'), 0x5c);
    if OuterText(key, text) == OuterText(key', text') {
      SplitEqual(a, Sha256(InnerText(key, text)), b, Sha256(InnerText(key', text')));
      XorAllInjective(BlockKey(key), BlockKey(key'), 0x5c);
      SplitEqual(key, Fill(0, 64 - |key|), key', Fill(0, 64 - |key'|));
      if InnerText(key, text) == InnerText(key', text') {
        SplitEqual(XorAll(BlockKey(key), 0x36), text, XorAll(BlockKey(key'), 0x36), text');
      }
    }
  }

  lemma XorAllInjective(a: bytes, b: bytes, v: byte)
    requires |a| == |b| && XorAll(a, v) == XorAll(b, v)
    ensures a == b
  {
    hide Xor8;
    forall i | 0 <= i < |a|
      ensures a[i] == b[i]
    {
      assert XorAll(a, v)[i] == XorAll(b, v)[i];
      XorInjective(a[i], b[i], v);
    }
  }

  /** One block of output. */
  lemma ExpandOne(prk: bytes, info: bytes)
    ensures Expand(prk, info, 32) == HmacSha256(prk, info + [1])
  {
    hide HmacSha256;
    assert T(prk, info, 0) + info + [1] == info + [1];
    assert T(prk, info, 1) == HmacSha256(prk, info + [1]);
    assert Ts(prk, info, 1) == Ts(prk, info, 0) + T(prk, info, 1);
  }

  /** Equal expansions of different PRKs or under different info strings. */
  lemma EqualExpansions(prk: bytes, info: bytes, prk': bytes, info': bytes)
    requires |prk| == |prk'| <= 64 && (prk != prk' || info != info')
    requires Expand(prk, info, 32) == Expand(prk', info', 32)
    ensures MacsCollide(prk, info + [1], prk', info' + [1])
  {
    hide HmacSha256, MacsCollide, Expand;
    ExpandOne(prk, info);
    ExpandOne(prk', info');
    assert info + [1] == info' + [1] ==> info == (info + [1])[..|info|] == info';
    EqualMacs(prk, info + [1], prk', info' + [1]);
  }

  // ---- the streaming code ----

  /** hmac_sha256_raw_ctx_t */
  class HmacCtx {
    const inner: Ctx
    const outer: Ctx
    const sc: Scratch
    ghost var key: bytes
    ghost var text: bytes

    ghost predicate Allocated()
    {
      && inner.Allocated() && outer.Allocated() && inner.sc == sc && outer.sc == sc && inner != outer
      && inner.state != outer.state && inner.buf != outer.buf
    }

    /** Both hashes are primed with the key's pads and the inner one has absorbed the text. */
    ghost predicate Valid()
      reads this, inner, inner.state, inner.buf, outer, outer.state, outer.buf
    {
      && Allocated() && inner.Valid() && outer.Valid()
      && inner.message == XorAll(BlockKey(key), 0x36) + text
      && outer.message == XorAll(BlockKey(key), 0x5c)
    }

    constructor (scratch: Scratch)
      requires scratch.Valid()
      ensures Allocated() && sc == scratch
      ensures fresh(inner) && fresh(inner.state) && fresh(inner.buf) && fresh(outer) && fresh(outer.state) && fresh(outer.buf)
    {
      sc := scratch;
      inner := new Ctx(scratch);
      outer := new Ctx(scratch);
      key, text := [], [];
    }

    /** Normalise the key into g_hmac_pad. */
    method LoadKey(k: bytes)
      requires Allocated()
      modifies sc.pad, sc.schedule
      ensures sc.pad[..] == BlockKey(k)
    {
      hide Sha256;
      forall i | 0 <= i < 64 {
        sc.pad[i] := 0;
      }
      if |k| > 64 {
        HashKey(k);
        assert sc.pad[..] == sc.pad[..32] + sc.pad[32..];
      } else if |k| > 0 {
        forall i | 0 <= i < |k| {
          sc.pad[i] := k[i];
        }
      }
      if |k| <= 64 {
        assert sc.pad[..] == k + Fill(0, 64 - |k|);
      }
    }

    /** A long key is replaced by its digest in the first half of the pad. */
    method HashKey(k: bytes)
      requires Allocated()
      modifies sc.pad, sc.schedule
      ensures sc.pad[..32] == Sha256(k) && sc.pad[32..] == old(sc.pad[32..])
    {
      hide Sha256, HashBlocks, BitCount, Ctx.Valid;
      var keyhash := new Ctx(sc);
      keyhash.Init();
      keyhash.Update(k);
      NothingBefore(k);
      keyhash.Final(sc.pad);
    }

    /** XOR one byte into all of g_hmac_pad. */
    method XorPad(v: byte)
      requires Allocated()
      modifies sc.pad
      ensures sc.pad[..] == XorAll(old(sc.pad[..]), v)
    {
      hide Xor8;
      var i := 0;
      while i < 64
        invariant 0 <= i <= 64
        invariant forall j :: 0 <= j < 64 ==> sc.pad[j] == if j < i then Xor8(old(sc.pad[..])[j], v) else old(sc.pad[..])[j]
      {
        sc.pad[i] := Xor8(sc.pad[i], v);
        i := i + 1;
      }
    }

    /** XOR the pad with v and start one of the two hashes with it. */
    method Prime(c: Ctx, v: byte)
      requires Allocated() && c in {inner, outer}
      modifies c, c.state, c.buf, sc.pad, sc.schedule
      ensures c.Valid() && c.message == sc.pad[..] && sc.pad[..] == XorAll(old(sc.pad[..]), v)
    {
      hide XorAll, Ctx.Valid;
      XorPad(v);
      c.Init();
      c.Update(sc.pad[..]);
      NothingBefore(sc.pad[..]);
    }

    /** hmac_sha256_raw_init: the outer pad is made from the inner one in place. */
    method Init(k: bytes)
      requires Allocated()
      modifies this, inner, inner.state, inner.buf, outer, outer.state, outer.buf, sc.pad, sc.schedule
      ensures Valid() && key == k && text == []
      ensures forall i :: 0 <= i < 64 ==> sc.pad[i] == 0
    {
      hide BlockKey, XorAll, Ctx.Valid;
      LoadKey(k);
      Prime(inner, 0x36);
      PadsInPlace(BlockKey(k));
      Prime(outer, 0x6a);
      forall i | 0 <= i < 64 {
        sc.pad[i] := 0;
      }
      key, text := k, [];
      NothingBefore(XorAll(BlockKey(k), 0x36));
    }

    /** hmac_sha256_raw_update */
    method Update(data: bytes)
      requires Valid()
      modifies this, inner, inner.state, inner.buf, sc.schedule
      ensures Valid() && key == old(key) && text == old(text) + data
    {
      hide BlockKey, XorAll, Ctx.Valid;
      inner.Update(data);
      text := text + data;
      assert XorAll(BlockKey(key), 0x36) + old(text) + data == XorAll(BlockKey(key), 0x36) + text;
    }

    /** hmac_sha256_raw_final */
    method Final(mac: array<byte>)
      requires Valid() && mac.Length >= 32
      requires mac != inner.buf && mac != outer.buf && mac != sc.innerHash
      modifies this, inner, inner.state, inner.buf, outer, outer.state, outer.buf, sc.schedule, sc.innerHash, mac
      ensures mac[..32] == HmacSha256(old(key), old(text)) && mac[32..] == old(mac[32..])
      ensures forall i :: 0 <= i < 32 ==> sc.innerHash[i] == 0
    {
      hide BlockKey, XorAll, Ctx.Valid, Sha256;
      inner.Final(sc.innerHash);
      assert sc.innerHash[..32] == sc.innerHash[..];
      outer.Update(sc.innerHash[..]);
      outer.Final(mac);
      forall i | 0 <= i < 32 {
        sc.innerHash[i] := 0;
      }
    }
  }

  lemma NothingBefore(b: bytes)
    ensures [] + b == b && b + [] == b
  {
  }

  /** 0x36 then 0x6a is 0x5c, byte by byte. */
  lemma PadsInPlace(k: bytes)
    ensures XorAll(XorAll(k, 0x36), 0x6a) == XorAll(k, 0x5c)
  {
    hide Xor8;
    forall i | 0 <= i < |k|
      ensures XorAll(XorAll(k, 0x36), 0x6a)[i] == XorAll(k, 0x5c)[i]
    {
      XorPads(k[i]);
    }
  }

  /** hmac_sha256_raw */
  method MacInto(sc: Scratch, key: bytes, text: bytes, mac: array<byte>)
    requires sc.Valid() && mac.Length >= 32 && mac != sc.innerHash && mac != sc.pad
    modifies sc.schedule, sc.pad, sc.innerHash, mac
    ensures mac[..32] == HmacSha256(key, text) && mac[32..] == old(mac[32..])
  {
    hide HmacSha256, HmacCtx.Valid, T;
    var ctx := new HmacCtx(sc);
    ctx.Init(key);
    ctx.Update(text);
    NothingBefore(text);
    ctx.Final(mac);
  }

  /** hkdf_extract_sha256; a NULL salt is treated as an empty one. */
  method ExtractInto(sc: Scratch, salt: bytes, ikm: bytes, prk: array<byte>)
    requires sc.Valid() && prk.Length == 32 && prk != sc.innerHash && prk != sc.pad
    modifies sc.schedule, sc.pad, sc.innerHash, prk
    ensures prk[..] == Extract(salt, ikm)
  {
    hide HmacSha256;
    var s := salt;
    if |s| == 0 {
      s := Fill(0, 32);
    }
    MacInto(sc, s, ikm, prk);
    assert prk[..] == prk[..32];
  }

  /** hkdf_expand_sha256 into out[..len]: the 8-bit counter never wraps. */
  method ExpandInto(sc: Scratch, prk: bytes, info: bytes, out: array<byte>, len: nat)
    requires sc.Valid() && len <= 8160 && len <= out.Length
    requires out != sc.hkdfBlock && out != sc.innerHash && out != sc.pad
    modifies sc.schedule, sc.pad, sc.innerHash, sc.hkdfBlock, out
    ensures out[..len] == Expand(prk, info, len) && out[len..] == old(out[len..])
    ensures forall i :: 0 <= i < 32 ==> sc.hkdfBlock[i] == 0
  {
    hide HmacSha256, Ts, T;
    var done, counter := 0, 0;
    TsStart(prk, info);
    forall i | 0 <= i < 32 {
      sc.hkdfBlock[i] := 0;
    }
    while done < len
      invariant 0 <= done <= len && counter <= 255
      invariant done == if 32 * counter < len then 32 * counter else len
      invariant counter > 0 ==> 32 * (counter - 1) < len
      invariant counter > 0 ==> sc.hkdfBlock[..] == T(prk, info, counter)
      invariant done <= |Ts(prk, info, counter)| && out[..done] == Ts(prk, info, counter)[..done]
      invariant out[len..] == old(out[len..])
    {
      counter := counter + 1;
      NextBlock(sc, prk, info, counter);
      var take := if len - done > 32 then 32 else len - done;
      forall i | 0 <= i < take {
        out[done + i] := sc.hkdfBlock[i];
      }
      assert out[..done + take] == out[..done] + sc.hkdfBlock[..take];
      MoreOutput(prk, info, counter, out[..done], take);
      done := done + take;
    }
    ExpandFrom(prk, info, len, counter);
    forall i | 0 <= i < 32 {
      sc.hkdfBlock[i] := 0;
    }
  }

  /** The blocks that a request of len bytes takes. */
  lemma ExpandFrom(prk: bytes, info: bytes, len: nat, n: nat)
    requires len <= 8160 && n <= 255 && len <= 32 * n && (n > 0 ==> 32 * (n - 1) < len)
    ensures len <= |Ts(prk, info, n)| && Expand(prk, info, len) == Ts(prk, info, n)[..len]
  {
    hide HmacSha256, T, Ts;
    assert n == (len + 31) / 32;
  }

  lemma TsStart(prk: bytes, info: bytes)
    ensures Ts(prk, info, 0) == [] && T(prk, info, 0) == []
  {
  }

  lemma TsStep(prk: bytes, info: bytes, n: nat)
    requires 0 < n <= 255
    ensures Ts(prk, info, n) == Ts(prk, info, n - 1) + T(prk, info, n)
  {
  }

  /** The next block, or as much of it as is wanted, continues the output. */
  lemma MoreOutput(prk: bytes, info: bytes, n: nat, got: bytes, take: nat)
    requires 0 < n <= 255 && |got| == 32 * (n - 1) && got == Ts(prk, info, n - 1)[..|got|] && take <= 32
    ensures |got| + take <= |Ts(prk, info, n)| && got + T(prk, info, n)[..take] == Ts(prk, info, n)[..|got| + take]
  {
    hide Ts, T;
    TsStep(prk, info, n);
    assert got == Ts(prk, info, n - 1);
  }

  lemma TextOfBlock(prk: bytes, info: bytes, n: nat)
    requires 0 < n <= 255
    ensures T(prk, info, n) == HmacSha256(prk, T(prk, info, n - 1) + info + [n as byte])
    ensures [] + T(prk, info, n - 1) == T(prk, info, n - 1) && (n == 1 ==> T(prk, info, 0) == [])
    ensures info == [] ==> T(prk, info, n - 1) + info == T(prk, info, n - 1)
  {
    hide HmacSha256;
  }

  /** T(n) into g_hkdf_block, from the T(n - 1) already there. */
  method NextBlock(sc: Scratch, prk: bytes, info: bytes, n: nat)
    requires sc.Valid() && 0 < n <= 255
    requires n > 1 ==> sc.hkdfBlock[..] == T(prk, info, n - 1)
    modifies sc.schedule, sc.pad, sc.innerHash, sc.hkdfBlock
    ensures sc.hkdfBlock[..] == T(prk, info, n)
  {
    hide HmacSha256, HmacCtx.Valid, T;
    var ctx := new HmacCtx(sc);
    ctx.Init(prk);
    if n > 1 {
      ctx.Update(sc.hkdfBlock[..]);
    }
    if |info| > 0 {
      ctx.Update(info);
    }
    ctx.Update([n as byte]);
    TextOfBlock(prk, info, n);
    ctx.Final(sc.hkdfBlock);
    assert sc.hkdfBlock[..] == sc.hkdfBlock[..32];
  }
}
