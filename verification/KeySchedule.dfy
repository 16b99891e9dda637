/** secure_crypto.c: the key hierarchy under K_master, and the receive proofs that one device signs
    and another verifies, computed through shared scratch buffers that are wiped after use. */
module KeySchedule {
  import opened Bytes
  import opened Sha256Spec
  import opened Sha256Stream
  import opened Hmac

  // ---- definitions ----

  function Ascii(s: string): (b: bytes)
    requires forall i :: 0 <= i < |s| ==> s[i] < 128 as char
    ensures |b| == |s|
  {
    seq(|s|, i requires 0 <= i < |s| => s[i] as int as byte)
  }

  lemma AsciiInjective(s: string, t: string)
    requires (forall i :: 0 <= i < |s| ==> s[i] < 128 as char) && forall i :: 0 <= i < |t| ==> t[i] < 128 as char
    requires Ascii(s) == Ascii(t)
    ensures s == t
  {
    forall i | 0 <= i < |s|
      ensures s[i] == t[i]
    {
      assert Ascii(s)[i] == Ascii(t)[i];
    }
  }

  function GroupRoot(): bytes { Ascii("group_root") }
  function FileEnc(): bytes { Ascii("file_enc_v1") }
  function RecvSeed(): bytes { Ascii("recv_sign_seed_v1") }
  function PinMac(): bytes { Ascii("pin_mac_v1") }
  function BlobChunk(): bytes { Ascii("blob_chunk_v1") }

  function GroupKey(master: bytes, group: nat): (k: bytes)
    ensures |k| == 32
  {
    Expand(Extract(Le(group, 2), master), GroupRoot(), 32)
  }

  function LabelKey(key: bytes, name: bytes): (k: bytes)
    ensures |k| == 32
  {
    Expand(Extract([], key), name, 32)
  }

  function GroupSubkey(master: bytes, group: nat, name: bytes): (k: bytes)
    ensures |k| == 32
  {
    LabelKey(GroupKey(master, group), name)
  }

  function ChunkKey(fileKey: bytes, i: nat): (k: bytes)
    ensures |k| == 32
  {
    Expand(fileKey, BlobChunk() + Le(i, 4), 32)
  }

  /** The MAC that proves knowledge of K_master for a group over a message. */
  function ReceiveProof(master: bytes, group: nat, message: bytes): (mac: bytes)
    ensures |mac| == 32
  {
    HmacSha256(GroupSubkey(master, group, RecvSeed()), Sha256(message))
  }

  /** The PIN hash that PIN checks compare and that records carry. */
  function PinHash(master: bytes, pin: bytes): (h: bytes)
    ensures |h| == 32
  {
    HmacSha256(PinKey(master), pin)
  }

  function PinKey(master: bytes): (k: bytes)
    ensures |k| == 32
  {
    HmacSha256(master, PinMac())
  }

  // ---- what equal hashes, keys and proofs come to ----

  /** A SHA-256 collision inside the hashes of two PINs. */
  predicate PinsCollide(master: bytes, p: bytes, q: bytes) {
    MacsCollide(PinKey(master), p, PinKey(master), q)
  }

  /** Two PINs have one hash only by such a collision. */
  lemma EqualPinHashes(master: bytes, p: bytes, q: bytes)
    requires p != q && PinHash(master, p) == PinHash(master, q)
    ensures PinsCollide(master, p, q)
  {
    hide HmacSha256, MacsCollide;
    EqualMacs(PinKey(master), p, PinKey(master), q);
  }

  predicate LabelKeysCollide(key: bytes, name: bytes, key': bytes, name': bytes) {
    || MacsCollide(Extract([], key), name + [1], Extract([], key'), name' + [1])
    || MacsCollide(Fill(0, 32), key, Fill(0, 32), key')
  }

  lemma EqualLabelKeys(key: bytes, name: bytes, key': bytes, name': bytes)
    requires (key != key' || name != name') && LabelKey(key, name) == LabelKey(key', name')
    ensures LabelKeysCollide(key, name, key', name')
  {
    hide HmacSha256, MacsCollide, Expand;
    if Extract([], key) != Extract([], key') || name != name' {
      EqualExpansions(Extract([], key), name, Extract([], key'), name');
    } else {
      EqualMacs(Fill(0, 32), key, Fill(0, 32), key');
    }
  }

  predicate GroupKeysCollide(master: bytes, group: nat, group': nat) {
    || MacsCollide(Extract(Le(group, 2), master), GroupRoot() + [1], Extract(Le(group', 2), master), GroupRoot() + [1])
    || MacsCollide(Le(group, 2), master, Le(group', 2), master)
  }

  lemma EqualGroupKeys(master: bytes, group: nat, group': nat)
    requires group < 0x1_0000 && group' < 0x1_0000 && group != group'
    requires GroupKey(master, group) == GroupKey(master, group')
    ensures GroupKeysCollide(master, group, group')
  {
    hide HmacSha256, MacsCollide, Expand, Le;
    if Extract(Le(group, 2), master) != Extract(Le(group', 2), master) {
      EqualExpansions(Extract(Le(group, 2), master), GroupRoot(), Extract(Le(group', 2), master), GroupRoot());
    } else {
      if Le(group, 2) == Le(group', 2) {
        Field16(group);
        Field16(group');
      }
      EqualMacs(Le(group, 2), master, Le(group', 2), master);
    }
  }

  predicate SubkeysCollide(master: bytes, group: nat, name: bytes, group': nat, name': bytes) {
    LabelKeysCollide(GroupKey(master, group), name, GroupKey(master, group'), name') || GroupKeysCollide(master, group, group')
  }

  /** Subkeys of different groups or under different labels are equal only by a collision. */
  lemma EqualSubkeys(master: bytes, group: nat, name: bytes, group': nat, name': bytes)
    requires group < 0x1_0000 && group' < 0x1_0000 && (group != group' || name != name')
    requires GroupSubkey(master, group, name) == GroupSubkey(master, group', name')
    ensures SubkeysCollide(master, group, name, group', name')
  {
    hide LabelKey, GroupKey, LabelKeysCollide, GroupKeysCollide;
    if GroupKey(master, group) != GroupKey(master, group') || name != name' {
      EqualLabelKeys(GroupKey(master, group), name, GroupKey(master, group'), name');
    } else {
      EqualGroupKeys(master, group, group');
    }
  }

  /** The labels are told apart, so this separates file keys from signing keys. */
  lemma LabelsDistinct()
    ensures FileEnc() != RecvSeed() && PinMac() != FileEnc() && PinMac() != RecvSeed() && BlobChunk() != FileEnc()
  {
    assert |FileEnc()| == 11 && |RecvSeed()| == 17 && |PinMac()| == 10 && |BlobChunk()| == 13;
  }

  /** A SHA-256 collision inside two receive proofs: on the messages, in the MACs, or on the way to
      their keys. */
  predicate ProofsCollide(master: bytes, group: nat, message: bytes, group': nat, message': bytes) {
    || Collide(message, message')
    || MacsCollide(GroupSubkey(master, group, RecvSeed()), Sha256(message), GroupSubkey(master, group', RecvSeed()), Sha256(message'))
    || SubkeysCollide(master, group, RecvSeed(), group', RecvSeed())
  }

  /** One MAC proves two groups or two messages only by such a collision. */
  lemma EqualProofs(master: bytes, group: nat, message: bytes, group': nat, message': bytes)
    requires group < 0x1_0000 && group' < 0x1_0000 && (group != group' || message != message')
    requires ReceiveProof(master, group, message) == ReceiveProof(master, group', message')
    ensures ProofsCollide(master, group, message, group', message')
  {
    hide GroupSubkey, HmacSha256, MacsCollide, SubkeysCollide, Sha256;
    var k, l := GroupSubkey(master, group, RecvSeed()), GroupSubkey(master, group', RecvSeed());
    if k != l || Sha256(message) != Sha256(message') {
      EqualMacs(k, Sha256(message), l, Sha256(message'));
    } else if message == message' {
      EqualSubkeys(master, group, RecvSeed(), group', RecvSeed());
    }
  }

  predicate ChunkKeysCollide(fileKey: bytes, i: nat, j: nat) {
    MacsCollide(fileKey, BlobChunk() + Le(i, 4) + [1], fileKey, BlobChunk() + Le(j, 4) + [1])
  }

  /** Two chunks of one file have one key only by a collision. */
  lemma EqualChunkKeys(fileKey: bytes, i: nat, j: nat)
    requires |fileKey| == 32 && i < 0x1_0000_0000 && j < 0x1_0000_0000 && i != j && ChunkKey(fileKey, i) == ChunkKey(fileKey, j)
    ensures ChunkKeysCollide(fileKey, i, j)
  {
    hide Expand, Le, MacsCollide;
    if BlobChunk() + Le(i, 4) == BlobChunk() + Le(j, 4) {
      ChunkInfoDistinct(i, j);
    }
    EqualExpansions(fileKey, BlobChunk() + Le(i, 4), fileKey, BlobChunk() + Le(j, 4));
  }

  /** Chunks of one file never share an HKDF info string. */
  lemma ChunkInfoDistinct(i: nat, j: nat)
    requires i < 0x1_0000_0000 && j < 0x1_0000_0000 && BlobChunk() + Le(i, 4) == BlobChunk() + Le(j, 4)
    ensures i == j
  {
    hide Le, Un;
    var n := |BlobChunk()|;
    assert (BlobChunk() + Le(i, 4))[n..] == Le(i, 4) && (BlobChunk() + Le(j, 4))[n..] == Le(j, 4);
    Field32(i);
    Field32(j);
  }

  // ---- the code ----

  /** The static buffers of secure_crypto.c. */
  class Unit {
    const sc: Scratch
    const groupSalt: array<byte>
    const prk: array<byte>
    const groupKey: array<byte>
    const digest: array<byte>
    const expectedMac: array<byte>
    const material: array<byte>

    ghost predicate Valid()
    {
      && sc.Valid() && groupSalt.Length == 2 && prk.Length == 32 && groupKey.Length == 32
      && digest.Length == 32 && expectedMac.Length == 32 && material.Length == 32
      && {groupSalt, prk, groupKey, digest, expectedMac, material} !! {sc.pad, sc.innerHash, sc.hkdfBlock}
      && prk !in {groupSalt, groupKey, digest, expectedMac, material}
      && groupSalt !in {groupKey, digest, expectedMac, material}
      && groupKey !in {digest, expectedMac, material}
      && digest !in {expectedMac, material} && expectedMac != material
    }

    /** The output is none of the buffers that a derivation uses on the way. */
    ghost predicate Outside(out: array<byte>)
    {
      out !in {sc.pad, sc.innerHash, sc.hkdfBlock, groupSalt, prk, groupKey}
    }

    constructor ()
      ensures Valid() && fresh(sc.schedule) && fresh(sc.pad) && fresh(sc.innerHash) && fresh(sc.hkdfBlock)
      ensures fresh(groupSalt) && fresh(prk) && fresh(groupKey) && fresh(digest) && fresh(expectedMac) && fresh(material)
    {
      sc := new Scratch();
      groupSalt := new byte[2](_ => 0);
      prk := new byte[32](_ => 0);
      groupKey := new byte[32](_ => 0);
      digest := new byte[32](_ => 0);
      expectedMac := new byte[32](_ => 0);
      material := new byte[32](_ => 0);
    }

    /** derive_key: extract without salt, expand under a label. */
    method DeriveKey(key: bytes, name: bytes, out: array<byte>)
      requires Valid() && out.Length == 32 && Outside(out)
      modifies sc.schedule, sc.pad, sc.innerHash, sc.hkdfBlock, prk, out
      ensures out[..] == LabelKey(key, name)
      ensures Wiped(prk)
    {
      hide Extract, Expand;
      ExtractInto(sc, [], key, prk);
      ExpandInto(sc, prk[..], name, out, 32);
      assert out[..] == out[..32];
      Wipe(prk);
    }

    /** derive_group_key: the group id, low byte first, is the salt. */
    method DeriveGroupKey(master: bytes, group: nat, out: array<byte>)
      requires Valid() && group < 0x1_0000 && out.Length == 32 && out !in {sc.pad, sc.innerHash, sc.hkdfBlock, groupSalt, prk}
      modifies sc.schedule, sc.pad, sc.innerHash, sc.hkdfBlock, groupSalt, prk, out
      ensures out[..] == GroupKey(master, group)
      ensures Wiped(prk) && Wiped(groupSalt)
    {
      hide Extract, Expand;
      groupSalt[0] := (group % 256) as byte;
      groupSalt[1] := (group / 256 % 256) as byte;
      TwoBytes(group);
      assert groupSalt[..] == Le(group, 2);
      ExtractInto(sc, groupSalt[..], master, prk);
      ExpandInto(sc, prk[..], GroupRoot(), out, 32);
      assert out[..] == out[..32];
      Wipe(groupSalt);
      Wipe(prk);
    }

    /** derive_group_subkey */
    method DeriveGroupSubkey(master: bytes, group: nat, name: bytes, out: array<byte>)
      requires Valid() && group < 0x1_0000 && out.Length == 32 && Outside(out)
      modifies sc.schedule, sc.pad, sc.innerHash, sc.hkdfBlock, groupSalt, prk, groupKey, out
      ensures out[..] == GroupSubkey(master, group, name)
      ensures Wiped(groupKey) && Wiped(prk)
    {
      hide GroupKey, LabelKey;
      DeriveGroupKey(master, group, groupKey);
      DeriveKey(groupKey[..], name, out);
      Wipe(groupKey);
    }

    /** secure_crypto_derive_chunk_key */
    method DeriveChunkKey(fileKey: bytes, i: nat, out: array<byte>)
      requires Valid() && i < 0x1_0000_0000 && out.Length == 32 && Outside(out)
      modifies sc.schedule, sc.pad, sc.innerHash, sc.hkdfBlock, out
      ensures out[..] == ChunkKey(fileKey, i)
    {
      hide Expand;
      FourBytes(i);
      var info := BlobChunk() + [(i % 256) as byte, (i / 0x100 % 256) as byte, (i / 0x1_0000 % 256) as byte, (i / 0x100_0000 % 256) as byte];
      ExpandInto(sc, fileKey, info, out, 32);
      assert out[..] == out[..32];
    }

    /** secure_crypto_receive_proof_sign */
    method Sign(master: bytes, group: nat, message: bytes, signature: array<byte>)
      requires Valid() && group < 0x1_0000 && signature.Length == 32
      requires Outside(signature) && signature != digest && signature != material
      modifies sc.schedule, sc.pad, sc.innerHash, sc.hkdfBlock, groupSalt, prk, groupKey, digest, material, signature
      ensures signature[..] == ReceiveProof(master, group, message)
      ensures Wiped(digest) && Wiped(material)
    {
      hide GroupSubkey, HmacSha256, Sha256;
      HashInto(message);
      DeriveGroupSubkey(master, group, RecvSeed(), material);
      MacInto(sc, material[..], digest[..], signature);
      assert signature[..] == signature[..32];
      Wipe(digest);
      Wipe(material);
    }

    /** compute_pin_hash of security.c, with secure_crypto_derive_pin_mac_key. */
    method HashPin(master: bytes, pin: bytes, out: array<byte>)
      requires Valid() && out.Length == 32 && Outside(out) && out != material
      modifies sc.schedule, sc.pad, sc.innerHash, material, out
      ensures out[..] == PinHash(master, pin)
      ensures Wiped(material)
    {
      hide HmacSha256;
      MacInto(sc, master, PinMac(), material);
      assert material[..] == material[..32];
      MacInto(sc, material[..], pin, out);
      assert out[..] == out[..32];
      Wipe(material);
    }

    method HashInto(message: bytes)
      requires Valid()
      modifies digest, sc.schedule
      ensures digest[..] == Sha256(message)
    {
      hide Sha256, Ctx.Valid;
      var ctx := new Ctx(sc);
      ctx.Init();
      ctx.Update(message);
      NothingBefore(message);
      ctx.Final(digest);
      assert digest[..] == digest[..32];
    }

    /** secure_crypto_receive_proof_verify: accepts exactly the signature Sign computes. */
    method Verify(master: bytes, group: nat, message: bytes, signature: bytes) returns (ok: bool)
      requires Valid() && group < 0x1_0000
      modifies sc.schedule, sc.pad, sc.innerHash, sc.hkdfBlock, groupSalt, prk, groupKey, digest, material, expectedMac
      ensures ok <==> signature == ReceiveProof(master, group, message)
      ensures Wiped(digest) && Wiped(material)
    {
      hide GroupSubkey, HmacSha256, Sha256;
      HashInto(message);
      DeriveGroupSubkey(master, group, RecvSeed(), material);
      ok := VerifyDigest(signature);
      Wipe(digest);
      Wipe(material);
    }

    /** hmac_verify_digest: differences are accumulated over all 32 bytes. */
    method VerifyDigest(signature: bytes) returns (ok: bool)
      requires Valid()
      modifies sc.schedule, sc.pad, sc.innerHash, expectedMac
      ensures ok <==> signature == HmacSha256(material[..], digest[..])
    {
      hide HmacSha256;
      if |signature| != 32 {
        return false;
      }
      MacInto(sc, material[..], digest[..], expectedMac);
      ghost var expected := expectedMac[..];
      assert expected == expectedMac[..32];
      var diff := SumDifferences(expectedMac[..], signature);
      Wipe(expectedMac);
      return diff == 0;
    }

    method Wipe(a: array<byte>)
      modifies a
      ensures Wiped(a)
    {
      forall i | 0 <= i < a.Length {
        a[i] := 0;
      }
    }
  }

  ghost predicate Wiped(a: array<byte>)
    reads a
  {
    forall i :: 0 <= i < a.Length ==> a[i] == 0
  }

  /** diff |= a[i] ^ b[i] over the whole length: zero exactly when nothing differs. */
  method SumDifferences(a: bytes, b: bytes) returns (diff: byte)
    requires |a| == |b|
    ensures diff == 0 <==> a == b
  {
    hide Xor8, Or8;
    diff := 0;
    var i := 0;
    while i < |a|
      invariant 0 <= i <= |a|
      invariant diff == 0 <==> a[..i] == b[..i]
    {
      XorZero(a[i], b[i]);
      OrZero(diff, Xor8(a[i], b[i]));
      diff := Or8(diff, Xor8(a[i], b[i]));
      assert a[..i + 1] == a[..i] + [a[i]] && b[..i + 1] == b[..i] + [b[i]];
      i := i + 1;
    }
    assert a[..i] == a && b[..i] == b;
  }

  lemma TwoBytes(n: nat)
    ensures Le(n, 2) == [(n % 256) as byte, (n / 256 % 256) as byte]
  {
    assert Le(n / 256, 1) == [(n / 256 % 256) as byte];
  }

  lemma FourBytes(n: nat)
    ensures Le(n, 4) == [(n % 256) as byte, (n / 0x100 % 256) as byte, (n / 0x1_0000 % 256) as byte, (n / 0x100_0000 % 256) as byte]
  {
    var m := n / 0x1_0000;
    assert n / 256 / 256 == m && m / 256 == n / 0x100_0000;
    TwoBytes(m);
    assert Le(n / 256, 3) == [(n / 256 % 256) as byte] + Le(m, 2);
  }
}
