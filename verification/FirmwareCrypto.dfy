/** The suite of functions that the blob store is instantiated with: keys from the key schedule, the
    blob tag as an HMAC over the SHA-256 of the chunk tags, and an AEAD that stays abstract. */
module FirmwareCrypto {
  import opened Bytes
  import opened BlobModel
  import opened BlobAuthentic
  import opened KeySchedule
  import opened Sha256Spec
  import opened Hmac
  import opened Wrappers

  /** secure_crypto_aes_gcm_encrypt and _decrypt: key, nonce, additional data, text. */
  datatype Aead = Aead(
    seal: (bytes, bytes, bytes, bytes) -> Sealed,
    open: (bytes, bytes, bytes, Sealed) -> Option<bytes>)

  /** Decryption undoes encryption, and keeps the length. */
  ghost predicate Inverse(a: Aead) {
    && (forall k, n, d, p :: |a.seal(k, n, d, p).text| == |p| && |a.seal(k, n, d, p).tag| == 16)
    && (forall k, n, d, p :: a.open(k, n, d, a.seal(k, n, d, p)) == Some(p))
    && (forall k, n, d, c :: a.open(k, n, d, c).Some? ==> |a.open(k, n, d, c).value| == |c.text|)
  }

  function Firmware(master: bytes, a: Aead): Suite {
    Suite(
      (group: nat) => GroupSubkey(master, group, FileEnc()),
      (fileKey: bytes, i: nat) => ChunkKey(fileKey, i),
      a.seal,
      a.open,
      (fileKey, tags) => HmacSha256(fileKey, Sha256(tags)))
  }

  /** So everything proved for a lawful suite holds for the firmware's own key schedule. */
  lemma FirmwareLawful(master: bytes, a: Aead)
    requires Inverse(a)
    ensures Lawful(Firmware(master, a))
  {
    hide GroupSubkey, ChunkKey, HmacSha256, Sha256;
  }

  /** What it takes for two groups to share a file key. */
  lemma FileKeysDistinct(master: bytes, a: Aead, g: nat, h: nat)
    requires g < 0x1_0000 && h < 0x1_0000 && g != h && Firmware(master, a).fileKey(g) == Firmware(master, a).fileKey(h)
    ensures SubkeysCollide(master, g, FileEnc(), h, FileEnc())
  {
    hide GroupSubkey, SubkeysCollide;
    EqualSubkeys(master, g, FileEnc(), h, FileEnc());
  }

  /** What it takes for two chunk indices to share a chunk key. */
  lemma ChunkKeysDistinct(master: bytes, a: Aead, g: nat, i: nat, j: nat)
    requires i < 0x1_0000_0000 && j < 0x1_0000_0000 && i != j
    requires var s := Firmware(master, a); s.chunkKey(s.fileKey(g), i) == s.chunkKey(s.fileKey(g), j)
    ensures ChunkKeysCollide(Firmware(master, a).fileKey(g), i, j)
  {
    hide GroupSubkey, ChunkKey, ChunkKeysCollide;
    EqualChunkKeys(GroupSubkey(master, g, FileEnc()), i, j);
  }

  /** What it takes for two sequences of chunk tags to share a blob tag. */
  lemma BlobTagsDistinct(master: bytes, a: Aead, g: nat, t: bytes, u: bytes)
    requires t != u
    requires var s := Firmware(master, a); s.blobTag(s.fileKey(g), t) == s.blobTag(s.fileKey(g), u)
    ensures Collide(t, u) || MacsCollide(Firmware(master, a).fileKey(g), Sha256(t), Firmware(master, a).fileKey(g), Sha256(u))
  {
    hide GroupSubkey, HmacSha256, Sha256, MacsCollide;
    var k := GroupSubkey(master, g, FileEnc());
    if Sha256(t) != Sha256(u) {
      EqualMacs(k, Sha256(t), k, Sha256(u));
    }
  }

  /** The file keys of a group are none of its signing keys, unless by a collision. */
  lemma KeysSeparate(master: bytes, a: Aead, g: nat, h: nat)
    requires g < 0x1_0000 && h < 0x1_0000 && Firmware(master, a).fileKey(g) == GroupSubkey(master, h, RecvSeed())
    ensures SubkeysCollide(master, g, FileEnc(), h, RecvSeed())
  {
    hide GroupSubkey, SubkeysCollide;
    LabelsDistinct();
    EqualSubkeys(master, g, FileEnc(), h, RecvSeed());
  }

  /** Authenticity for the firmware's keys: there a shared chunk key is a collision of SHA-256. */
  lemma SharedKeyCollides(master: bytes, a: Aead, g: nat)
    requires KeyShared(Firmware(master, a), g)
    ensures exists i, j :: 0 <= i < j < 48 && ChunkKeysCollide(Firmware(master, a).fileKey(g), i, j)
  {
    hide GroupSubkey, ChunkKey, ChunkKeysCollide;
    var s := Firmware(master, a);
    var i, j :| 0 <= i < j < 48 && s.chunkKey(s.fileKey(g), i) == s.chunkKey(s.fileKey(g), j);
    ChunkKeysDistinct(master, a, g, i, j);
  }

  /** Keys of the chunks of one file are expanded from distinct info strings. */
  lemma FirmwareChunkKeys(master: bytes, a: Aead, fileKey: bytes, i: nat, j: nat)
    requires i < 0x1_0000_0000 && j < 0x1_0000_0000 && i != j
    ensures Firmware(master, a).chunkKey(fileKey, i) == Expand(fileKey, BlobChunk() + Le(i, 4), 32)
    ensures BlobChunk() + Le(i, 4) != BlobChunk() + Le(j, 4)
  {
    hide Expand, Le;
    if BlobChunk() + Le(i, 4) == BlobChunk() + Le(j, 4) {
      ChunkInfoDistinct(i, j);
    }
  }
}
