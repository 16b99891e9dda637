/** Whatever is on flash: what a successful read can return when the AEAD opens only what was sealed. */
module BlobAuthentic {
  import opened Bytes
  import opened Flash
  import opened BlobModel
  import opened BlobRead
  import opened Wrappers

  /** A record that some device wrote, and the slot it wrote it to. */
  datatype Written = Written(slot: nat, rec: Rec)

  predicate AreWritten(ws: seq<Written>) {
    forall i :: 0 <= i < |ws| ==> ws[i].slot < SLOTS && IsRec(ws[i].rec)
  }

  predicate DistinctNonces(ws: seq<Written>) {
    forall i, j :: 0 <= i < j < |ws| ==> ws[i].rec.nonce != ws[j].rec.nonce
  }

  /** Key, nonce, additional data and ciphertext of chunk i of w. */
  ghost predicate IsChunkOf(s: Suite, w: Written, i: nat, key: bytes, nonce: bytes, aad: bytes, c: Sealed) {
    && i < ChunkCount(|w.rec.data|) && c == SealedChunk(s, w.slot, w.rec, i)
    && key == s.chunkKey(s.fileKey(w.rec.group), i) && nonce == w.rec.nonce && aad == Aad(Proto(w.slot, w.rec))
  }

  ghost predicate SomeChunk(s: Suite, ws: seq<Written>, key: bytes, nonce: bytes, aad: bytes, c: Sealed) {
    exists j, i :: 0 <= j < |ws| && IsChunkOf(s, ws[j], i, key, nonce, aad, c)
  }

  /** Two chunk indices of a group share a key. */
  ghost predicate KeyShared(s: Suite, group: nat) {
    exists i, j :: 0 <= i < j < 48 && s.chunkKey(s.fileKey(group), i) == s.chunkKey(s.fileKey(group), j)
  }

  /** The record that a header describes. */
  predicate Describes(h: Header, w: Written) {
    && h.slot == w.slot && h.len == |w.rec.data| && h.group == w.rec.group && h.owner == w.rec.owner
    && h.nonce == w.rec.nonce
  }

  /** A reader under way on the header b. */
  ghost predicate Reads(s: Suite, b: bytes, c: Cursor) {
    && |b| == 96 && IsCursor(c) && c.total == ParseHeader(b).len && c.nonce == ParseHeader(b).nonce
    && c.key == s.fileKey(ParseHeader(b).group) && c.aad == Aad(ParseHeader(b))
  }

  /** A piece on flash that a reader under header b accepts although no device sealed it: a forgery. */
  ghost predicate Forged(s: Suite, ws: seq<Written>, mem: bytes, b: bytes)
    requires |mem| == FLASH_SIZE
  {
    exists c, n :: ForgedAt(s, ws, mem, b, c, n)
  }

  ghost predicate ForgedAt(s: Suite, ws: seq<Written>, mem: bytes, b: bytes, c: Cursor, n: nat)
    requires |mem| == FLASH_SIZE
  {
    && Reads(s, b, c) && c.processed + n <= c.total && n <= 256 && OpenPiece(s, mem, c, n).Some?
    && !SomeChunk(s, ws, s.chunkKey(c.key, c.processed / 256), c.nonce, c.aad, StoredPiece(mem, c, n))
  }

  lemma NotShared(s: Suite, group: nat, i: nat, j: nat)
    requires !KeyShared(s, group) && i < 48 && j < 48 && s.chunkKey(s.fileKey(group), i) == s.chunkKey(s.fileKey(group), j)
    ensures i == j
  {
  }

  /** One accepted piece is the chunk at that index of a record that the header describes: neither
      chunks of other records nor other chunks of the same one are accepted in its place. */
  lemma OnePiece(s: Suite, ws: seq<Written>, mem: bytes, b: bytes, c: Cursor, n: nat) returns (j: nat)
    requires Lawful(s) && AreWritten(ws) && |mem| == FLASH_SIZE && !Forged(s, ws, mem, b) && Reads(s, b, c)
    requires c.processed + n <= c.total && n <= 256 && c.processed < 12192 && OpenPiece(s, mem, c, n).Some?
    requires !KeyShared(s, ParseHeader(b).group)
    ensures j < |ws| && Describes(ParseHeader(b), ws[j]) && c.processed / 256 < ChunkCount(|ws[j].rec.data|)
    ensures OpenPiece(s, mem, c, n) == Some(Chunk(ws[j].rec.data, c.processed / 256))
  {
    hide Aad, ParseHeader, StoredPiece, Lawful, Chunk, KeyShared;
    var i := c.processed / 256;
    var key, stored := s.chunkKey(c.key, i), StoredPiece(mem, c, n);
    assert !ForgedAt(s, ws, mem, b, c, n);
    ghost var k, l :| 0 <= k < |ws| && IsChunkOf(s, ws[k], l, key, c.nonce, c.aad, stored);
    j := k;
    ProtoIsHeader(ws[j].slot, ws[j].rec);
    AadOfParsed(b);
    assert b[..60] == Aad(Proto(ws[j].slot, ws[j].rec))[..60];
    ParseFields(b, Proto(ws[j].slot, ws[j].rec), 60);
    assert l < 48 && i < 48;
    NotShared(s, ParseHeader(b).group, l, i);
    OpenSealed(s, ws[j].slot, ws[j].rec, i);
  }

  /** Chunk j of a record in the place of its chunk i: the reader tries the key of index i on what was
      sealed under the key of index j, so it is accepted only if the AEAD opens across those keys. */
  lemma MovedChunk(s: Suite, mem: bytes, slot: nat, r: Rec, tag: bytes, i: nat, j: nat, n: nat)
    requires |mem| == FLASH_SIZE && slot < SLOTS && IsRec(r) && i < ChunkCount(|r.data|) && j < ChunkCount(|r.data|)
    requires n <= 256 && 256 * i + n <= |r.data| && StoredPiece(mem, CursorAt(s, slot, r, tag, i), n) == SealedChunk(s, slot, r, j)
    ensures var key, aad := (k: nat) => s.chunkKey(s.fileKey(r.group), k), Aad(Proto(slot, r));
            OpenPiece(s, mem, CursorAt(s, slot, r, tag, i), n)
            == s.open(key(i), r.nonce, aad, s.seal(key(j), r.nonce, aad, Chunk(r.data, j)))
  {
    hide Aad, StoredPiece, Chunk, Tags;
    assert 256 * i / 256 == i;
  }

  /** From a chunk boundary on, what is read is the rest of one record. */
  lemma {:induction false} RestOfRecord(s: Suite, ws: seq<Written>, mem: bytes, b: bytes, c: Cursor, j: nat, i: nat)
    requires Lawful(s) && AreWritten(ws) && DistinctNonces(ws) && |mem| == FLASH_SIZE && !Forged(s, ws, mem, b) && Reads(s, b, c)
    requires !KeyShared(s, ParseHeader(b).group) && j < |ws| && Describes(ParseHeader(b), ws[j])
    requires c.processed == 256 * i || c.processed == c.total
    requires ReadPieces(s, mem, c, c.total - c.processed).Some?
    ensures ReadPieces(s, mem, c, c.total - c.processed).value.0 == ws[j].rec.data[c.processed..]
    decreases c.total - c.processed
  {
    hide Aad, ParseHeader, StoredPiece, Lawful, OpenPiece, Forged, KeyShared;
    var data, len := ws[j].rec.data, c.total - c.processed;
    if len > 0 {
      var n := if len > 256 then 256 else len;
      var k := OnePiece(s, ws, mem, b, c, n);
      assert k == j;
      assert c.processed / 256 == i;
      RestOfRecord(s, ws, mem, b, Advance(mem, c, n), j, i + 1);
      assert Chunk(data, i) + data[c.processed + n..] == data[c.processed..];
    }
  }

  /** Authenticity. Whatever is on flash, in whatever order, from whatever slot or device it was
      copied: when no two records share a nonce, a successful read of a file that is not empty returns
      in full the data of one record written to that slot, under a group and an owner that the reader
      accepts. The alternatives are a forgery, a piece that the AEAD opens although no device sealed
      it, and two chunk indices that share a key. */
  lemma Authenticity(s: Suite, ws: seq<Written>, mem: bytes, fat: seq<FatEntry>, slot: nat, pin: Option<bytes>, mask: nat, room: nat)
    requires Lawful(s) && AreWritten(ws) && DistinctNonces(ws) && |mem| == FLASH_SIZE && IsFat(fat)
    requires ReadAll(s, mem, fat, slot, pin, mask, room).Done? && ReadAll(s, mem, fat, slot, pin, mask, room).value != []
    ensures (exists j :: 0 <= j < |ws| && IsReading(ws[j], slot, pin, mask, ReadAll(s, mem, fat, slot, pin, mask, room).value))
            || (slot < SLOTS && Forged(s, ws, mem, mem[SlotBase(slot)..SlotBase(slot) + 96]))
            || exists g :: 0 <= g < 0x1_0000 && KeyShared(s, g)
  {
    hide Aad, ParseHeader, StoredPiece, Lawful, OpenPiece, Forged, KeyShared, FinishRead, BitAnd;
    var b := mem[SlotBase(slot)..SlotBase(slot) + 96];
    var c, h := OpenRead(s, mem, fat, slot, pin, mask).value, ParseHeader(b);
    if !KeyShared(s, h.group) && !Forged(s, ws, mem, b) {
      var n := if c.total > 256 then 256 else c.total;
      assert c.total > 0 && OpenPiece(s, mem, c, n).Some?;
      var j := OnePiece(s, ws, mem, b, c, n);
      RestOfRecord(s, ws, mem, b, c, j, 0);
      assert IsReading(ws[j], slot, pin, mask, ws[j].rec.data);
    }
  }

  predicate IsReading(w: Written, slot: nat, pin: Option<bytes>, mask: nat, data: bytes) {
    && w.slot == slot && w.rec.data == data && BitAnd(mask, w.rec.group) != 0
    && (pin.Some? ==> w.rec.owner == pin.value)
  }
}
