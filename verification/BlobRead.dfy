/** Reading a slot back: what the streaming reader returns from an intact slot, and what it can
    return from a slot whose header was only partly written. */
module BlobRead {
  import opened Bytes
  import opened Flash
  import opened BlobModel
  import opened BlobFlash
  import opened Wrappers

  // ---- header fields ----

  predicate IsHeader(h: Header) {
    && h.magic < 0x1_0000_0000 && h.version < 0x1_0000 && h.slot < 0x1_0000 && h.len < 0x1_0000_0000
    && h.group < 0x1_0000_0000 && |h.owner| == 32 && |h.nonce| == 12
  }

  lemma AadParts(h: Header)
    requires |h.owner| == 32 && |h.nonce| == 12
    ensures |Aad(h)| == 60
    ensures Aad(h)[..4] == Le(h.magic, 4) && Aad(h)[4..6] == Le(h.version, 2) && Aad(h)[6..8] == Le(h.slot, 2)
    ensures Aad(h)[8..12] == Le(h.len, 4) && Aad(h)[12..16] == Le(h.group, 4)
    ensures Aad(h)[16..48] == h.owner && Aad(h)[48..60] == h.nonce
  {
    hide Le;
  }

  /** The reader's AAD is literally the first 60 header bytes it found on flash. */
  lemma AadOfParsed(b: bytes)
    requires |b| == 96
    ensures Aad(ParseHeader(b)) == b[..60]
  {
    hide Le, Un;
    UnLe(b[..4]);
    UnLe(b[4..6]);
    UnLe(b[6..8]);
    UnLe(b[8..12]);
    UnLe(b[12..16]);
    assert b[..60] == b[..4] + b[4..6] + b[6..8] + b[8..12] + b[12..16] + b[16..48] + b[48..60];
  }

  /** A header whose first n AAD bytes are those of h parses to the fields of h that they hold. */
  lemma ParseFields(b: bytes, h: Header, n: nat)
    requires |b| == 96 && IsHeader(h) && 16 <= n <= 60 && b[..n] == Aad(h)[..n]
    ensures ParseHeader(b).magic == h.magic && ParseHeader(b).version == h.version && ParseHeader(b).slot == h.slot
    ensures ParseHeader(b).len == h.len && ParseHeader(b).group == h.group
    ensures n == 60 ==> ParseHeader(b).owner == h.owner && ParseHeader(b).nonce == h.nonce
  {
    hide Le, Un, Aad;
    AadParts(h);
    Field32(h.magic);
    Field16(h.version);
    Field16(h.slot);
    Field32(h.len);
    Field32(h.group);
    assert b[..4] == b[..n][..4] == Aad(h)[..n][..4] == Aad(h)[..4];
    assert b[4..6] == b[..n][4..6] == Aad(h)[..n][4..6] == Aad(h)[4..6];
    assert b[6..8] == b[..n][6..8] == Aad(h)[..n][6..8] == Aad(h)[6..8];
    assert b[8..12] == b[..n][8..12] == Aad(h)[..n][8..12] == Aad(h)[8..12];
    assert b[12..16] == b[..n][12..16] == Aad(h)[..n][12..16] == Aad(h)[12..16];
    if n == 60 {
      assert b[16..48] == b[..n][16..48] == Aad(h)[16..48] && b[48..60] == b[..n][48..60] == Aad(h)[48..60];
    }
  }

  lemma ProtoIsHeader(slot: nat, r: Rec)
    requires slot < SLOTS && IsRec(r)
    ensures IsHeader(Proto(slot, r)) && |Aad(Proto(slot, r))| == 60
  {
  }

  // ---- reading intact chunks ----

  /** The reader's state at the boundary before chunk i of record r, expecting the given blob tag. */
  function CursorAt(s: Suite, slot: nat, r: Rec, tag: bytes, i: nat): Cursor
    requires i <= ChunkCount(|r.data|)
  {
    Cursor(slot, if 256 * i < |r.data| then 256 * i else |r.data|, |r.data|, r.nonce, s.fileKey(r.group),
           Aad(Proto(slot, r)), tag, Tags(s, slot, r, i))
  }

  lemma OpenStoredPiece(s: Suite, mem: bytes, slot: nat, r: Rec, c: Cursor, i: nat, n: nat)
    requires |mem| == FLASH_SIZE && slot < SLOTS && i < ChunkCount(|r.data|) && i < 48
    requires IsCursor(c) && c.slot == slot && c.processed == 256 * i && c.processed + n <= c.total && n <= 256
    requires |SealedChunk(s, slot, r, i).text| == n
    requires ChunkStored(s, mem, slot, r, i)
    ensures StoredPiece(mem, c, n) == SealedChunk(s, slot, r, i)
  {
    assert c.processed / 256 == i;
  }

  /** One piece read from a chunk boundary: it is the whole chunk, and the cursor moves to the next
      boundary. */
  lemma ReadOneChunk(s: Suite, mem: bytes, slot: nat, r: Rec, tag: bytes, i: nat)
    requires Lawful(s) && |mem| == FLASH_SIZE && slot < SLOTS && |r.data| <= MAX_CONTENTS && i < ChunkCount(|r.data|)
    requires ChunkStored(s, mem, slot, r, i)
    ensures var c, n := CursorAt(s, slot, r, tag, i), |Chunk(r.data, i)|;
            && OpenPiece(s, mem, c, n) == Some(Chunk(r.data, i))
            && Advance(mem, c, n) == CursorAt(s, slot, r, tag, i + 1)
  {
    hide Lawful, Aad, SealedChunk, StoredPiece, ChunkStored;
    ChunkSizes(s, slot, r, i);
    OpenStoredPiece(s, mem, slot, r, CursorAt(s, slot, r, tag, i), i, |Chunk(r.data, i)|);
    OpenSealed(s, slot, r, i);
    assert 256 * i / 256 == i;
  }

  lemma PieceIsChunk(data: bytes, i: nat, len: nat)
    requires len > 0 && 256 * i + len <= |data| && (len % 256 == 0 || 256 * i + len == |data|)
    ensures var n := if len > 256 then 256 else len;
            && i < ChunkCount(|data|) && Chunk(data, i) == data[256 * i..256 * i + n]
            && ChunkCount(len) == 1 + ChunkCount(len - n)
            && i + ChunkCount(len) <= ChunkCount(|data|)
            && ((len - n) % 256 == 0 || 256 * (i + 1) + (len - n) == |data|)
  {
    hide ChunkCount;
    ChunksAfter(i, |data| - 256 * i);
    MoreChunks(len, |data| - 256 * i);
    if len > 256 {
      ChunksAfter(1, len - 256);
      assert (len - 256) % 256 == len % 256;
    } else {
      OneChunk(len);
      NoChunks();
    }
  }

  lemma ChunksAfter(i: nat, n: nat)
    ensures ChunkCount(256 * i + n) == i + ChunkCount(n)
  {
  }

  lemma MoreChunks(m: nat, n: nat)
    requires 0 < m <= n
    ensures 0 < ChunkCount(m) <= ChunkCount(n)
  {
  }

  lemma OneChunk(n: nat)
    requires 0 < n <= 256
    ensures ChunkCount(n) == 1
  {
  }

  lemma NoChunks()
    ensures ChunkCount(0) == 0
  {
  }

  /** From a chunk boundary, reading up to the next boundary or to the end of the file returns
      exactly those bytes of the data, and leaves the cursor at the boundary it reached. */
  lemma {:induction false} ReadIntact(s: Suite, mem: bytes, slot: nat, r: Rec, tag: bytes, i: nat, len: nat)
    requires Lawful(s) && |mem| == FLASH_SIZE && slot < SLOTS && |r.data| <= MAX_CONTENTS
    requires BodyStored(s, mem, slot, r, ChunkCount(|r.data|))
    requires 256 * i + len <= |r.data| && (len % 256 == 0 || 256 * i + len == |r.data|)
    ensures ReadPieces(s, mem, CursorAt(s, slot, r, tag, i), len)
         == Some((r.data[256 * i..256 * i + len], CursorAt(s, slot, r, tag, i + ChunkCount(len))))
    decreases len
  {
    hide Lawful, Chunk, ChunkStored, OpenPiece, Advance, Tags, Aad, ChunkCount;
    NoChunks();
    if len == 0 {
      assert r.data[256 * i..256 * i + len] == [];
    } else {
      var n := if len > 256 then 256 else len;
      PieceIsChunk(r.data, i, len);
      ReadOneChunk(s, mem, slot, r, tag, i);
      if n < len {
        ReadIntact(s, mem, slot, r, tag, i + 1, len - n);
        assert 256 * (i + 1) == 256 * i + n && i + 1 + ChunkCount(len - n) == i + ChunkCount(len);
        assert r.data[256 * (i + 1)..256 * (i + 1) + (len - n)] == r.data[256 * i + n..256 * i + len];
      } else {
        assert ReadPieces(s, mem, CursorAt(s, slot, r, tag, i + 1), 0) == Some(([], CursorAt(s, slot, r, tag, i + 1)));
        assert r.data[256 * i + n..256 * i + len] == [];
      }
      assert |Chunk(r.data, i)| == n;
      assert ReadPieces(s, mem, Advance(mem, CursorAt(s, slot, r, tag, i), n), len - n)
          == Some((r.data[256 * i + n..256 * i + len], CursorAt(s, slot, r, tag, i + ChunkCount(len))));
      assert r.data[256 * i..256 * i + n] + r.data[256 * i + n..256 * i + len] == r.data[256 * i..256 * i + len];
    }
  }

  lemma OpenSealed(s: Suite, slot: nat, r: Rec, i: nat)
    requires Lawful(s) && i < ChunkCount(|r.data|)
    ensures s.open(s.chunkKey(s.fileKey(r.group), i), r.nonce, Aad(Proto(slot, r)), SealedChunk(s, slot, r, i)) == Some(Chunk(r.data, i))
  {
  }

  // ---- whole-slot reads ----

  lemma TornBytes(s: Suite, mem: bytes, slot: nat, r: Rec, j: nat)
    requires Lawful(s) && |mem| == FLASH_SIZE && slot < SLOTS && IsRec(r) && 2 <= j <= 12 && HeaderTorn(s, mem, slot, r, j)
    ensures var b, n := mem[SlotBase(slot)..SlotBase(slot) + 96], (if j < 8 then 8 * j else 60);
            && b[..n] == Aad(Proto(slot, r))[..n]
            && (j == 12 ==> b[60..92] == HeaderOf(s, slot, r).blobTag)
  {
    hide Aad, Proto, HeaderOf, Lawful;
    HeaderSize(s, slot, r);
    var h, n := HeaderOf(s, slot, r), (if j < 8 then 8 * j else 60);
    var b := mem[SlotBase(slot)..SlotBase(slot) + 96];
    assert |h.blobTag| == 32 by { TagSize(s, slot, r); }
    assert HeaderBytes(h)[..60] == Aad(h) && HeaderBytes(h)[60..92] == h.blobTag;
    forall i | 0 <= i < n
      ensures b[i] == Aad(h)[i]
    {
      assert mem[SlotBase(slot) + i] == HeaderBytes(h)[i];
    }
    if j == 12 {
      forall i | 60 <= i < 92
        ensures b[i] == HeaderBytes(h)[i]
      {
        assert mem[SlotBase(slot) + i] == HeaderBytes(h)[i];
      }
    }
  }

  lemma TagSize(s: Suite, slot: nat, r: Rec)
    requires Lawful(s)
    ensures |HeaderOf(s, slot, r).blobTag| == 32
  {
  }

  lemma OnesField()
    ensures Un([255, 255, 255, 255]) == 0xFFFF_FFFF
  {
    assert Un([255]) == 255;
    assert Un([255, 255]) == 0xFFFF;
    assert Un([255, 255, 255]) == 0xFF_FFFF by { assert [255, 255, 255][1..] == [255, 255]; }
    assert [255, 255, 255, 255][1..] == [255, 255, 255];
  }

  /** With at most one header word on flash no FAT entry can make the header acceptable. */
  lemma UnstartedUnreadable(s: Suite, mem: bytes, fat: seq<FatEntry>, slot: nat, r: Rec, j: nat)
    requires |mem| == FLASH_SIZE && IsFat(fat) && slot < SLOTS && j <= 1
    requires if j == 0 then HeaderBlank(mem, slot) else HeaderTorn(s, mem, slot, r, j)
    ensures LoadHeader(mem, fat, slot).Fail?
  {
    hide HeaderBytes, HeaderOf, Un;
    OnesField();
    var b := mem[SlotBase(slot)..SlotBase(slot) + 96];
    if j == 0 {
      assert b[..4] == [255, 255, 255, 255];
    } else {
      var h := HeaderBytes(HeaderOf(s, slot, r));
      assert mem[SlotBase(slot) + 8] == TornByte(h, j, 8) && mem[SlotBase(slot) + 9] == TornByte(h, j, 9);
      assert mem[SlotBase(slot) + 10] == TornByte(h, j, 10) && mem[SlotBase(slot) + 11] == TornByte(h, j, 11);
      assert b[8..12] == [255, 255, 255, 255];
    }
  }

  function TornHeader(s: Suite, slot: nat, r: Rec, j: nat): bytes {
    seq(96, i requires 0 <= i => TornByte(HeaderBytes(HeaderOf(s, slot, r)), j, i))
  }

  /** The AEAD accepts the first chunk of r under the nonce and AAD of a header of which only j
      words were written, although it was sealed under the complete ones. */
  ghost predicate Forged(s: Suite, slot: nat, r: Rec, j: nat)
    requires |r.data| > 0
  {
    var torn := TornHeader(s, slot, r, j);
    && torn[..60] != Aad(Proto(slot, r))
    && s.open(s.chunkKey(s.fileKey(r.group), 0), torn[48..60], torn[..60], SealedChunk(s, slot, r, 0)).Some?
  }

  /** One of the six header prefixes that end before the AAD does was accepted. */
  ghost predicate SomeForgery(s: Suite, slot: nat, r: Rec) {
    |r.data| > 0 && exists j :: 2 <= j < 8 && Forged(s, slot, r, j)
  }

  /** Once two header words are on flash, an accepted header names the length, the group and hence
      the key of the last write; the rest of its AAD may still be unwritten. */
  lemma TornCursor(s: Suite, mem: bytes, fat: seq<FatEntry>, slot: nat, r: Rec, j: nat, pin: Option<bytes>, mask: nat)
    requires Lawful(s) && |mem| == FLASH_SIZE && IsFat(fat) && slot < SLOTS && IsRec(r) && 2 <= j <= 12
    requires HeaderTorn(s, mem, slot, r, j) && OpenRead(s, mem, fat, slot, pin, mask).Done?
    ensures var c, b := OpenRead(s, mem, fat, slot, pin, mask).value, mem[SlotBase(slot)..SlotBase(slot) + 96];
            && c == Cursor(slot, 0, |r.data|, b[48..60], s.fileKey(r.group), b[..60], b[60..92], [])
            && (j >= 8 || b[..60] == Aad(Proto(slot, r)) ==> c == CursorAt(s, slot, r, b[60..92], 0))
  {
    hide Aad, Un, HeaderOf, HeaderBytes, HeaderTorn, Lawful, BitAnd, IsRec;
    var b, n := mem[SlotBase(slot)..SlotBase(slot) + 96], (if j < 8 then 8 * j else 60);
    TornBytes(s, mem, slot, r, j);
    AadOfParsed(b);
    ProtoIsHeader(slot, r);
    ParseFields(b, Proto(slot, r), n);
    assert Aad(Proto(slot, r))[..60] == Aad(Proto(slot, r));
    if b[..60] == Aad(Proto(slot, r)) {
      ParseFields(b, Proto(slot, r), 60);
    }
  }

  /** Whatever the FAT says, a successful read of a slot returns the last write's data in full; or
      the cut fell inside the first 64 bytes of the header and the AEAD accepted a forgery. */
  lemma ReadTorn(s: Suite, mem: bytes, fat: seq<FatEntry>, slot: nat, r: Rec, j: nat, pin: Option<bytes>, mask: nat, room: nat)
    requires Lawful(s) && |mem| == FLASH_SIZE && IsFat(fat) && slot < SLOTS && IsRec(r)
    requires SlotAt(s, mem, slot, r, j)
    ensures var got := ReadAll(s, mem, fat, slot, pin, mask, room);
            got.Done? ==> 2 <= j && (got.value == r.data || (j < 8 && |r.data| > 0 && Forged(s, slot, r, j)))
  {
    hide Aad, Proto, SealedChunk, HeaderTorn, TornHeader, HeaderBlank, Lawful, OpenRead, BodyStored, FinishRead, IsRec;
    if ReadAll(s, mem, fat, slot, pin, mask, room).Done? {
      if j <= 1 {
        UnstartedUnreadable(s, mem, fat, slot, r, j);
        OpenFails(s, mem, fat, slot, pin, mask);
      } else {
        TornCursor(s, mem, fat, slot, r, j, pin, mask);
        var b := mem[SlotBase(slot)..SlotBase(slot) + 96];
        if j >= 8 || b[..60] == Aad(Proto(slot, r)) {
          assert |r.data| <= MAX_CONTENTS;
          ReadIntact(s, mem, slot, r, b[60..92], 0, |r.data|);
          assert r.data[256 * 0..256 * 0 + |r.data|] == r.data;
        } else if |r.data| > 0 {
          TornOnFlash(s, mem, slot, r, j);
          FirstPieceForged(s, mem, slot, r, j, OpenRead(s, mem, fat, slot, pin, mask).value);
        }
      }
    }
  }

  lemma OpenFails(s: Suite, mem: bytes, fat: seq<FatEntry>, slot: nat, pin: Option<bytes>, mask: nat)
    requires |mem| == FLASH_SIZE && IsFat(fat) && LoadHeader(mem, fat, slot).Fail?
    ensures OpenRead(s, mem, fat, slot, pin, mask).Fail?
  {
  }

  lemma TornOnFlash(s: Suite, mem: bytes, slot: nat, r: Rec, j: nat)
    requires |mem| == FLASH_SIZE && slot < SLOTS && j <= 12 && HeaderTorn(s, mem, slot, r, j)
    ensures mem[SlotBase(slot)..SlotBase(slot) + 96] == TornHeader(s, slot, r, j)
  {
    hide HeaderBytes, HeaderOf;
  }

  lemma FirstPieceForged(s: Suite, mem: bytes, slot: nat, r: Rec, j: nat, c: Cursor)
    requires Lawful(s) && |mem| == FLASH_SIZE && slot < SLOTS && 0 < |r.data| <= MAX_CONTENTS && IsCursor(c)
    requires BodyStored(s, mem, slot, r, ChunkCount(|r.data|))
    requires c.slot == slot && c.processed == 0 && c.total == |r.data| && c.key == s.fileKey(r.group)
    requires c.aad == TornHeader(s, slot, r, j)[..60] && c.nonce == TornHeader(s, slot, r, j)[48..60]
    requires c.aad != Aad(Proto(slot, r)) && ReadPieces(s, mem, c, c.total).Some?
    ensures Forged(s, slot, r, j)
  {
    hide Aad, Proto, SealedChunk, StoredPiece, Lawful, HeaderBytes;
    var n := if |r.data| > 256 then 256 else |r.data|;
    ChunkSizes(s, slot, r, 0);
    assert ChunkStored(s, mem, slot, r, 0);
    OpenStoredPiece(s, mem, slot, r, c, 0, n);
    assert OpenPiece(s, mem, c, n).Some?;
  }

  /** The FAT entry leads to a record of that length in this slot, whatever its uuid. */
  predicate Leads(e: FatEntry, slot: nat, length: nat) {
    e.addr == SlotBase(slot) && e.length == 96 + length
  }

  /** With j header words written, the header bytes a reader depends on are those of r: the blob tag
      and, unless there is nothing to decrypt, the AAD. With all 12 they are. */
  ghost predicate HeaderReadable(s: Suite, slot: nat, r: Rec, j: nat) {
    var b := TornHeader(s, slot, r, j);
    b[60..92] == HeaderOf(s, slot, r).blobTag && (|r.data| > 0 ==> b[..60] == Aad(Proto(slot, r)))
  }

  /** Exactly when a slot in the middle of its last write already reads as that write. */
  lemma TornReadExact(s: Suite, mem: bytes, fat: seq<FatEntry>, slot: nat, r: Rec, j: nat, mask: nat, room: nat)
    requires Lawful(s) && |mem| == FLASH_SIZE && IsFat(fat) && slot < SLOTS && IsRec(r) && SlotAt(s, mem, slot, r, j)
    requires !SomeForgery(s, slot, r) && BitAnd(mask, r.group) != 0 && |r.data| <= room
    ensures ReadAll(s, mem, fat, slot, None, mask, room) == Done(r.data)
            <==> 2 <= j && Leads(fat[slot], slot, |r.data|) && HeaderReadable(s, slot, r, j)
  {
    hide Aad, Proto, HeaderTorn, HeaderBlank, Lawful, OpenRead, BodyStored, FinishRead, IsRec, HeaderOf, BitAnd, ReadAll, ReadPieces,
         SomeForgery, SealedChunk;
    if j <= 1 {
      UnstartedUnreadable(s, mem, fat, slot, r, j);
      OpenFails(s, mem, fat, slot, None, mask);
      ReadFailsToOpen(s, mem, fat, slot, None, mask, room);
    } else {
      TornOpens(s, mem, fat, slot, r, j, mask);
      if Leads(fat[slot], slot, |r.data|) {
        TornCursor(s, mem, fat, slot, r, j, None, mask);
        TornPieces(s, mem, fat, slot, r, j, mask, room);
      } else {
        ReadFailsToOpen(s, mem, fat, slot, None, mask, room);
      }
    }
  }

  lemma ReadFailsToOpen(s: Suite, mem: bytes, fat: seq<FatEntry>, slot: nat, pin: Option<bytes>, mask: nat, room: nat)
    requires |mem| == FLASH_SIZE && IsFat(fat) && OpenRead(s, mem, fat, slot, pin, mask).Fail?
    ensures ReadAll(s, mem, fat, slot, pin, mask, room).Fail?
  {
    hide OpenRead;
  }

  lemma TornOpens(s: Suite, mem: bytes, fat: seq<FatEntry>, slot: nat, r: Rec, j: nat, mask: nat)
    requires Lawful(s) && |mem| == FLASH_SIZE && IsFat(fat) && slot < SLOTS && IsRec(r) && 2 <= j <= 12
    requires |r.data| <= MAX_CONTENTS && HeaderTorn(s, mem, slot, r, j) && BitAnd(mask, r.group) != 0
    ensures OpenRead(s, mem, fat, slot, None, mask).Done? <==> Leads(fat[slot], slot, |r.data|)
  {
    hide Aad, Un, HeaderOf, HeaderBytes, HeaderTorn, Lawful, BitAnd;
    var b, n := mem[SlotBase(slot)..SlotBase(slot) + 96], (if j < 8 then 8 * j else 60);
    TornBytes(s, mem, slot, r, j);
    ProtoIsHeader(slot, r);
    ParseFields(b, Proto(slot, r), n);
  }

  /** The pieces of a slot whose FAT entry leads to its torn record. */
  lemma TornPieces(s: Suite, mem: bytes, fat: seq<FatEntry>, slot: nat, r: Rec, j: nat, mask: nat, room: nat)
    requires Lawful(s) && |mem| == FLASH_SIZE && IsFat(fat) && slot < SLOTS && IsRec(r) && SlotAt(s, mem, slot, r, j) && 2 <= j
    requires !SomeForgery(s, slot, r) && |r.data| <= room
    requires OpenRead(s, mem, fat, slot, None, mask).Done?
    requires var c, b := OpenRead(s, mem, fat, slot, None, mask).value, mem[SlotBase(slot)..SlotBase(slot) + 96];
             && c == Cursor(slot, 0, |r.data|, b[48..60], s.fileKey(r.group), b[..60], b[60..92], [])
             && (j >= 8 || b[..60] == Aad(Proto(slot, r)) ==> c == CursorAt(s, slot, r, b[60..92], 0))
    ensures ReadAll(s, mem, fat, slot, None, mask, room) == Done(r.data) <==> HeaderReadable(s, slot, r, j)
  {
    hide Aad, Proto, HeaderTorn, HeaderBlank, Lawful, OpenRead, BodyStored, IsRec, SealedChunk, TornHeader;
    TornOnFlash(s, mem, slot, r, j);
    var c, b := OpenRead(s, mem, fat, slot, None, mask).value, mem[SlotBase(slot)..SlotBase(slot) + 96];
    if j >= 8 || b[..60] == Aad(Proto(slot, r)) {
      ReadIntact(s, mem, slot, r, b[60..92], 0, |r.data|);
      assert r.data[256 * 0..256 * 0 + |r.data|] == r.data;
    } else if |r.data| > 0 && ReadPieces(s, mem, c, c.total).Some? {
      FirstPieceForged(s, mem, slot, r, j, c);
    }
  }

  /** The exact answer from a completely written slot whose FAT entry is in place. */
  lemma ReadComplete(s: Suite, mem: bytes, fat: seq<FatEntry>, slot: nat, r: Rec, pin: Option<bytes>, mask: nat, room: nat)
    requires Lawful(s) && |mem| == FLASH_SIZE && IsFat(fat) && slot < SLOTS && IsRec(r)
    requires SlotAt(s, mem, slot, r, 12) && fat[slot] == EntryOf(slot, r)
    ensures OpenRead(s, mem, fat, slot, pin, mask)
         == if BitAnd(mask, r.group) == 0 || (pin.Some? && pin.value != r.owner) then Fail(PermissionDenied)
            else Done(CursorAt(s, slot, r, HeaderOf(s, slot, r).blobTag, 0))
    ensures ReadAll(s, mem, fat, slot, pin, mask, room)
         == if BitAnd(mask, r.group) == 0 || (pin.Some? && pin.value != r.owner) then Fail(PermissionDenied)
            else if room < |r.data| then Fail(BadLen)
            else Done(r.data)
  {
    hide Lawful, Aad, BodyStored, HeaderTorn, BitAnd, OpenRead;
    var tag := HeaderOf(s, slot, r).blobTag;
    OpenComplete(s, mem, fat, slot, r, pin, mask);
    ReadIntact(s, mem, slot, r, tag, 0, |r.data|);
    assert r.data[256 * 0..256 * 0 + |r.data|] == r.data;
  }

  lemma OpenComplete(s: Suite, mem: bytes, fat: seq<FatEntry>, slot: nat, r: Rec, pin: Option<bytes>, mask: nat)
    requires Lawful(s) && |mem| == FLASH_SIZE && IsFat(fat) && slot < SLOTS && IsRec(r)
    requires HeaderTorn(s, mem, slot, r, 12) && fat[slot] == EntryOf(slot, r)
    ensures OpenRead(s, mem, fat, slot, pin, mask)
         == if BitAnd(mask, r.group) == 0 || (pin.Some? && pin.value != r.owner) then Fail(PermissionDenied)
            else Done(CursorAt(s, slot, r, HeaderOf(s, slot, r).blobTag, 0))
  {
    hide Aad, Un, HeaderOf, HeaderBytes, HeaderTorn, Lawful, BitAnd;
    var b := mem[SlotBase(slot)..SlotBase(slot) + 96];
    TornBytes(s, mem, slot, r, 12);
    assert Aad(Proto(slot, r))[..60] == Aad(Proto(slot, r)) by { ProtoIsHeader(slot, r); }
    AadOfParsed(b);
    ProtoIsHeader(slot, r);
    ParseFields(b, Proto(slot, r), 60);
  }
}
