/** The on-flash format of the blob store (secure_blob_store.c): slot layout, header, FAT page, and
    the exact sequence of flash commands that a write and a delete issue. */
module BlobModel {
  import opened Bytes
  import opened Flash
  import opened Wrappers

  // ---- layout ----

  const SLOTS: nat := 8
  const FAT_ADDR: nat := 0x3A000
  const EMPTY: nat := 0xFFFF_FFFF
  const MAGIC: nat := 0x53425331
  const AUTO_SLOT: nat := 0xFF

  // Offsets within a 12288-byte slot: header at 0, ciphertext at 96, tags at 11776.

  function SlotBase(slot: nat): nat {
    0x22000 + 12288 * slot
  }

  function CipherAddr(slot: nat, i: nat): nat {
    SlotBase(slot) + 96 + 256 * i
  }

  function TagAddr(slot: nat, i: nat): nat {
    SlotBase(slot) + 11776 + 16 * i
  }

  /** The largest plaintext that blob_write accepts, and the largest that leaves room for its tags. */
  const MAX_ACCEPTED: nat := 11680
  const MAX_CONTENTS: nat := 8192

  // ---- cryptography, as the store sees it ----

  datatype Sealed = Sealed(text: bytes, tag: bytes)

  /** The derivations and the AEAD that the store calls; open answers None when the tag is wrong. */
  datatype Suite = Suite(
    fileKey: nat -> bytes,
    chunkKey: (bytes, nat) -> bytes,
    seal: (bytes, bytes, bytes, bytes) -> Sealed,
    open: (bytes, bytes, bytes, Sealed) -> Option<bytes>,
    blobTag: (bytes, bytes) -> bytes)

  /** Opening undoes sealing, and the sizes are those of AES-GCM and HMAC-SHA-256. */
  ghost predicate Lawful(s: Suite) {
    && (forall k, n, a, p :: |s.seal(k, n, a, p).text| == |p| && |s.seal(k, n, a, p).tag| == 16)
    && (forall k, n, a, p :: s.open(k, n, a, s.seal(k, n, a, p)) == Some(p))
    && (forall k, n, a, c :: s.open(k, n, a, c).Some? ==> |s.open(k, n, a, c).value| == |c.text|)
    && (forall k, t :: |s.blobTag(k, t)| == 32)
  }

  // ---- records ----

  /** What one blob_write stores: its arguments and the nonce it drew. */
  datatype Rec = Rec(data: bytes, uuid: bytes, owner: bytes, group: nat, nonce: bytes)

  predicate IsRec(r: Rec) {
    |r.data| <= MAX_ACCEPTED && |r.uuid| == 16 && |r.owner| == 32 && r.group < 0x1_0000 && |r.nonce| == 12
  }

  datatype Header = Header(magic: nat, version: nat, slot: nat, len: nat, group: nat,
                           owner: bytes, nonce: bytes, blobTag: bytes)

  /** The 60 authenticated bytes, which are also the first 60 bytes of the header struct. */
  function Aad(h: Header): bytes {
    Le(h.magic, 4) + Le(h.version, 2) + Le(h.slot, 2) + Le(h.len, 4) + Le(h.group, 4) + h.owner + h.nonce
  }

  function HeaderBytes(h: Header): bytes {
    Aad(h) + h.blobTag + Fill(255, 4)
  }

  function ParseHeader(b: bytes): Header
    requires |b| == 96
  {
    Header(Un(b[..4]), Un(b[4..6]), Un(b[6..8]), Un(b[8..12]), Un(b[12..16]), b[16..48], b[48..60], b[60..92])
  }

  function Proto(slot: nat, r: Rec): Header {
    Header(MAGIC, 1, slot, |r.data|, r.group, r.owner, r.nonce, Fill(255, 32))
  }

  function ChunkCount(n: nat): nat {
    (n + 255) / 256
  }

  function Chunk(data: bytes, i: nat): bytes
    requires i < ChunkCount(|data|)
  {
    data[256 * i..if 256 * i + 256 < |data| then 256 * i + 256 else |data|]
  }

  function SealedChunk(s: Suite, slot: nat, r: Rec, i: nat): Sealed
    requires i < ChunkCount(|r.data|)
  {
    s.seal(s.chunkKey(s.fileKey(r.group), i), r.nonce, Aad(Proto(slot, r)), Chunk(r.data, i))
  }

  /** The tags of the first n chunks, in order: what the running digest has absorbed. */
  function Tags(s: Suite, slot: nat, r: Rec, n: nat): bytes
    requires n <= ChunkCount(|r.data|)
  {
    if n == 0 then [] else Tags(s, slot, r, n - 1) + SealedChunk(s, slot, r, n - 1).tag
  }

  function HeaderOf(s: Suite, slot: nat, r: Rec): Header {
    Proto(slot, r).(blobTag := s.blobTag(s.fileKey(r.group), Tags(s, slot, r, ChunkCount(|r.data|))))
  }

  // ---- the FAT ----

  datatype FatEntry = FatEntry(uuid: bytes, length: nat, padding: nat, addr: nat)

  predicate IsEntry(e: FatEntry) {
    |e.uuid| == 16 && e.length < 0x1_0000 && e.padding < 0x1_0000 && e.addr < 0x1_0000_0000
  }

  predicate IsFat(fat: seq<FatEntry>) {
    |fat| == SLOTS && forall i :: 0 <= i < SLOTS ==> IsEntry(fat[i])
  }

  const ERASED_ENTRY: FatEntry := FatEntry(Fill(255, 16), 0xFFFF, 0xFFFF, EMPTY)

  function EntryOf(slot: nat, r: Rec): FatEntry {
    FatEntry(r.uuid, 96 + |r.data|, 0, SlotBase(slot))
  }

  function EntryBytes(e: FatEntry): bytes {
    e.uuid + Le(e.length, 2) + Le(e.padding, 2) + Le(e.addr, 4)
  }

  function ParseEntry(b: bytes): FatEntry
    requires |b| == 24
  {
    FatEntry(b[..16], Un(b[16..18]), Un(b[18..20]), Un(b[20..24]))
  }

  function FatBytes(fat: seq<FatEntry>): bytes {
    if fat == [] then [] else FatBytes(fat[..|fat| - 1]) + EntryBytes(fat[|fat| - 1])
  }

  function FatPage(fat: seq<FatEntry>): bytes
    requires IsFat(fat)
  {
    FatBytes(fat) + Fill(255, 832)
  }

  function FatOn(mem: bytes): seq<FatEntry>
    requires |mem| == FLASH_SIZE
  {
    seq(SLOTS, i requires 0 <= i < SLOTS => ParseEntry(mem[FAT_ADDR + 24 * i..FAT_ADDR + 24 * i + 24]))
  }

  // ---- flash commands ----

  function EraseOps(slot: nat): (ops: seq<Op>)
    ensures |ops| == 12
  {
    seq(12, i requires 0 <= i => Erase(SlotBase(slot) + 1024 * i))
  }

  function ChunkOps(s: Suite, slot: nat, r: Rec, i: nat): seq<Op>
    requires i < ChunkCount(|r.data|)
  {
    Programs(CipherAddr(slot, i), SealedChunk(s, slot, r, i).text)
    + Programs(TagAddr(slot, i), SealedChunk(s, slot, r, i).tag)
  }

  function BodyOps(s: Suite, slot: nat, r: Rec, n: nat): seq<Op>
    requires n <= ChunkCount(|r.data|)
  {
    if n == 0 then [] else BodyOps(s, slot, r, n - 1) + ChunkOps(s, slot, r, n - 1)
  }

  function HeaderOps(s: Suite, slot: nat, r: Rec): seq<Op> {
    Programs(SlotBase(slot), HeaderBytes(HeaderOf(s, slot, r)))
  }

  /** Erase, ciphertext and tags chunk by chunk, then the header: everything before the FAT. */
  function RecordOps(s: Suite, slot: nat, r: Rec): seq<Op> {
    EraseOps(slot) + BodyOps(s, slot, r, ChunkCount(|r.data|)) + HeaderOps(s, slot, r)
  }

  /** How every one-page table is rewritten: erase the page, then program all of it in order. */
  function PageOps(page: nat, data: bytes): seq<Op> {
    [Erase(page)] + Programs(page, data)
  }

  function FatOps(fat: seq<FatEntry>): seq<Op>
    requires IsFat(fat)
  {
    PageOps(FAT_ADDR, FatPage(fat))
  }

  function WriteOps(s: Suite, fat: seq<FatEntry>, slot: nat, r: Rec): seq<Op>
    requires IsFat(fat) && slot < SLOTS && IsRec(r)
  {
    RecordOps(s, slot, r) + FatOps(fat[slot := EntryOf(slot, r)])
  }

  function DeleteOps(fat: seq<FatEntry>, slot: nat): seq<Op>
    requires IsFat(fat) && slot < SLOTS
  {
    EraseOps(slot) + FatOps(fat[slot := ERASED_ENTRY])
  }

  // ---- reading ----

  datatype Status =
    | Good | InvalidArgument | InvalidSlot | StorageFull | NotFound | PermissionDenied
    | IoError | CryptoError | Corrupt | BadLen

  datatype Outcome<+T> = Done(value: T) | Fail(status: Status)

  function LoadHeader(mem: bytes, fat: seq<FatEntry>, slot: nat): (o: Outcome<Header>)
    requires |mem| == FLASH_SIZE && IsFat(fat)
    ensures o != Fail(Good)
    ensures o.Done? ==> slot < SLOTS && |o.value.nonce| == 12 && |o.value.owner| == 32 && o.value.len <= 12192
  {
    if slot >= SLOTS then Fail(InvalidArgument)
    else if fat[slot].addr == EMPTY then Fail(NotFound)
    else if fat[slot].addr != SlotBase(slot) || fat[slot].length < 96 || fat[slot].length > 12288 then Fail(Corrupt)
    else
      var h := ParseHeader(mem[SlotBase(slot)..SlotBase(slot) + 96]);
      if h.magic != MAGIC || h.version != 1 || h.slot != slot || h.len > 12288 - 96 || fat[slot].length != 96 + h.len
      then Fail(Corrupt)
      else Done(h)
  }

  /** The streaming read state: everything blob_read_init leaves behind. */
  datatype Cursor = Cursor(slot: nat, processed: nat, total: nat, nonce: bytes, key: bytes, aad: bytes,
                           expected: bytes, tags: bytes)

  predicate IsCursor(c: Cursor) {
    c.slot < SLOTS && c.processed <= c.total <= 12192
  }

  function OpenRead(s: Suite, mem: bytes, fat: seq<FatEntry>, slot: nat, pin: Option<bytes>, mask: nat): (o: Outcome<Cursor>)
    requires |mem| == FLASH_SIZE && IsFat(fat)
    ensures o != Fail(Good)
    ensures o.Done? ==> IsCursor(o.value) && o.value.slot == slot && o.value.processed == 0 && o.value.tags == []
  {
    match LoadHeader(mem, fat, slot)
    case Fail(e) => Fail(e)
    case Done(h) =>
      if BitAnd(mask, h.group) == 0 then Fail(PermissionDenied)
      else if pin.Some? && pin.value != h.owner then Fail(PermissionDenied)
      else if h.group > 0xFFFF then Fail(CryptoError)
      else Done(Cursor(slot, 0, h.len, h.nonce, s.fileKey(h.group), Aad(h), h.blobTag, []))
  }

  /** What lies on flash for the piece of n bytes at the cursor. */
  function StoredPiece(mem: bytes, c: Cursor, n: nat): Sealed
    requires |mem| == FLASH_SIZE && IsCursor(c) && c.processed + n <= c.total && n <= 256
  {
    var i := c.processed / 256;
    Sealed(mem[SlotBase(c.slot) + 96 + c.processed..SlotBase(c.slot) + 96 + c.processed + n],
           mem[TagAddr(c.slot, i)..TagAddr(c.slot, i) + 16])
  }

  function Advance(mem: bytes, c: Cursor, n: nat): Cursor
    requires |mem| == FLASH_SIZE && IsCursor(c) && c.processed + n <= c.total && n <= 256
  {
    c.(processed := c.processed + n, tags := c.tags + StoredPiece(mem, c, n).tag)
  }

  function OpenPiece(s: Suite, mem: bytes, c: Cursor, n: nat): Option<bytes>
    requires |mem| == FLASH_SIZE && IsCursor(c) && c.processed + n <= c.total && n <= 256
  {
    s.open(s.chunkKey(c.key, c.processed / 256), c.nonce, c.aad, StoredPiece(mem, c, n))
  }

  /** Decrypt the next len bytes in pieces of up to 256; None as soon as one tag is wrong. */
  function ReadPieces(s: Suite, mem: bytes, c: Cursor, len: nat): (o: Option<(bytes, Cursor)>)
    requires |mem| == FLASH_SIZE && IsCursor(c) && c.processed + len <= c.total
    ensures o.Some? ==> IsCursor(o.value.1) && o.value.1.total == c.total && o.value.1.processed == c.processed + len
    decreases len
  {
    if len == 0 then Some(([], c))
    else
      var n := if len > 256 then 256 else len;
      match OpenPiece(s, mem, c, n)
      case None => None
      case Some(p) =>
        match ReadPieces(s, mem, Advance(mem, c, n), len - n)
        case None => None
        case Some((rest, end)) => Some((p + rest, end))
  }

  predicate FinishRead(s: Suite, c: Cursor) {
    s.blobTag(c.key, c.tags) == c.expected
  }

  /** blob_read_all with a PIN hash, blob_read_all_group_mask without one. */
  function ReadAll(s: Suite, mem: bytes, fat: seq<FatEntry>, slot: nat, pin: Option<bytes>, mask: nat, room: nat): (o: Outcome<bytes>)
    requires |mem| == FLASH_SIZE && IsFat(fat)
    ensures o != Fail(Good)
  {
    match OpenRead(s, mem, fat, slot, pin, mask)
    case Fail(e) => Fail(e)
    case Done(c) =>
      if room < c.total then Fail(BadLen)
      else
        match ReadPieces(s, mem, c, c.total)
        case None => Fail(CryptoError)
        case Some((data, end)) => if FinishRead(s, end) then Done(data) else Fail(CryptoError)
  }
}
