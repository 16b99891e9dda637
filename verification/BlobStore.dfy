/** secure_blob_store.c: the store that erases, encrypts, programs and commits records, and the
    streaming reader. The methods are proved against the command sequences and the reader of
    BlobModel; what those guarantee is proved in BlobRuns and BlobTheorems. */
module BlobStore {
  import opened Bytes
  import opened Flash
  import opened FlashDevice
  import opened BlobModel
  import opened BlobFlash
  import opened BlobRead
  import opened BlobRuns
  import opened BlobTheorems
  import opened Wrappers

  /** memcpy(dst + at, src, |src|) */
  method CopyInto(dst: array<byte>, at: nat, src: bytes)
    requires at + |src| <= dst.Length
    modifies dst
    ensures dst[..] == old(dst[..])[..at] + src + old(dst[..])[at + |src|..]
  {
    forall i | 0 <= i < |src| {
      dst[at + i] := src[i];
    }
  }

  /** The same, as a buffer that is filled from the front sees it. */
  method AppendAt(dst: array<byte>, at: nat, src: bytes) returns (next: nat)
    requires at + |src| <= dst.Length
    modifies dst
    ensures next == at + |src| && dst[..next] == old(dst[..at]) + src
  {
    CopyInto(dst, at, src);
    next := at + |src|;
  }

  /** memset(dst, v, sizeof(dst)) */
  method FillArray(dst: array<byte>, v: byte)
    modifies dst
    ensures dst[..] == Fill(v, dst.Length)
  {
    forall i | 0 <= i < dst.Length {
      dst[i] := v;
    }
  }

  lemma ScratchIsPage(was: bytes, now: bytes, fat: seq<FatEntry>, slot: nat, entry: FatEntry)
    requires IsFat(fat) && slot < SLOTS && IsEntry(entry) && |was| == 1024 && |EntryBytes(entry)| == 24
    requires was[192..] == Fill(255, 832)
    requires forall k :: 0 <= k < SLOTS ==> was[24 * k..24 * k + 24] == EntryBytes(fat[k])
    requires now == was[..24 * slot] + EntryBytes(entry) + was[24 * slot + 24..]
    ensures now == FatPage(fat[slot := entry])
  {
    hide EntryBytes, FatBytes;
    var table := fat[slot := entry];
    assert now[192..] == was[192..];
    forall k | 0 <= k < SLOTS
      ensures now[..192][24 * k..24 * k + 24] == EntryBytes(table[k])
    {
      assert now[..192][24 * k..24 * k + 24] == now[24 * k..24 * k + 24];
      if k == slot {
        assert now[24 * k..24 * k + 24] == EntryBytes(entry);
      } else {
        assert now[24 * k..24 * k + 24] == was[24 * k..24 * k + 24];
      }
    }
    FatBytesFromEntries(now[..192], table);
    assert now == now[..192] + now[192..];
  }

  lemma EntryCopied(was: bytes, now: bytes, i: nat, entry: bytes)
    requires |was| == 1024 && i < SLOTS && |entry| == 24
    requires now == was[..24 * i] + entry + was[24 * i + 24..]
    ensures now[192..] == was[192..] && now[24 * i..24 * i + 24] == entry
    ensures forall k :: 0 <= k < i ==> now[24 * k..24 * k + 24] == was[24 * k..24 * k + 24]
  {
  }

  lemma {:induction false} FatBytesFromEntries(b: bytes, fat: seq<FatEntry>)
    requires |b| == 24 * |fat| && forall i :: 0 <= i < |fat| ==> |fat[i].uuid| == 16
    requires forall i :: 0 <= i < |fat| ==> b[24 * i..24 * i + 24] == EntryBytes(fat[i])
    ensures b == FatBytes(fat)
    decreases |fat|
  {
    hide EntryBytes;
    if fat != [] {
      var n := |fat| - 1;
      var front := b[..24 * n];
      forall i | 0 <= i < n
        ensures front[24 * i..24 * i + 24] == EntryBytes(fat[..n][i])
      {
        assert front[24 * i..24 * i + 24] == b[24 * i..24 * i + 24];
      }
      FatBytesFromEntries(front, fat[..n]);
      assert b == front + b[24 * n..24 * n + 24];
    }
  }

  class Store {
    const flash: Device
    const s: Suite
    const fat: array<FatEntry>
    const scratchPage: array<byte>
    const chunkBuffer: array<byte>
    const aad: array<byte>

    // The streaming read state; the running tag digest is held as the tags it absorbed.
    var addr: nat
    var processed: nat
    var total: nat
    var nonce: bytes
    var key: bytes
    var expected: bytes
    var tags: bytes

    /** Per slot, the record of the last write that began erasing it. */
    ghost var last: seq<Option<Rec>>

    ghost predicate Valid()
      reads this, flash, flash.mem, fat, scratchPage, chunkBuffer, aad
    {
      && flash.Valid() && Lawful(s)
      && fat.Length == SLOTS && IsFat(fat[..]) && |last| == SLOTS
      && scratchPage.Length == 1024 && chunkBuffer.Length == 256 && aad.Length == 60
      && scratchPage != chunkBuffer && scratchPage != aad && chunkBuffer != aad
      && flash.mem != scratchPage && flash.mem != chunkBuffer && flash.mem != aad
    }

    ghost function Abs(): Sys
      reads this, flash, flash.mem, fat
    {
      Sys(flash.View(), fat[..], last)
    }

    /** Power-up and blob_store_init: the RAM table is read from the FAT page; the ghost history of
        the slots carries over. */
    constructor (device: Device, suite: Suite, ghost history: seq<Option<Rec>>)
      requires device.Valid() && Lawful(suite) && |history| == SLOTS
      ensures Valid() && flash == device && s == suite
      ensures Abs() == Sys(device.View(), FatOn(device.View().mem), history)
      ensures fresh(fat) && fresh(scratchPage) && fresh(chunkBuffer) && fresh(aad)
    {
      flash, s := device, suite;
      var mem := device.mem[..];
      fat := new FatEntry[SLOTS](i requires 0 <= i < SLOTS && |mem| == FLASH_SIZE => FatOn(mem)[i]);
      scratchPage := new byte[1024](_ => 0);
      chunkBuffer := new byte[256](_ => 0);
      aad := new byte[60](_ => 0);
      addr, processed, total := 0, 0, 0;
      nonce, key, expected, tags := [], [], [], [];
      last := history;
      new;
      FatOnIsFat(mem);
      assert fat[..] == FatOn(mem);
    }

    /** slot_is_empty */
    predicate IsEmpty(slot: nat)
      requires fat.Length == SLOTS && slot < SLOTS
      reads fat
    {
      fat[slot].addr == EMPTY
    }

    /** find_write_slot: the slot asked for, or the lowest empty one. */
    method FindWriteSlot(requested: nat) returns (status: Status, slot: nat)
      requires Valid()
      ensures slot == Resolved(fat[..], requested)
      ensures status == if requested != AUTO_SLOT then (if requested < SLOTS then Good else InvalidSlot)
                        else (if slot < SLOTS then Good else StorageFull)
    {
      if requested != AUTO_SLOT {
        return (if requested < SLOTS then Good else InvalidSlot), requested;
      }
      slot := 0;
      while slot < SLOTS
        invariant 0 <= slot <= SLOTS
        invariant FirstEmpty(fat[..], 0) == FirstEmpty(fat[..], slot)
      {
        if IsEmpty(slot) {
          return Good, slot;
        }
        slot := slot + 1;
      }
      return StorageFull, slot;
    }

    /** build_aad */
    method BuildAad(h: Header)
      requires aad.Length == 60 && |h.owner| == 32 && |h.nonce| == 12
      modifies aad
      ensures aad[..] == Aad(h)
    {
      hide Le, Valid;
      var at := AppendAt(aad, 0, Le(h.magic, 4));
      at := AppendAt(aad, at, Le(h.version, 2));
      at := AppendAt(aad, at, Le(h.slot, 2));
      at := AppendAt(aad, at, Le(h.len, 4));
      at := AppendAt(aad, at, Le(h.group, 4));
      at := AppendAt(aad, at, h.owner);
      at := AppendAt(aad, at, h.nonce);
    }

    /** erase_slot_pages */
    method EraseSlotPages(slot: nat) returns (ok: bool)
      requires Valid() && slot < SLOTS
      modifies flash`clean, flash`log, flash.mem
      ensures Valid() && (flash.reliable ==> ok)
      ensures Extends(old(flash.log), flash.log, EraseOps(slot), ok)
    {
      hide InRange, Lawful, IsFat;
      var i := 0;
      while i < 12
        invariant 0 <= i <= 12 && Valid()
        invariant Extends(old(flash.log), flash.log, EraseOps(slot)[..i], true)
      {
        ghost var before := flash.log;
        EraseWithin(slot);
        assert EraseOps(slot)[i] == Erase(SlotBase(slot) + 1024 * i);
        ok := flash.ErasePage(SlotBase(slot) + 1024 * i);
        NextOp(old(flash.log), before, flash.log, EraseOps(slot), i, ok);
        if !ok {
          return;
        }
        i := i + 1;
      }
      assert EraseOps(slot)[..i] == EraseOps(slot);
      return true;
    }

    /** The page image commit_fat_entry programs: the RAM table with one entry replaced. */
    method FillScratch(slot: nat, entry: FatEntry)
      requires Valid() && slot < SLOTS && IsEntry(entry)
      modifies scratchPage
      ensures scratchPage[..] == FatPage(fat[..][slot := entry])
    {
      hide EntryBytes, FatBytes, Lawful, InRange;
      FillArray(scratchPage, 255);
      var i := 0;
      while i < SLOTS
        invariant 0 <= i <= SLOTS
        invariant forall k :: 0 <= k < i ==> scratchPage[..][24 * k..24 * k + 24] == EntryBytes(fat[k])
        invariant scratchPage[..][192..] == Fill(255, 832)
      {
        EntrySize(fat[i]);
        ghost var was := scratchPage[..];
        CopyInto(scratchPage, 24 * i, EntryBytes(fat[i]));
        EntryCopied(was, scratchPage[..], i, EntryBytes(fat[i]));
        i := i + 1;
      }
      EntrySize(entry);
      ghost var was := scratchPage[..];
      CopyInto(scratchPage, 24 * slot, EntryBytes(entry));
      ScratchIsPage(was, scratchPage[..], fat[..], slot, entry);
    }

    /** commit_fat_entry: erase and rewrite the whole FAT page, then update the RAM table. */
    method CommitFatEntry(slot: nat, entry: FatEntry) returns (ok: bool)
      requires Valid() && slot < SLOTS && IsEntry(entry)
      modifies flash`clean, flash`log, flash.mem, fat, scratchPage
      ensures Valid() && (flash.reliable ==> ok)
      ensures Extends(old(flash.log), flash.log, FatOps(old(fat[..])[slot := entry]), ok)
      ensures fat[..] == if ok then old(fat[..])[slot := entry] else old(fat[..])
    {
      hide FatPage, Programs, Lawful, Extends, InRange;
      ghost var table := fat[..][slot := entry];
      FatWithin(table);
      FillScratch(slot, entry);
      PageInRange(FAT_ADDR);
      ok := flash.ErasePage(FAT_ADDR);
      ghost var mid := flash.log;
      if !ok {
        ExtendsStop(old(flash.log), mid, [Erase(FAT_ADDR)], Programs(FAT_ADDR, FatPage(table)));
        return;
      }
      ok := flash.Write(FAT_ADDR, scratchPage[..]);
      ExtendsThen(old(flash.log), mid, flash.log, [Erase(FAT_ADDR)], Programs(FAT_ADDR, FatPage(table)), ok);
      if ok {
        fat[slot] := entry;
        assert fat[..] == table;
      }
    }

    /** Encrypt one chunk into g_chunk_buffer, then program it and its tag. */
    method WriteChunk(slot: nat, masterKey: bytes, nonce: bytes, chunk: bytes, i: nat, ghost r: Rec) returns (ok: bool, tag: bytes)
      requires Valid() && slot < SLOTS && IsRec(r) && i < ChunkCount(|r.data|)
      requires masterKey == s.fileKey(r.group) && nonce == r.nonce && chunk == Chunk(r.data, i)
      requires aad[..] == Aad(Proto(slot, r))
      modifies flash`clean, flash`log, flash.mem, chunkBuffer
      ensures Valid() && (flash.reliable ==> ok)
      ensures Extends(old(flash.log), flash.log, ChunkOps(s, slot, r, i), ok)
      ensures tag == SealedChunk(s, slot, r, i).tag
    {
      hide Aad, Proto, Programs, Extends, IsFat, InRange;
      var chunkKey := s.chunkKey(masterKey, i);
      var sealed := s.seal(chunkKey, nonce, aad[..], chunk);
      assert sealed == SealedChunk(s, slot, r, i);
      ChunkSizes(s, slot, r, i);
      CopyInto(chunkBuffer, 0, sealed.text);
      tag := sealed.tag;
      assert chunkBuffer[..|chunk|] == sealed.text;
      ok := flash.Write(SlotBase(slot) + 96 + 256 * i, chunkBuffer[..|chunk|]);
      ghost var mid := flash.log;
      if !ok {
        ExtendsStop(old(flash.log), mid, Programs(CipherAddr(slot, i), sealed.text), Programs(TagAddr(slot, i), sealed.tag));
        return;
      }
      ok := flash.Write(SlotBase(slot) + 11776 + 16 * i, tag);
      ExtendsThen(old(flash.log), mid, flash.log, Programs(CipherAddr(slot, i), sealed.text), Programs(TagAddr(slot, i), sealed.tag), ok);
    }

    /** The chunk loop of blob_write; the tags stand for the running digest that absorbs them. */
    method WriteBody(slot: nat, masterKey: bytes, nonce: bytes, data: bytes, ghost r: Rec) returns (ok: bool, absorbed: bytes)
      requires Valid() && slot < SLOTS && IsRec(r) && data == r.data
      requires masterKey == s.fileKey(r.group) && nonce == r.nonce && aad[..] == Aad(Proto(slot, r))
      modifies flash`clean, flash`log, flash.mem, chunkBuffer
      ensures Valid() && (flash.reliable ==> ok)
      ensures Extends(old(flash.log), flash.log, BodyOps(s, slot, r, ChunkCount(|data|)), ok)
      ensures ok ==> absorbed == Tags(s, slot, r, ChunkCount(|data|))
    {
      hide Aad, Proto, ChunkOps, Extends, IsFat, InRange, Lawful, SealedChunk;
      var done, i := 0, 0;
      absorbed := [];
      ghost var start := flash.log;
      NoExtension(start);
      while done < |data|
        invariant 0 <= i <= ChunkCount(|data|)
        invariant done == if 256 * i < |data| then 256 * i else |data|
        invariant Valid() && aad[..] == Aad(Proto(slot, r))
        invariant Extends(start, flash.log, BodyOps(s, slot, r, i), true)
        invariant absorbed == Tags(s, slot, r, i)
      {
        var n := if |data| - done > 256 then 256 else |data| - done;
        ghost var before := flash.log;
        var tag;
        ok, tag := WriteChunk(slot, masterKey, nonce, data[done..done + n], i, r);
        ExtendsThen(start, before, flash.log, BodyOps(s, slot, r, i), ChunkOps(s, slot, r, i), ok);
        absorbed := absorbed + tag;
        if !ok {
          BodyStop(start, flash.log, s, slot, r, i + 1, ChunkCount(|data|));
          return;
        }
        done := done + n;
        i := i + 1;
      }
      return true, absorbed;
    }

    /** Everything blob_write does from erase_slot_pages on. */
    method WriteRecord(slot: nat, r: Rec) returns (ok: bool)
      requires Valid() && slot < SLOTS && IsRec(r)
      modifies flash`clean, flash`log, flash.mem, fat, scratchPage, chunkBuffer, aad
      ensures Valid() && (flash.reliable ==> ok)
      ensures Extends(old(flash.log), flash.log, WriteOps(s, old(fat[..]), slot, r), ok)
      ensures fat[..] == if ok then old(fat[..])[slot := EntryOf(slot, r)] else old(fat[..])
    {
      hide Aad, EraseOps, BodyOps, FatOps, Programs, HeaderBytes, Extends, Lawful, IsRec, InRange, IsFat, EntryOf;
      ghost var start, table := flash.log, fat[..][slot := EntryOf(slot, r)];
      ghost var n := ChunkCount(|r.data|);
      ghost var e, b, h := EraseOps(slot), BodyOps(s, slot, r, n), HeaderOps(s, slot, r);
      EntryOfIsEntry(slot, r);
      RecSizes(r);
      WriteInRange(s, fat[..], slot, r);
      BuildAad(Proto(slot, r));
      ok := EraseSlotPages(slot);
      ghost var erased := flash.log;
      if !ok {
        ExtendsStop(start, erased, e, b + h + FatOps(table));
        assert e + (b + h + FatOps(table)) == WriteOps(s, fat[..], slot, r);
        return;
      }
      var absorbed;
      var masterKey := s.fileKey(r.group);
      ok, absorbed := WriteBody(slot, masterKey, r.nonce, r.data, r);
      ghost var body := flash.log;
      ExtendsThen(start, erased, body, e, b, ok);
      if !ok {
        ExtendsStop(start, body, e + b, h + FatOps(table));
        assert (e + b) + (h + FatOps(table)) == WriteOps(s, fat[..], slot, r);
        return;
      }
      var header := Proto(slot, r).(blobTag := s.blobTag(masterKey, absorbed));
      HeaderSize(s, slot, r);
      ok := flash.Write(SlotBase(slot), HeaderBytes(header));
      ghost var headed := flash.log;
      ExtendsThen(start, body, headed, e + b, h, ok);
      if !ok {
        ExtendsStop(start, headed, e + b + h, FatOps(table));
        return;
      }
      ok := CommitFatEntry(slot, EntryOf(slot, r));
      ExtendsThen(start, headed, flash.log, e + b + h, FatOps(table), ok);
    }

    method WriteAdmitted(slot: nat, r: Rec) returns (status: Status)
      requires Valid() && slot < SLOTS && IsRec(r)
      modifies flash`clean, flash`log, flash.mem, fat, scratchPage, chunkBuffer, aad, `last
      ensures Valid() && status in {Good, IoError} && (flash.reliable ==> status == Good)
      ensures WroteRecord(s, old(Abs()), old(flash.log), Abs(), flash.log, slot, r, status == Good)
    {
      hide WriteOps, Extends, Lawful, InRange, IsFat, IsRec, EntryOf, Run;
      ghost var before := Abs();
      var ok := WriteRecord(slot, r);
      last := if |flash.log| > |old(flash.log)| then last[slot := Some(r)] else last;
      status := if ok then Good else IoError;
      WriteInRange(s, before.fat, slot, r);
      LogGrowth(flash.origin, old(flash.log), flash.log, WriteOps(s, before.fat, slot, r), ok);
    }

    /** blob_write, with the nonce the TRNG delivers as a parameter. */
    method Write(requested: nat, data: bytes, uuid: bytes, owner: bytes, group: nat, nonce: bytes)
      returns (status: Status, ghost slot: nat)
      requires Valid() && |uuid| == 16 && |owner| == 32 && |nonce| == 12
      modifies flash`clean, flash`log, flash.mem, fat, scratchPage, chunkBuffer, aad, `last
      ensures Valid()
      ensures var admitted := Admission(old(fat[..]), requested, |data|, group);
              && (admitted != Good ==> status == admitted && Abs() == old(Abs()) && flash.log == old(flash.log))
              && (admitted == Good ==>
                    && slot == Resolved(old(fat[..]), requested)
                    && status in {Good, IoError} && (flash.reliable ==> status == Good)
                    && WroteRecord(s, old(Abs()), old(flash.log), Abs(), flash.log, slot, Rec(data, uuid, owner, group, nonce), status == Good))
    {
      hide WroteRecord, Lawful, InRange, IsFat, Run;
      slot := 0;
      if |data| > 11776 - 96 {
        return InvalidArgument, 0;
      }
      var found, resolved := FindWriteSlot(requested);
      slot := resolved;
      if found != Good {
        return found, slot;
      }
      if group > 0xFFFF {
        return CryptoError, slot;
      }
      status := WriteAdmitted(resolved, Rec(data, uuid, owner, group, nonce));
    }

    /** Everything blob_delete does from erase_slot_pages on. */
    method DeleteRecord(slot: nat) returns (ok: bool)
      requires Valid() && slot < SLOTS
      modifies flash`clean, flash`log, flash.mem, fat, scratchPage
      ensures Valid() && (flash.reliable ==> ok)
      ensures Extends(old(flash.log), flash.log, DeleteOps(old(fat[..]), slot), ok)
      ensures fat[..] == if ok then old(fat[..])[slot := ERASED_ENTRY] else old(fat[..])
    {
      hide EraseOps, FatOps, Extends, Lawful, InRange, AllInRange, IsFat, Run;
      DeleteInRange(fat[..], slot);
      ErasedIsEntry();
      ghost var start, tail := flash.log, FatOps(fat[..][slot := ERASED_ENTRY]);
      ok := EraseSlotPages(slot);
      ghost var mid := flash.log;
      if ok {
        ok := CommitFatEntry(slot, ERASED_ENTRY);
        ExtendsThen(start, mid, flash.log, EraseOps(slot), tail, ok);
      } else {
        ExtendsStop(start, mid, EraseOps(slot), tail);
      }
    }

    /** blob_delete */
    method Delete(slot: nat) returns (status: Status)
      requires Valid()
      modifies flash`clean, flash`log, flash.mem, fat, scratchPage, `last
      ensures Valid()
      ensures slot >= SLOTS ==> status == InvalidSlot && Abs() == old(Abs())
      ensures slot < SLOTS && old(fat[slot].addr) == EMPTY ==> status == NotFound && Abs() == old(Abs())
      ensures slot < SLOTS && old(fat[slot].addr) != EMPTY ==>
                && status in {Good, IoError} && (flash.reliable ==> status == Good)
                && DeletedRecord(s, old(Abs()), old(flash.log), Abs(), flash.log, slot, status == Good)
    {
      hide DeleteOps, Extends, Lawful, InRange, IsFat;
      if slot >= SLOTS {
        return InvalidSlot;
      }
      if IsEmpty(slot) {
        return NotFound;
      }
      ghost var before, start := Abs(), flash.log;
      DeleteInRange(fat[..], slot);
      var ok := DeleteRecord(slot);
      last := if |flash.log| > |start| then last[slot := None] else last;
      status := if ok then Good else IoError;
      LogGrowth(flash.origin, start, flash.log, DeleteOps(before.fat, slot), ok);
    }

    // ---- streaming reads ----

    /** blob_read_chunk's slot_idx, recomputed from the data address of the open record. */
    function OpenSlot(): nat
      reads `addr
    {
      SlotOf(addr)
    }

    ghost function Reading(): Cursor
      reads this, aad
    {
      Cursor(OpenSlot(), processed, total, nonce, key, aad[..], expected, tags)
    }

    ghost predicate ReadOpen()
      reads this, aad
    {
      IsCursor(Reading()) && addr == SlotBase(OpenSlot()) + 96
    }

    /** load_header */
    method FetchHeader(slot: nat) returns (o: Outcome<Header>)
      requires Valid()
      ensures o == LoadHeader(flash.View().mem, fat[..], slot)
    {
      hide ParseHeader, Lawful, InRange;
      if slot >= SLOTS {
        return Fail(InvalidArgument);
      }
      if IsEmpty(slot) {
        return Fail(NotFound);
      }
      var entry := fat[slot];
      if entry.addr != SlotBase(slot) || entry.length < 96 || entry.length > 12288 {
        return Fail(Corrupt);
      }
      var b := flash.Read(entry.addr, 96);
      var h := ParseHeader(b);
      if h.magic != MAGIC || h.version != 1 || h.slot != slot || h.len > 12288 - 96 || entry.length != 96 + h.len {
        return Fail(Corrupt);
      }
      return Done(h);
    }

    /** blob_read_init_internal; a PIN hash is required exactly when one is given. */
    method ReadInit(slot: nat, pin: Option<bytes>, mask: nat) returns (status: Status, len: nat)
      requires Valid()
      modifies aad, `addr, `processed, `total, `nonce, `key, `expected, `tags
      ensures Valid() && Abs() == old(Abs())
      ensures match OpenRead(s, flash.View().mem, fat[..], slot, pin, mask)
              case Fail(e) => status == e
              case Done(c) => status == Good && ReadOpen() && Reading() == c && len == c.total
    {
      hide Aad, LoadHeader, Lawful, InRange, BitAnd, Run, AllInRange, IsFat, FatOn, Store.ReadOpen, Store.Reading;
      var o := FetchHeader(slot);
      if o.Fail? {
        return o.status, 0;
      }
      var h := o.value;
      if BitAnd(mask, h.group) == 0 {
        return PermissionDenied, 0;
      }
      if pin.Some? && pin.value != h.owner {
        return PermissionDenied, 0;
      }
      if h.group > 0xFFFF {
        return CryptoError, 0;
      }
      Position(slot, h);
      return Good, h.len;
    }

    /** The read state at the start of a record. */
    method Position(slot: nat, h: Header)
      requires Valid() && slot < SLOTS && |h.owner| == 32 && |h.nonce| == 12 && h.len <= 12192
      modifies aad, `addr, `processed, `total, `nonce, `key, `expected, `tags
      ensures Valid() && Abs() == old(Abs())
      ensures ReadOpen() && Reading() == Cursor(slot, 0, h.len, h.nonce, s.fileKey(h.group), Aad(h), h.blobTag, [])
    {
      hide Aad, Lawful, InRange, Run, AllInRange, IsFat, FatOn, SlotOf, SlotBase;
      BuildAad(h);
      key := s.fileKey(h.group);
      addr := SlotBase(slot) + 96;
      processed := 0;
      total := h.len;
      nonce, expected, tags := h.nonce, h.blobTag, [];
      SlotOfData(slot);
    }

    /** blob_read_chunk into out[at..at + len]. */
    method ReadChunk(out: array<byte>, at: nat, len: nat) returns (status: Status)
      requires Valid() && ReadOpen() && at + len <= out.Length
      requires out != aad && out != chunkBuffer && out != flash.mem && out != scratchPage
      modifies out, chunkBuffer, `processed, `tags
      ensures Valid() && Abs() == old(Abs())
      ensures out[..at] == old(out[..at]) && out[at + len..] == old(out[at + len..])
      ensures old(processed) + len > old(total) ==> status == InvalidArgument && out[..] == old(out[..]) && Reading() == old(Reading())
      ensures old(processed) + len <= old(total) ==>
                match ReadPieces(s, flash.View().mem, old(Reading()), len)
                case None => status == CryptoError
                case Some((data, end)) => status == Good && ReadOpen() && Reading() == end && out[at..at + len] == data
    {
      hide Lawful, InRange, AllInRange, Run, IsFat, OpenPiece, Advance, ReadPieces, Prepend, FatOn, SlotOf, SlotBase, IsChip;
      if processed + len > total {
        return InvalidArgument;
      }
      ghost var mem, start := flash.View().mem, Reading();
      PrependNothing(ReadPieces(s, mem, start, len));
      var done := 0;
      assert out[at..at + done] == [];
      while done < len
        invariant 0 <= done <= len && Valid() && Abs() == old(Abs()) && ReadOpen()
        invariant processed + (len - done) <= total
        invariant out[..at] == old(out[..at]) && out[at + len..] == old(out[at + len..])
        invariant ReadPieces(s, mem, start, len) == Prepend(out[at..at + done], ReadPieces(s, mem, Reading(), len - done))
      {
        var n := if len - done > 256 then 256 else len - done;
        ghost var before := Reading();
        PieceRead(s, mem, before, len - done, out[at..at + done]);
        ghost var was := out[..];
        status := PieceInto(out, at + done, n);
        if status != Good {
          return;
        }
        ghost var piece := OpenPiece(s, mem, before, n).value;
        PieceCopied(was, out[..], at, len, done, piece);
        done := done + n;
      }
      AllRead(s, mem, Reading(), out[at..at + len]);
      return Good;
    }

    /** The next piece, into out[at..at + n]. */
    method PieceInto(out: array<byte>, at: nat, n: nat) returns (status: Status)
      requires Valid() && ReadOpen() && processed + n <= total && n <= 256 && at + n <= out.Length
      requires out != aad && out != chunkBuffer && out != flash.mem && out != scratchPage
      modifies out, chunkBuffer, `processed, `tags
      ensures Valid() && Abs() == old(Abs()) && ReadOpen()
      ensures match OpenPiece(s, flash.View().mem, old(Reading()), n)
              case None => status == CryptoError && out[..] == old(out[..])
              case Some(piece) =>
                && status == Good && |piece| == n && Reading() == Advance(flash.View().mem, old(Reading()), n)
                && out[..] == old(out[..at]) + piece + old(out[at + n..])
    {
      hide Lawful, InRange, AllInRange, Run, IsFat, OpenPiece, Advance, FatOn;
      var piece := NextPiece(n);
      if piece.None? {
        return CryptoError;
      }
      CopyInto(out, at, piece.value);
      return Good;
    }

    /** Read the next ciphertext chunk through g_chunk_buffer, and its tag. */
    method FetchPiece(n: nat) returns (stored: Sealed)
      requires Valid() && ReadOpen() && processed + n <= total && n <= 256
      modifies chunkBuffer
      ensures Valid() && ReadOpen() && Reading() == old(Reading())
      ensures stored == StoredPiece(flash.View().mem, Reading(), n) && |stored.text| == n
    {
      hide InRange, AllInRange, Run, IsFat, FatOn, Lawful, SlotOf, SlotBase, TagAddr;
      PieceInside(Reading(), n);
      var text := flash.Read(addr + processed, n);
      CopyInto(chunkBuffer, 0, text);
      assert chunkBuffer[..n] == text;
      var tag := flash.Read(TagAddr(OpenSlot(), processed / 256), 16);
      return Sealed(chunkBuffer[..n], tag);
    }

    /** One pass of the chunk loop: read the ciphertext and its tag, absorb the tag, decrypt. */
    method NextPiece(n: nat) returns (piece: Option<bytes>)
      requires Valid() && ReadOpen() && processed + n <= total && n <= 256
      modifies chunkBuffer, `processed, `tags
      ensures Valid() && Abs() == old(Abs()) && ReadOpen()
      ensures piece == OpenPiece(s, flash.View().mem, old(Reading()), n)
      ensures var next := Advance(flash.View().mem, old(Reading()), n);
              Reading() == if piece.Some? then next else next.(processed := old(processed))
      ensures piece.Some? ==> |piece.value| == n
    {
      hide InRange, AllInRange, Run, IsFat, FatOn, StoredPiece, Lawful;
      var chunkKey := s.chunkKey(key, processed / 256);
      var stored := FetchPiece(n);
      tags := tags + stored.tag;
      piece := s.open(chunkKey, nonce, aad[..], stored);
      if piece.None? {
        return;
      }
      OpenedSize(s, chunkKey, nonce, aad[..], stored);
      processed := processed + n;
    }

    /** blob_read_finish */
    method ReadFinish() returns (status: Status)
      requires Valid() && ReadOpen()
      modifies `key
      ensures Valid() && Abs() == old(Abs())
      ensures status == if FinishRead(s, old(Reading())) then Good else CryptoError
    {
      var actual := s.blobTag(key, tags);
      key := Fill(0, 32);
      return if actual == expected then Good else CryptoError;
    }

    /** blob_read_all (pin given) and blob_read_all_group_mask (no pin), into out[at..]. */
    method Read(slot: nat, pin: Option<bytes>, mask: nat, out: array<byte>, at: nat, room: nat) returns (status: Status, len: nat)
      requires Valid() && at + room <= out.Length
      requires out != aad && out != chunkBuffer && out != flash.mem && out != scratchPage
      modifies out, aad, chunkBuffer, `addr, `processed, `total, `nonce, `key, `expected, `tags
      ensures Valid() && Abs() == old(Abs())
      ensures out[..at] == old(out[..at])
      ensures match ReadAll(s, flash.View().mem, fat[..], slot, pin, mask, room)
              case Fail(e) => status == e
              case Done(data) => status == Good && len == |data| && at + len <= out.Length && out[at..at + len] == data
      ensures match OpenRead(s, flash.View().mem, fat[..], slot, pin, mask)
              case Fail(_) => out[..] == old(out[..])
              case Done(c) =>
                if room < c.total then status == BadLen && len == c.total && out[..] == old(out[..])
                else
                  && out[at + c.total..] == old(out[at + c.total..])
                  && (match ReadPieces(s, flash.View().mem, c, c.total)
                      case None => status == CryptoError
                      case Some((_, end)) => !FinishRead(s, end) ==> status == CryptoError && out[at..at + c.total] == Fill(0, c.total))
    {
      hide Lawful, InRange, AllInRange, OpenRead, FinishRead, Run, IsFat, OpenPiece, Advance;
      status, len := ReadInit(slot, pin, mask);
      if status != Good {
        return;
      }
      if room < len {
        return BadLen, len;
      }
      ghost var c, mem := Reading(), flash.View().mem;
      PiecesSize(s, mem, c, len);
      if len > 0 {
        status := ReadChunk(out, at, len);
        if status != Good {
          return;
        }
      }
      ghost var data := out[at..at + len];
      status := ReadFinish();
      if status != Good {
        forall i | at <= i < at + len {
          out[i] := 0;
        }
      }
    }
  }

  lemma PieceInside(c: Cursor, n: nat)
    requires IsCursor(c) && c.processed + n <= c.total
    ensures SlotBase(c.slot) + 96 + c.processed + n <= FLASH_SIZE && TagAddr(c.slot, c.processed / 256) + 16 <= FLASH_SIZE
  {
  }

  function SlotOf(addr: nat): nat {
    if addr < 0x22000 then 0 else (addr - 0x22000) / 12288
  }

  lemma SlotOfData(slot: nat)
    ensures SlotOf(SlotBase(slot) + 96) == slot
  {
  }

  lemma PiecesStep(s: Suite, mem: bytes, c: Cursor, len: nat)
    requires |mem| == FLASH_SIZE && IsCursor(c) && c.processed + len <= c.total && len > 0
    ensures var n := if len > 256 then 256 else len;
            && IsCursor(Advance(mem, c, n)) && Advance(mem, c, n).total == c.total && Advance(mem, c, n).processed == c.processed + n
            && ReadPieces(s, mem, c, len)
            == (if OpenPiece(s, mem, c, n).None? then None
                else Prepend(OpenPiece(s, mem, c, n).value, ReadPieces(s, mem, Advance(mem, c, n), len - n)))
  {
    hide OpenPiece;
  }

  /** The same, with what has been read before. */
  lemma PieceRead(s: Suite, mem: bytes, c: Cursor, len: nat, got: bytes)
    requires |mem| == FLASH_SIZE && IsCursor(c) && c.processed + len <= c.total && len > 0
    ensures var n := if len > 256 then 256 else len;
            var piece, next := OpenPiece(s, mem, c, n), Advance(mem, c, n);
            && IsCursor(next) && next.total == c.total && next.processed == c.processed + n
            && Prepend(got, ReadPieces(s, mem, c, len))
            == (if piece.None? then None else Prepend(got + piece.value, ReadPieces(s, mem, next, len - n)))
  {
    hide OpenPiece, ReadPieces, Advance;
    var n := if len > 256 then 256 else len;
    PiecesStep(s, mem, c, len);
    if OpenPiece(s, mem, c, n).Some? {
      PrependTwice(got, OpenPiece(s, mem, c, n).value, ReadPieces(s, mem, Advance(mem, c, n), len - n));
    }
  }

  /** Nothing is left to read. */
  lemma AllRead(s: Suite, mem: bytes, c: Cursor, got: bytes)
    requires |mem| == FLASH_SIZE && IsCursor(c)
    ensures Prepend(got, ReadPieces(s, mem, c, 0)) == Some((got, c))
  {
    assert got + [] == got;
  }

  lemma OpenedSize(s: Suite, k: bytes, n: bytes, a: bytes, c: Sealed)
    requires Lawful(s)
    ensures s.open(k, n, a, c).Some? ==> |s.open(k, n, a, c).value| == |c.text|
  {
  }

  lemma PieceCopied(was: bytes, now: bytes, at: nat, len: nat, done: nat, piece: bytes)
    requires at + len <= |was| && done + |piece| <= len
    requires now == was[..at + done] + piece + was[at + done + |piece|..]
    ensures now[..at] == was[..at] && now[at + len..] == was[at + len..]
    ensures now[at..at + done + |piece|] == was[at..at + done] + piece
  {
  }

  function Prepend(p: bytes, rest: Option<(bytes, Cursor)>): Option<(bytes, Cursor)> {
    match rest
    case None => None
    case Some((d, c)) => Some((p + d, c))
  }

  lemma PrependNothing(rest: Option<(bytes, Cursor)>)
    ensures Prepend([], rest) == rest
  {
    if rest.Some? {
      assert [] + rest.value.0 == rest.value.0;
    }
  }

  lemma PrependTwice(p: bytes, q: bytes, rest: Option<(bytes, Cursor)>)
    ensures Prepend(p, Prepend(q, rest)) == Prepend(p + q, rest)
  {
    if rest.Some? {
      assert p + (q + rest.value.0) == (p + q) + rest.value.0;
    }
  }

  /** The checks of blob_write that come before any flash command, in order. */
  function Admission(fat: seq<FatEntry>, requested: nat, len: nat, group: nat): Status
    requires |fat| == SLOTS
  {
    if len > MAX_ACCEPTED then InvalidArgument
    else if requested != AUTO_SLOT && requested >= SLOTS then InvalidSlot
    else if requested == AUTO_SLOT && Resolved(fat, requested) == SLOTS then StorageFull
    else if group > 0xFFFF then CryptoError
    else Good
  }

  /** The slot a write goes to; SLOTS when an automatic slot is asked for and none is empty. */
  function Resolved(fat: seq<FatEntry>, requested: nat): nat {
    if requested != AUTO_SLOT then requested else FirstEmpty(fat, 0)
  }

  function FirstEmpty(fat: seq<FatEntry>, from: nat): (t: nat)
    requires from <= |fat|
    ensures from <= t <= |fat| && (t < |fat| ==> fat[t].addr == EMPTY)
    ensures forall k :: from <= k < t ==> fat[k].addr != EMPTY
    decreases |fat| - from
  {
    if from == |fat| || fat[from].addr == EMPTY then from else FirstEmpty(fat, from + 1)
  }

  /** A write that issued the commands between two logs: the abstract state it leaves, and for
      contents of at most 8192 bytes, the step of the run model that it is. */
  ghost predicate WroteRecord(s: Suite, before: Sys, log: seq<Op>, after: Sys, log': seq<Op>, slot: nat, r: Rec, ok: bool) {
    && IsSys(before) && IsSys(after) && slot < SLOTS && IsRec(r) && Lawful(s)
    && Extends(log, log', WriteOps(s, before.fat, slot, r), ok)
    && AllInRange(WriteOps(s, before.fat, slot, r))
    && after == Sys(Run(before.chip, WriteOps(s, before.fat, slot, r)[..|log'| - |log|]),
                    if ok then before.fat[slot := EntryOf(slot, r)] else before.fat,
                    if |log'| > |log| then before.last[slot := Some(r)] else before.last)
  }

  ghost predicate DeletedRecord(s: Suite, before: Sys, log: seq<Op>, after: Sys, log': seq<Op>, slot: nat, ok: bool) {
    && IsSys(before) && IsSys(after) && slot < SLOTS
    && Extends(log, log', DeleteOps(before.fat, slot), ok)
    && AllInRange(DeleteOps(before.fat, slot))
    && after == Sys(Run(before.chip, DeleteOps(before.fat, slot)[..|log'| - |log|]),
                    if ok then before.fat[slot := ERASED_ENTRY] else before.fat,
                    if |log'| > |log| then before.last[slot := None] else before.last)
  }

  /** The methods step the run model: everything proved about runs holds of the code. */
  lemma WriteIsStep(s: Suite, before: Sys, log: seq<Op>, after: Sys, log': seq<Op>, slot: nat, r: Rec, ok: bool)
    requires WroteRecord(s, before, log, after, log', slot, r, ok) && |r.data| <= MAX_CONTENTS
    ensures var e := Event.Write(slot, r, |log'| - |log|);
            && Enabled(s, before, e) && after == Next(s, before, e)
            && (ok <==> Uncut(s, before, e))
  {
    hide WriteOps, Run;
  }

  lemma DeleteIsStep(s: Suite, before: Sys, log: seq<Op>, after: Sys, log': seq<Op>, slot: nat, ok: bool)
    requires Lawful(s) && DeletedRecord(s, before, log, after, log', slot, ok) && before.fat[slot].addr != EMPTY
    ensures var e := Event.Delete(slot, |log'| - |log|);
            && Enabled(s, before, e) && after == Next(s, before, e)
            && (ok <==> Uncut(s, before, e))
  {
    hide DeleteOps, Run;
  }

  lemma LogGrowth(origin: Chip, log: seq<Op>, log': seq<Op>, ops: seq<Op>, ok: bool)
    requires IsChip(origin) && AllInRange(log) && AllInRange(ops) && Extends(log, log', ops, ok)
    ensures AllInRange(log') && Run(origin, log') == Run(Run(origin, log), ops[..|log'| - |log|])
  {
    RunConcat(origin, log, ops[..|log'| - |log|]);
  }

  lemma NoExtension(log: seq<Op>)
    ensures Extends(log, log, [], true)
  {
  }

  lemma {:induction false} BodyStop(start: seq<Op>, log: seq<Op>, s: Suite, slot: nat, r: Rec, i: nat, n: nat)
    requires i <= n <= ChunkCount(|r.data|) && Extends(start, log, BodyOps(s, slot, r, i), false)
    ensures Extends(start, log, BodyOps(s, slot, r, n), false)
    decreases n - i
  {
    hide ChunkOps, Extends;
    if i < n {
      ExtendsStop(start, log, BodyOps(s, slot, r, i), ChunkOps(s, slot, r, i));
      BodyStop(start, log, s, slot, r, i + 1, n);
    }
  }

  lemma RecSizes(r: Rec)
    requires IsRec(r)
    ensures |r.owner| == 32 && |r.nonce| == 12 && |r.data| <= MAX_ACCEPTED
  {
  }

  lemma ErasedIsEntry()
    ensures IsEntry(ERASED_ENTRY)
  {
  }

  lemma PageInRange(page: nat)
    requires page % 1024 == 0 && page + 1024 <= FLASH_SIZE
    ensures InRange(Erase(page))
  {
  }

  lemma EntrySize(e: FatEntry)
    requires IsEntry(e)
    ensures |EntryBytes(e)| == 24
  {
  }

  lemma NextOp(start: seq<Op>, before: seq<Op>, after: seq<Op>, all: seq<Op>, i: nat, ok: bool)
    requires i < |all| && Extends(start, before, all[..i], true) && Extends(before, after, [all[i]], ok)
    ensures ok ==> Extends(start, after, all[..i + 1], true)
    ensures !ok ==> Extends(start, after, all, false)
  {
    ExtendsThen(start, before, after, all[..i], [all[i]], ok);
    assert all[..i] + [all[i]] == all[..i + 1];
    if !ok {
      ExtendsStop(start, after, all[..i + 1], all[i + 1..]);
      assert all[..i + 1] + all[i + 1..] == all;
    }
  }
}
