/** What the command sequences of the blob store do to flash: where they program, that they obey
    the write-once rule, and what each prefix of a write leaves behind. */
module BlobFlash {
  import opened Bytes
  import opened Flash
  import opened BlobModel

  predicate Within(op: Op, lo: nat, hi: nat) {
    match op
    case Erase(a) => lo <= a && a + 1024 <= hi
    case Program(a, _) => lo <= a && a + 8 <= hi
  }

  ghost predicate AllWithin(ops: seq<Op>, lo: nat, hi: nat) {
    forall i :: 0 <= i < |ops| ==> Within(ops[i], lo, hi)
  }

  // ---- confinement ----

  lemma ProgramsWithin(addr: nat, data: bytes, lo: nat, hi: nat)
    requires lo <= addr && addr + 8 * WordCount(|data|) <= hi
    ensures AllWithin(Programs(addr, data), lo, hi)
  {
  }

  lemma EraseWithin(slot: nat)
    requires slot < SLOTS
    ensures AllInRange(EraseOps(slot))
    ensures AllWithin(EraseOps(slot), SlotBase(slot), SlotBase(slot) + 12288)
  {
    forall i | 0 <= i < 12
      ensures InRange(EraseOps(slot)[i])
    {
      assert SlotBase(slot) + 1024 * i == 1024 * (136 + 12 * slot + i);
    }
  }

  lemma ChunkWithin(s: Suite, slot: nat, r: Rec, i: nat)
    requires Lawful(s) && slot < SLOTS && IsRec(r) && i < ChunkCount(|r.data|)
    ensures AllInRange(ChunkOps(s, slot, r, i))
    ensures i < 32 ==> AllWithin(ChunkOps(s, slot, r, i), SlotBase(slot) + 96, SlotBase(slot) + 12288)
  {
    hide Programs, Lawful, SealedChunk, InRange, Within;
    var c := SealedChunk(s, slot, r, i);
    ChunkSizes(s, slot, r, i);
    ProgramsInRange(CipherAddr(slot, i), c.text);
    ProgramsInRange(TagAddr(slot, i), c.tag);
    if i < 32 {
      ProgramsWithin(CipherAddr(slot, i), c.text, SlotBase(slot) + 96, SlotBase(slot) + 12288);
      ProgramsWithin(TagAddr(slot, i), c.tag, SlotBase(slot) + 96, SlotBase(slot) + 12288);
    }
  }

  lemma {:induction false} BodyWithin(s: Suite, slot: nat, r: Rec, n: nat)
    requires Lawful(s) && slot < SLOTS && IsRec(r) && n <= ChunkCount(|r.data|)
    ensures AllInRange(BodyOps(s, slot, r, n))
    ensures n <= 32 ==> AllWithin(BodyOps(s, slot, r, n), SlotBase(slot) + 96, SlotBase(slot) + 12288)
  {
    hide Lawful, IsRec, ChunkOps, InRange, Within;
    if n > 0 {
      BodyWithin(s, slot, r, n - 1);
      ChunkWithin(s, slot, r, n - 1);
    }
  }

  lemma HeaderSize(s: Suite, slot: nat, r: Rec)
    requires Lawful(s) && IsRec(r)
    ensures |HeaderBytes(HeaderOf(s, slot, r))| == 96
    ensures |Aad(Proto(slot, r))| == 60 && Aad(HeaderOf(s, slot, r)) == Aad(Proto(slot, r))
  {
  }

  lemma HeaderWithin(s: Suite, slot: nat, r: Rec)
    requires Lawful(s) && slot < SLOTS && IsRec(r)
    ensures AllInRange(HeaderOps(s, slot, r)) && |HeaderOps(s, slot, r)| == 12
    ensures AllWithin(HeaderOps(s, slot, r), SlotBase(slot), SlotBase(slot) + 96)
  {
    HeaderSize(s, slot, r);
    ProgramsInRange(SlotBase(slot), HeaderBytes(HeaderOf(s, slot, r)));
  }

  lemma RecordInRange(s: Suite, slot: nat, r: Rec)
    requires Lawful(s) && slot < SLOTS && IsRec(r)
    ensures AllInRange(RecordOps(s, slot, r))
  {
    EraseWithin(slot);
    BodyWithin(s, slot, r, ChunkCount(|r.data|));
    HeaderWithin(s, slot, r);
  }

  /** The chunk of a 33rd tag is programmed at the very end of the slot, outside it. */
  lemma {:induction false} TagOutside(s: Suite, slot: nat, r: Rec, n: nat) returns (k: nat)
    requires Lawful(s) && slot < SLOTS && IsRec(r) && 32 < n <= ChunkCount(|r.data|)
    ensures k < |BodyOps(s, slot, r, n)|
    ensures !Within(BodyOps(s, slot, r, n)[k], SlotBase(slot), SlotBase(slot) + 12288)
  {
    var front, c := BodyOps(s, slot, r, n - 1), SealedChunk(s, slot, r, n - 1);
    var texts := Programs(CipherAddr(slot, n - 1), c.text);
    var tags := Programs(TagAddr(slot, n - 1), c.tag);
    assert |c.tag| == 16;
    k := |front| + |texts|;
    assert BodyOps(s, slot, r, n)[k] == tags[0];
  }

  /** A record is written entirely inside its own slot if and only if its contents fit the
      8192-byte limit; blob_write itself accepts up to 11680 bytes. */
  lemma RecordConfined(s: Suite, slot: nat, r: Rec)
    requires Lawful(s) && slot < SLOTS && IsRec(r)
    ensures AllWithin(RecordOps(s, slot, r), SlotBase(slot), SlotBase(slot) + 12288) <==> |r.data| <= MAX_CONTENTS
  {
    var n := ChunkCount(|r.data|);
    var e, b, h := EraseOps(slot), BodyOps(s, slot, r, n), HeaderOps(s, slot, r);
    EraseWithin(slot);
    BodyWithin(s, slot, r, n);
    HeaderWithin(s, slot, r);
    if |r.data| > MAX_CONTENTS {
      var k := TagOutside(s, slot, r, n);
      assert RecordOps(s, slot, r)[|e| + k] == b[k];
    }
  }

  lemma {:induction false} FatBytesSize(fat: seq<FatEntry>)
    requires forall i :: 0 <= i < |fat| ==> |fat[i].uuid| == 16
    ensures |FatBytes(fat)| == 24 * |fat|
    decreases |fat|
  {
    if fat != [] {
      FatBytesSize(fat[..|fat| - 1]);
    }
  }

  lemma PageWithin(page: nat, data: bytes)
    requires page % 1024 == 0 && page + 1024 <= FLASH_SIZE && |data| == 1024
    ensures |PageOps(page, data)| == 129
    ensures AllInRange(PageOps(page, data)) && AllWithin(PageOps(page, data), page, page + 1024)
  {
    ProgramsInRange(page, data);
    ProgramsWithin(page, data, page, page + 1024);
  }

  lemma FatWithin(fat: seq<FatEntry>)
    requires IsFat(fat)
    ensures |FatPage(fat)| == 1024 && |FatOps(fat)| == 129
    ensures AllInRange(FatOps(fat)) && AllWithin(FatOps(fat), FAT_ADDR, FAT_ADDR + 1024)
  {
    FatBytesSize(fat);
    PageWithin(FAT_ADDR, FatPage(fat));
  }

  lemma EntryOfIsEntry(slot: nat, r: Rec)
    requires slot < SLOTS && IsRec(r)
    ensures IsEntry(EntryOf(slot, r)) && EntryOf(slot, r).addr != EMPTY
  {
  }

  lemma WriteInRange(s: Suite, fat: seq<FatEntry>, slot: nat, r: Rec)
    requires Lawful(s) && IsFat(fat) && slot < SLOTS && IsRec(r)
    ensures IsFat(fat[slot := EntryOf(slot, r)]) && AllInRange(WriteOps(s, fat, slot, r))
  {
    RecordInRange(s, slot, r);
    FatWithin(fat[slot := EntryOf(slot, r)]);
  }

  lemma DeleteInRange(fat: seq<FatEntry>, slot: nat)
    requires IsFat(fat) && slot < SLOTS
    ensures IsFat(fat[slot := ERASED_ENTRY]) && AllInRange(DeleteOps(fat, slot))
  {
    EraseWithin(slot);
    FatWithin(fat[slot := ERASED_ENTRY]);
  }

  // ---- effects ----

  /** After k page erases of a slot its first k pages are erased and everything outside it is kept. */
  lemma {:induction false} EraseEffect(c: Chip, slot: nat, k: nat)
    requires IsChip(c) && slot < SLOTS && k <= 12
    ensures AllInRange(EraseOps(slot)[..k])
    ensures var d := Run(c, EraseOps(slot)[..k]);
            && Erased(d, SlotBase(slot), SlotBase(slot) + 1024 * k)
            && SameOn(c, d, 0, SlotBase(slot)) && SameOn(c, d, SlotBase(slot) + 12288, FLASH_SIZE)
  {
    EraseWithin(slot);
    if k > 0 {
      EraseEffect(c, slot, k - 1);
      RunPrefix(c, EraseOps(slot), k - 1);
    }
  }

  lemma EraseWriteOnce(c: Chip, slot: nat)
    requires IsChip(c) && slot < SLOTS
    ensures AllInRange(EraseOps(slot)) && WriteOnce(c, EraseOps(slot))
  {
    EraseWithin(slot);
  }

  ghost predicate ChunkStored(s: Suite, mem: bytes, slot: nat, r: Rec, i: nat)
    requires |mem| == FLASH_SIZE && slot < SLOTS && i < ChunkCount(|r.data|) && i < 48
  {
    var c := SealedChunk(s, slot, r, i);
    && |c.text| <= 256 && |c.tag| == 16
    && mem[CipherAddr(slot, i)..CipherAddr(slot, i) + |c.text|] == c.text
    && mem[TagAddr(slot, i)..TagAddr(slot, i) + 16] == c.tag
  }

  ghost predicate BodyStored(s: Suite, mem: bytes, slot: nat, r: Rec, n: nat)
    requires |mem| == FLASH_SIZE && slot < SLOTS && n <= ChunkCount(|r.data|) && n <= 48
  {
    forall i :: 0 <= i < n ==> ChunkStored(s, mem, slot, r, i)
  }

  /** The chip after n chunks of a write: header area erased, n chunks and tags in place, the rest
      of the ciphertext and tag areas erased, the other slots and pages kept. */
  ghost predicate BodyProgress(s: Suite, c: Chip, d: Chip, slot: nat, r: Rec, n: nat)
    requires IsChip(c) && IsChip(d) && slot < SLOTS && n <= ChunkCount(|r.data|) && n <= 32
  {
    && Erased(d, SlotBase(slot), SlotBase(slot) + 96)
    && BodyStored(s, d.mem, slot, r, n)
    && Erased(d, CipherAddr(slot, n), SlotBase(slot) + 11776)
    && Erased(d, TagAddr(slot, n), SlotBase(slot) + 12288)
    && SameOn(c, d, 0, SlotBase(slot)) && SameOn(c, d, SlotBase(slot) + 12288, FLASH_SIZE)
  }

  lemma ChunkSizes(s: Suite, slot: nat, r: Rec, i: nat)
    requires Lawful(s) && i < ChunkCount(|r.data|)
    ensures |SealedChunk(s, slot, r, i).text| == |Chunk(r.data, i)| <= 256
    ensures |SealedChunk(s, slot, r, i).tag| == 16
  {
  }

  /** Two buffers programmed one after the other onto erased regions, the second one above the first. */
  lemma ProgramTwo(d: Chip, a: nat, x: bytes, b: nat, y: bytes)
    requires IsChip(d) && a % 8 == 0 && b % 8 == 0
    requires a + 8 * WordCount(|x|) <= b && b + 8 * WordCount(|y|) <= FLASH_SIZE
    requires Erased(d, a, a + 8 * WordCount(|x|)) && Erased(d, b, b + 8 * WordCount(|y|))
    ensures AllInRange(Programs(a, x) + Programs(b, y)) && WriteOnce(d, Programs(a, x) + Programs(b, y))
    ensures var f := Run(d, Programs(a, x) + Programs(b, y));
            && f.mem[a..a + |x|] == x && f.mem[b..b + |y|] == y
            && SameOn(d, f, 0, a) && SameOn(d, f, a + 8 * WordCount(|x|), b) && SameOn(d, f, b + 8 * WordCount(|y|), FLASH_SIZE)
  {
    hide Programs, Run, Step;
    ProgramWhole(d, a, x);
    var e := Run(d, Programs(a, x));
    ProgramWhole(e, b, y);
    RunConcat(d, Programs(a, x), Programs(b, y));
    WriteOnceConcat(d, Programs(a, x), Programs(b, y));
    assert Run(e, Programs(b, y)).mem[a..a + |x|] == e.mem[a..a + |x|];
  }

  lemma ChunkEffect(s: Suite, c: Chip, d: Chip, slot: nat, r: Rec, i: nat)
    requires Lawful(s) && IsChip(c) && IsChip(d) && slot < SLOTS && i < ChunkCount(|r.data|) && i < 32
    requires BodyProgress(s, c, d, slot, r, i)
    ensures AllInRange(ChunkOps(s, slot, r, i))
    ensures BodyProgress(s, c, Run(d, ChunkOps(s, slot, r, i)), slot, r, i + 1)
    ensures WriteOnce(d, ChunkOps(s, slot, r, i))
  {
    hide Programs, Run, Lawful, BodyStored, SealedChunk;
    var k := SealedChunk(s, slot, r, i);
    ChunkSizes(s, slot, r, i);
    ProgramTwo(d, CipherAddr(slot, i), k.text, TagAddr(slot, i), k.tag);
    ChunkAdded(s, c, d, Run(d, ChunkOps(s, slot, r, i)), slot, r, i);
  }

  lemma ChunkAdded(s: Suite, c: Chip, d: Chip, f: Chip, slot: nat, r: Rec, i: nat)
    requires IsChip(c) && IsChip(d) && IsChip(f) && slot < SLOTS && i < ChunkCount(|r.data|) && i < 32
    requires BodyProgress(s, c, d, slot, r, i)
    requires |SealedChunk(s, slot, r, i).text| <= 256 && |SealedChunk(s, slot, r, i).tag| == 16
    requires f.mem[CipherAddr(slot, i)..CipherAddr(slot, i) + |SealedChunk(s, slot, r, i).text|] == SealedChunk(s, slot, r, i).text
    requires f.mem[TagAddr(slot, i)..TagAddr(slot, i) + 16] == SealedChunk(s, slot, r, i).tag
    requires SameOn(d, f, 0, CipherAddr(slot, i)) && SameOn(d, f, CipherAddr(slot, i + 1), TagAddr(slot, i))
    requires SameOn(d, f, TagAddr(slot, i + 1), FLASH_SIZE)
    ensures BodyProgress(s, c, f, slot, r, i + 1)
  {
    forall j | 0 <= j < i
      ensures ChunkStored(s, f.mem, slot, r, j)
    {
      ChunkKept(s, d, f, slot, r, j);
    }
    assert ChunkStored(s, f.mem, slot, r, i);
  }

  lemma ChunkKept(s: Suite, d: Chip, e: Chip, slot: nat, r: Rec, j: nat)
    requires IsChip(d) && IsChip(e) && slot < SLOTS && j < ChunkCount(|r.data|) && j < 48
    requires ChunkStored(s, d.mem, slot, r, j)
    requires forall i :: CipherAddr(slot, j) <= i < CipherAddr(slot, j + 1) ==> d.mem[i] == e.mem[i]
    requires forall i :: TagAddr(slot, j) <= i < TagAddr(slot, j + 1) ==> d.mem[i] == e.mem[i]
    ensures ChunkStored(s, e.mem, slot, r, j)
  {
    var k := SealedChunk(s, slot, r, j);
    assert e.mem[CipherAddr(slot, j)..CipherAddr(slot, j) + |k.text|] == d.mem[CipherAddr(slot, j)..CipherAddr(slot, j) + |k.text|];
    assert e.mem[TagAddr(slot, j)..TagAddr(slot, j) + 16] == d.mem[TagAddr(slot, j)..TagAddr(slot, j) + 16];
  }

  /** A freshly erased slot, one write's chunks later. */
  lemma {:induction false} BodyEffect(s: Suite, c: Chip, d: Chip, slot: nat, r: Rec, n: nat)
    requires Lawful(s) && IsChip(c) && IsChip(d) && slot < SLOTS && n <= ChunkCount(|r.data|) && n <= 32
    requires BodyProgress(s, c, d, slot, r, 0)
    ensures AllInRange(BodyOps(s, slot, r, n))
    ensures BodyProgress(s, c, Run(d, BodyOps(s, slot, r, n)), slot, r, n)
    ensures WriteOnce(d, BodyOps(s, slot, r, n))
  {
    hide Programs, ChunkOps, Run, Lawful, BodyProgress, WriteOnce, BodyStored;
    if n == 0 {
      NoOps(d);
    } else {
      BodyEffect(s, c, d, slot, r, n - 1);
      var front, last := BodyOps(s, slot, r, n - 1), ChunkOps(s, slot, r, n - 1);
      ChunkEffect(s, c, Run(d, front), slot, r, n - 1);
      RunConcat(d, front, last);
      WriteOnceConcat(d, front, last);
    }
  }

  lemma NoOps(c: Chip)
    requires IsChip(c)
    ensures Run(c, []) == c && WriteOnce(c, [])
  {
  }

  /** Byte i of a header of which only the first j words were programmed. */
  function TornByte(h: bytes, j: nat, i: nat): byte {
    if i < 8 * j && i < |h| then h[i] else 255
  }

  /** The first j words of the header of r are on flash and the other header words are erased. */
  ghost predicate HeaderTorn(s: Suite, mem: bytes, slot: nat, r: Rec, j: nat)
    requires |mem| == FLASH_SIZE && slot < SLOTS && j <= 12
  {
    forall i :: SlotBase(slot) <= i < SlotBase(slot) + 96
      ==> mem[i] == TornByte(HeaderBytes(HeaderOf(s, slot, r)), j, i - SlotBase(slot))
  }

  ghost predicate HeaderBlank(mem: bytes, slot: nat)
    requires |mem| == FLASH_SIZE && slot < SLOTS
  {
    forall i :: SlotBase(slot) <= i < SlotBase(slot) + 96 ==> mem[i] == 255
  }

  /** A slot in the middle of its last write: j header words, and all of the body unless j is 0. */
  ghost predicate SlotAt(s: Suite, mem: bytes, slot: nat, r: Rec, j: nat)
    requires |mem| == FLASH_SIZE && slot < SLOTS
  {
    && j <= 12 && |r.data| <= MAX_CONTENTS
    && (if j == 0 then HeaderBlank(mem, slot)
        else HeaderTorn(s, mem, slot, r, j) && BodyStored(s, mem, slot, r, ChunkCount(|r.data|)))
  }

  // ---- prefixes of a record write ----

  lemma Prefix2<T>(a: seq<T>, b: seq<T>, k: nat)
    requires k <= |a| + |b|
    ensures (a + b)[..k] == if k <= |a| then a[..k] else a + b[..k - |a|]
  {
  }

  /** A write cut in its erase phase. */
  lemma ErasePhase(s: Suite, c: Chip, slot: nat, k: nat)
    requires IsChip(c) && slot < SLOTS && 1 <= k <= 12
    ensures AllInRange(EraseOps(slot)[..k])
    ensures HeaderBlank(Run(c, EraseOps(slot)[..k]).mem, slot)
  {
    EraseEffect(c, slot, k);
  }

  lemma SlotErased(s: Suite, c: Chip, slot: nat, r: Rec)
    requires IsChip(c) && slot < SLOTS
    ensures AllInRange(EraseOps(slot)) && WriteOnce(c, EraseOps(slot))
    ensures BodyProgress(s, c, Run(c, EraseOps(slot)), slot, r, 0)
  {
    hide Run, EraseOps, WriteOnce;
    EraseEffect(c, slot, 12);
    EraseWriteOnce(c, slot);
    assert EraseOps(slot)[..12] == EraseOps(slot);
  }

  /** A write cut while its chunks are programmed: the header area is still erased. */
  lemma BodyPhase(s: Suite, c: Chip, slot: nat, r: Rec, n: nat, k: nat)
    requires Lawful(s) && IsChip(c) && slot < SLOTS && IsRec(r) && n <= ChunkCount(|r.data|) && n <= 32
    requires k <= |BodyOps(s, slot, r, n)|
    ensures AllInRange(EraseOps(slot) + BodyOps(s, slot, r, n)[..k])
    ensures HeaderBlank(Run(c, EraseOps(slot) + BodyOps(s, slot, r, n)[..k]).mem, slot)
  {
    hide Programs, EraseOps, BodyOps, Run, Lawful;
    SlotErased(s, c, slot, r);
    BodyWithin(s, slot, r, n);
    var d := Run(c, EraseOps(slot));
    Frame(d, BodyOps(s, slot, r, n)[..k], SlotBase(slot), SlotBase(slot) + 96);
    RunConcat(c, EraseOps(slot), BodyOps(s, slot, r, n)[..k]);
  }

  /** The whole write of a record up to j words of its header. */
  lemma HeaderPhase(s: Suite, c: Chip, slot: nat, r: Rec, j: nat)
    requires Lawful(s) && IsChip(c) && slot < SLOTS && IsRec(r) && |r.data| <= MAX_CONTENTS && j <= 12
    ensures |HeaderOps(s, slot, r)| == 12
    ensures AllInRange(EraseOps(slot) + BodyOps(s, slot, r, ChunkCount(|r.data|)) + HeaderOps(s, slot, r)[..j])
    ensures SlotAt(s, Run(c, EraseOps(slot) + BodyOps(s, slot, r, ChunkCount(|r.data|)) + HeaderOps(s, slot, r)[..j]).mem, slot, r, j)
  {
    hide Programs, EraseOps, BodyOps, Run, Lawful, HeaderBytes, BodyStored, WriteOnce, InRange, SlotAt, Programmed;
    var n := ChunkCount(|r.data|);
    var e, b, h := EraseOps(slot), BodyOps(s, slot, r, n), HeaderBytes(HeaderOf(s, slot, r));
    SlotErased(s, c, slot, r);
    BodyEffect(s, c, Run(c, e), slot, r, n);
    RunConcat(c, e, b);
    var d := Run(c, e + b);
    HeaderSize(s, slot, r);
    ProgramsEffect(d, SlotBase(slot), h, j);
    RunConcat(c, e + b, Programs(SlotBase(slot), h)[..j]);
    HeaderStarted(s, c, d, Run(d, Programs(SlotBase(slot), h)[..j]), slot, r, j);
  }

  lemma HeaderStarted(s: Suite, c: Chip, d: Chip, f: Chip, slot: nat, r: Rec, j: nat)
    requires IsChip(c) && IsChip(d) && IsChip(f) && slot < SLOTS && |r.data| <= MAX_CONTENTS && j <= 12
    requires BodyProgress(s, c, d, slot, r, ChunkCount(|r.data|))
    requires |HeaderBytes(HeaderOf(s, slot, r))| == 96
    requires Programmed(d, f, SlotBase(slot), HeaderBytes(HeaderOf(s, slot, r)), j)
    ensures SlotAt(s, f.mem, slot, r, j)
  {
    hide HeaderBytes, HeaderOf, BodyStored;
    var h := HeaderBytes(HeaderOf(s, slot, r));
    BodyKept(s, d, f, slot, r, ChunkCount(|r.data|));
    forall i | SlotBase(slot) <= i < SlotBase(slot) + 96
      ensures f.mem[i] == TornByte(h, j, i - SlotBase(slot))
    {
      if i < SlotBase(slot) + 8 * j {
        assert f.mem[i] == Padded(h, i - SlotBase(slot));
      }
    }
  }

  lemma BodyKept(s: Suite, d: Chip, e: Chip, slot: nat, r: Rec, n: nat)
    requires IsChip(d) && IsChip(e) && slot < SLOTS && n <= ChunkCount(|r.data|) && n <= 32
    requires BodyStored(s, d.mem, slot, r, n)
    requires forall i :: SlotBase(slot) + 96 <= i < SlotBase(slot) + 12288 ==> d.mem[i] == e.mem[i]
    ensures BodyStored(s, e.mem, slot, r, n)
  {
    forall j | 0 <= j < n
      ensures ChunkStored(s, e.mem, slot, r, j)
    {
      ChunkKept(s, d, e, slot, r, j);
    }
  }

  /** How many header words a write has programmed once k of its commands are done. */
  function HeaderWords(s: Suite, slot: nat, r: Rec, k: nat): (j: nat)
    ensures j <= 12
  {
    var body := 12 + |BodyOps(s, slot, r, ChunkCount(|r.data|))|;
    if k <= body then 0 else if k <= body + 12 then k - body else 12
  }

  /** A record write cut after its first k >= 1 commands: the old record is gone, and unless the
      header has been started nothing of the new one can be found either. */
  lemma RecordPrefix(s: Suite, c: Chip, slot: nat, r: Rec, k: nat)
    requires Lawful(s) && IsChip(c) && slot < SLOTS && IsRec(r) && |r.data| <= MAX_CONTENTS
    requires 1 <= k <= |RecordOps(s, slot, r)|
    ensures AllInRange(RecordOps(s, slot, r)[..k])
    ensures SlotAt(s, Run(c, RecordOps(s, slot, r)[..k]).mem, slot, r, HeaderWords(s, slot, r, k))
  {
    hide Programs, EraseOps, BodyOps, HeaderOps, Run, Lawful, HeaderTorn, HeaderBlank, BodyStored, InRange;
    var n := ChunkCount(|r.data|);
    var e, b, h := EraseOps(slot), BodyOps(s, slot, r, n), HeaderOps(s, slot, r);
    Prefix2(e + b, h, k);
    if k <= 12 {
      Prefix2(e, b, k);
      ErasePhase(s, c, slot, k);
    } else if k <= 12 + |b| {
      Prefix2(e, b, k);
      BodyPhase(s, c, slot, r, n, k - 12);
    } else {
      HeaderPhase(s, c, slot, r, 0);
      HeaderPhase(s, c, slot, r, k - 12 - |b|);
    }
  }

  // ---- the write-once rule ----

  lemma PageWriteOnce(c: Chip, page: nat, data: bytes)
    requires IsChip(c) && page % 1024 == 0 && page + 1024 <= FLASH_SIZE && |data| == 1024
    ensures AllInRange(PageOps(page, data)) && WriteOnce(c, PageOps(page, data))
  {
    hide Programs, Run, WriteOnce, SameOn;
    assert page == 8 * (128 * (page / 1024));
    PageWithin(page, data);
    PageErased(c, page);
    ProgramWhole(Run(c, [Erase(page)]), page, data);
    WriteOnceConcat(c, [Erase(page)], Programs(page, data));
  }

  lemma PageErased(c: Chip, page: nat)
    requires IsChip(c) && InRange(Erase(page))
    ensures AllInRange([Erase(page)]) && WriteOnce(c, [Erase(page)])
    ensures var d := Run(c, [Erase(page)]);
            Erased(d, page, page + 1024) && SameOn(c, d, 0, page) && SameOn(c, d, page + 1024, FLASH_SIZE)
  {
    var e := [Erase(page)];
    assert e[..0] == [];
    assert Run(c, e) == Step(c, Erase(page));
  }

  /** A page rewrite cut after its erase and j word programs. */
  lemma PagePrefix(c: Chip, page: nat, data: bytes, k: nat)
    requires IsChip(c) && page % 1024 == 0 && page + 1024 <= FLASH_SIZE && |data| == 1024 && 1 <= k <= 129
    ensures AllInRange(PageOps(page, data)[..k])
    ensures var d := Run(c, PageOps(page, data)[..k]);
            && (forall i :: page <= i < page + 1024 ==> d.mem[i] == if i < page + 8 * (k - 1) then data[i - page] else 255)
            && SameOn(c, d, 0, page) && SameOn(c, d, page + 1024, FLASH_SIZE)
  {
    hide Programs, Run;
    PageErased(c, page);
    var d := Run(c, [Erase(page)]);
    ProgramsEffect(d, page, data, k - 1);
    Prefix2([Erase(page)], Programs(page, data), k);
    RunConcat(c, [Erase(page)], Programs(page, data)[..k - 1]);
  }

  /** Every write of at most 8192 bytes obeys the write-once rule, whatever is on flash before. */
  lemma WriteObeysRule(s: Suite, c: Chip, fat: seq<FatEntry>, slot: nat, r: Rec)
    requires Lawful(s) && IsChip(c) && IsFat(fat) && slot < SLOTS && IsRec(r) && |r.data| <= MAX_CONTENTS
    ensures AllInRange(WriteOps(s, fat, slot, r)) && WriteOnce(c, WriteOps(s, fat, slot, r))
  {
    hide Programs, EraseOps, BodyOps, PageOps, FatPage, Run, Lawful, HeaderBytes, BodyStored, WriteOnce, InRange;
    var n := ChunkCount(|r.data|);
    var e, b, h := EraseOps(slot), BodyOps(s, slot, r, n), HeaderOps(s, slot, r);
    SlotErased(s, c, slot, r);
    BodyEffect(s, c, Run(c, e), slot, r, n);
    RunConcat(c, e, b);
    WriteOnceConcat(c, e, b);
    HeaderSize(s, slot, r);
    ProgramWhole(Run(c, e + b), SlotBase(slot), HeaderBytes(HeaderOf(s, slot, r)));
    WriteOnceConcat(c, e + b, h);
    FatWithin(fat[slot := EntryOf(slot, r)]);
    PageWriteOnce(Run(c, e + b + h), FAT_ADDR, FatPage(fat[slot := EntryOf(slot, r)]));
    WriteOnceConcat(c, e + b + h, FatOps(fat[slot := EntryOf(slot, r)]));
  }

  lemma DeleteObeysRule(c: Chip, fat: seq<FatEntry>, slot: nat)
    requires IsChip(c) && IsFat(fat) && slot < SLOTS
    ensures AllInRange(DeleteOps(fat, slot)) && WriteOnce(c, DeleteOps(fat, slot))
  {
    hide Programs, EraseOps, PageOps, FatPage, Run, WriteOnce, InRange;
    EraseWithin(slot);
    EraseWriteOnce(c, slot);
    FatWithin(fat[slot := ERASED_ENTRY]);
    PageWriteOnce(Run(c, EraseOps(slot)), FAT_ADDR, FatPage(fat[slot := ERASED_ENTRY]));
    WriteOnceConcat(c, EraseOps(slot), FatOps(fat[slot := ERASED_ENTRY]));
  }
}
