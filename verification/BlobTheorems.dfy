/** Properties of whole runs beyond crash safety: torn FAT rewrites, round trips that survive later
    activity on other slots, and the write-once rule. */
module BlobTheorems {
  import opened Bytes
  import opened Flash
  import opened BlobModel
  import opened BlobFlash
  import opened BlobRead
  import opened BlobRuns
  import opened Wrappers

  // ---- torn FAT rewrites ----

  lemma {:induction false} FatBytesAt(fat: seq<FatEntry>, i: nat)
    requires forall k :: 0 <= k < |fat| ==> |fat[k].uuid| == 16
    requires i < |fat|
    ensures |FatBytes(fat)| == 24 * |fat| && FatBytes(fat)[24 * i..24 * i + 24] == EntryBytes(fat[i])
    decreases |fat|
  {
    FatBytesSize(fat);
    FatBytesSize(fat[..|fat| - 1]);
    if i < |fat| - 1 {
      FatBytesAt(fat[..|fat| - 1], i);
    }
  }

  lemma ParseOfEntry(e: FatEntry)
    requires IsEntry(e)
    ensures |EntryBytes(e)| == 24 && ParseEntry(EntryBytes(e)) == e
  {
    hide Un, Le;
    var b := EntryBytes(e);
    assert b[..16] == e.uuid && b[16..18] == Le(e.length, 2) && b[18..20] == Le(e.padding, 2) && b[20..24] == Le(e.addr, 4);
    Field16(e.length);
    Field16(e.padding);
    Field32(e.addr);
  }

  /** Reading the FAT page back gives the table that was written. */
  lemma FatRoundTrip(mem: bytes, fat: seq<FatEntry>)
    requires |mem| == FLASH_SIZE && IsFat(fat)
    requires |FatPage(fat)| == 1024 && mem[FAT_ADDR..FAT_ADDR + 1024] == FatPage(fat)
    ensures FatOn(mem) == fat
  {
    hide EntryBytes, ParseEntry, FatBytes;
    forall i | 0 <= i < SLOTS
      ensures FatOn(mem)[i] == fat[i]
    {
      FatBytesAt(fat, i);
      ParseOfEntry(fat[i]);
      SubSlice(mem, FAT_ADDR, 1024, 24 * i, 24 * i + 24);
      assert FatPage(fat)[24 * i..24 * i + 24] == FatBytes(fat)[24 * i..24 * i + 24];
    }
  }

  /** Cutting a FAT rewrite after its erase and any number of ascending word programs leaves every
      entry either exactly new or empty: the length and the address share the entry's last word. */
  lemma TornFat(c: Chip, fat: seq<FatEntry>, k: nat, i: nat)
    requires IsChip(c) && IsFat(fat) && 1 <= k <= |FatOps(fat)| && i < SLOTS
    ensures AllInRange(FatOps(fat)[..k])
    ensures var e := FatOn(Run(c, FatOps(fat)[..k]).mem)[i];
            if k >= 3 * i + 4 then e == fat[i] else e.addr == EMPTY
  {
    hide EntryBytes, FatBytes, Un, PageOps, Run;
    FatWithin(fat);
    PagePrefix(c, FAT_ADDR, FatPage(fat), k);
    var mem := Run(c, FatOps(fat)[..k]).mem;
    var b := mem[FAT_ADDR + 24 * i..FAT_ADDR + 24 * i + 24];
    if k >= 3 * i + 4 {
      FatBytesAt(fat, i);
      ParseOfEntry(fat[i]);
      EntryProgrammed(mem, FAT_ADDR, FatPage(fat), 8 * (k - 1), 24 * i);
      assert b == EntryBytes(fat[i]);
    } else {
      OnesField();
      EntryErased(mem, FAT_ADDR + 24 * i);
    }
  }

  lemma EntryErased(mem: bytes, at: nat)
    requires at + 24 <= |mem| && forall i :: at + 20 <= i < at + 24 ==> mem[i] == 255
    ensures mem[at..at + 24][20..24] == [255, 255, 255, 255]
  {
    SubSlice(mem, at, 24, 20, 24);
    var word := mem[at + 20..at + 24];
    assert word[0] == word[1] == word[2] == word[3] == 255;
    assert word == [255, 255, 255, 255];
  }

  lemma EntryProgrammed(mem: bytes, page: nat, data: bytes, done: nat, at: nat)
    requires page + |data| <= |mem| && at + 24 <= done <= |data|
    requires forall i :: page <= i < page + done ==> mem[i] == data[i - page]
    ensures mem[page + at..page + at + 24] == data[at..at + 24]
  {
    var stored, entry := mem[page + at..page + at + 24], data[at..at + 24];
    forall j | 0 <= j < 24
      ensures stored[j] == entry[j]
    {
      assert mem[page + at + j] == data[at + j];
    }
  }

  lemma FatComplete(c: Chip, fat: seq<FatEntry>)
    requires IsChip(c) && IsFat(fat)
    ensures AllInRange(FatOps(fat)) && FatOn(Run(c, FatOps(fat)).mem) == fat
  {
    hide FatOn, PageOps, Run;
    FatWithin(fat);
    FatOnIsFat(Run(c, FatOps(fat)).mem);
    forall i | 0 <= i < SLOTS
      ensures FatOn(Run(c, FatOps(fat)).mem)[i] == fat[i]
    {
      assert FatOps(fat)[..129] == FatOps(fat);
      TornFat(c, fat, 129, i);
    }
  }

  /** The FAT page is not touched by commands that avoid it. */
  lemma FatKept(c: Chip, ops: seq<Op>)
    requires IsChip(c) && AllInRange(ops) && AllAvoid(ops, FAT_ADDR, FAT_ADDR + 1024)
    ensures FatOn(Run(c, ops).mem) == FatOn(c.mem)
  {
    hide Run, ParseEntry;
    Frame(c, ops, FAT_ADDR, FAT_ADDR + 1024);
    forall i | 0 <= i < SLOTS
      ensures FatOn(Run(c, ops).mem)[i] == FatOn(c.mem)[i]
    {
      assert Run(c, ops).mem[FAT_ADDR + 24 * i..FAT_ADDR + 24 * i + 24] == c.mem[FAT_ADDR + 24 * i..FAT_ADDR + 24 * i + 24];
    }
  }

  // ---- what a record write does to the FAT page ----

  ghost predicate EndsWithFat(ops: seq<Op>, front: seq<Op>, fat: seq<FatEntry>) {
    IsFat(fat) && ops == front + FatOps(fat) && AllInRange(front) && AllAvoid(front, FAT_ADDR, FAT_ADDR + 1024)
  }

  lemma WriteEndsWithFat(s: Suite, fat: seq<FatEntry>, slot: nat, r: Rec)
    requires Lawful(s) && IsFat(fat) && slot < SLOTS && IsRec(r) && |r.data| <= MAX_CONTENTS
    ensures EndsWithFat(WriteOps(s, fat, slot, r), RecordOps(s, slot, r), fat[slot := EntryOf(slot, r)])
  {
    hide RecordOps, FatOps;
    EntryOfIsEntry(slot, r);
    RecordInRange(s, slot, r);
    RecordConfined(s, slot, r);
  }

  lemma DeleteEndsWithFat(fat: seq<FatEntry>, slot: nat)
    requires IsFat(fat) && slot < SLOTS
    ensures EndsWithFat(DeleteOps(fat, slot), EraseOps(slot), fat[slot := ERASED_ENTRY])
  {
    hide EraseOps, FatOps;
    EraseWithin(slot);
  }

  /** An operation that ends with a FAT rewrite, cut anywhere: each entry on flash is as it was, as
      it was meant to become, or empty. Uncut, the FAT on flash is the one meant. */
  lemma FatAfter(c: Chip, ops: seq<Op>, front: seq<Op>, fat: seq<FatEntry>, cut: nat, i: nat)
    requires IsChip(c) && EndsWithFat(ops, front, fat) && cut <= |ops| && i < SLOTS
    ensures AllInRange(ops[..cut])
    ensures var e := FatOn(Run(c, ops[..cut]).mem)[i]; e == FatOn(c.mem)[i] || e == fat[i] || e.addr == EMPTY
    ensures cut == |ops| ==> FatOn(Run(c, ops[..cut]).mem) == fat
  {
    hide FatOn, PageOps, FatPage, Run;
    FatWithin(fat);
    Prefix2(front, FatOps(fat), cut);
    if cut <= |front| {
      FatKept(c, front[..cut]);
    } else {
      var k := cut - |front|;
      RunConcat(c, front, FatOps(fat)[..k]);
      TornFat(Run(c, front), fat, k, i);
      if cut == |ops| {
        assert FatOps(fat)[..k] == FatOps(fat);
        FatComplete(Run(c, front), fat);
      }
    }
  }

  // ---- round trips ----

  ghost predicate Elsewhere(e: Event, slot: nat) {
    (e.Write? || e.Delete?) ==> e.slot != slot
  }

  ghost predicate Uncut(s: Suite, st: Sys, e: Event)
    requires IsSys(st) && Enabled(s, st, e)
  {
    match e
    case Write(slot, r, cut) => cut == |WriteOps(s, st.fat, slot, r)|
    case Delete(slot, cut) => cut == |DeleteOps(st.fat, slot)|
    case Elsewhere(_, _, cut) => cut == 129
    case Reboot => true
  }

  /** Slot t holds record r completely, and its FAT entry, in RAM and on flash, is r's; or, when
      lossy is allowed, was lost to a torn FAT rewrite. */
  ghost predicate Holds(s: Suite, st: Sys, t: nat, r: Rec, lossy: bool)
    requires IsSys(st)
  {
    && t < SLOTS && SlotAt(s, st.chip.mem, t, r, 12)
    && (st.fat[t] == EntryOf(t, r) || (lossy && st.fat[t].addr == EMPTY))
    && (FatOn(st.chip.mem)[t] == EntryOf(t, r) || (lossy && FatOn(st.chip.mem)[t].addr == EMPTY))
  }

  /** A write that runs to its end installs its record. */
  lemma WriteHolds(s: Suite, st: Sys, e: Event)
    requires Lawful(s) && IsSys(st) && e.Write? && Enabled(s, st, e) && Uncut(s, st, e)
    ensures Holds(s, Next(s, st, e), e.slot, e.rec, false)
  {
    hide FatOn, Run, SlotAt, RecordOps, FatOps;
    WriteEndsWithFat(s, st.fat, e.slot, e.rec);
    HeaderWithin(s, e.slot, e.rec);
    assert HeaderWords(s, e.slot, e.rec, e.cut) == 12 by { WriteLength(s, st.fat, e.slot, e.rec); }
    WritePrefix(s, st.chip, st.fat, e.slot, e.rec, e.cut);
    FatAfter(st.chip, WriteOps(s, st.fat, e.slot, e.rec), RecordOps(s, e.slot, e.rec),
             st.fat[e.slot := EntryOf(e.slot, e.rec)], e.cut, e.slot);
  }

  lemma WriteLength(s: Suite, fat: seq<FatEntry>, slot: nat, r: Rec)
    requires Lawful(s) && IsFat(fat) && slot < SLOTS && IsRec(r)
    ensures |WriteOps(s, fat, slot, r)| == 12 + |BodyOps(s, slot, r, ChunkCount(|r.data|))| + 12 + 129
  {
    hide BodyOps, PageOps, FatPage;
    HeaderWithin(s, slot, r);
    EntryOfIsEntry(slot, r);
    FatWithin(fat[slot := EntryOf(slot, r)]);
  }

  lemma NextHolds(s: Suite, st: Sys, e: Event, t: nat, r: Rec, lossy: bool)
    requires Lawful(s) && IsSys(st) && Enabled(s, st, e) && Holds(s, st, t, r, lossy) && Elsewhere(e, t)
    requires lossy || Uncut(s, st, e)
    ensures Holds(s, Next(s, st, e), t, r, lossy)
  {
    hide FatOn, Run, SlotAt, WriteOps, DeleteOps, PageOps, EntryOf;
    OpsInRange(s, st, e);
    var next, ops := Next(s, st, e), OpsOf(s, st, e);
    match e {
      case Write(slot, x, cut) =>
        EntryOfIsEntry(slot, x);
        WriteAvoids(s, st.fat, slot, x, t);
        WriteEndsWithFat(s, st.fat, slot, x);
        FatAfter(st.chip, WriteOps(s, st.fat, slot, x), RecordOps(s, slot, x), st.fat[slot := EntryOf(slot, x)], cut, t);
      case Delete(slot, cut) =>
        DeleteAvoids(st.fat, slot, t);
        DeleteEndsWithFat(st.fat, slot);
        FatAfter(st.chip, DeleteOps(st.fat, slot), EraseOps(slot), st.fat[slot := ERASED_ENTRY], cut, t);
      case Elsewhere(page, data, cut) =>
        PageWithin(page, data);
        FatKept(st.chip, ops);
      case Reboot =>
        NoOps(st.chip);
    }
    Untouched(st.chip, ops, t);
    SlotAtKept(s, st.chip, next.chip, t, r, 12);
  }

  /** After a complete write of r to slot t, in every run of later activity on other slots, cut
      anywhere and rebooted any number of times, reading t gives exactly the answer r calls for or,
      when a FAT rewrite was torn, that there is no file. Without cuts it is always the former. */
  lemma {:induction false} RoundTrip(s: Suite, st: Sys, run: seq<Event>, t: nat, r: Rec, lossy: bool)
    requires Lawful(s) && IsSys(st) && IsRun(s, st, run) && IsRec(r) && Holds(s, st, t, r, lossy)
    requires forall i :: 0 <= i < |run| ==> Elsewhere(run[i], t)
    requires lossy || UncutRun(s, st, run)
    ensures Holds(s, After(s, st, run), t, r, lossy)
    ensures forall pin, mask, room ::
              var got := ReadAll(s, After(s, st, run).chip.mem, After(s, st, run).fat, t, pin, mask, room);
              got == Expected(r, pin, mask, room) || (lossy && got == Fail(NotFound))
    decreases |run|
  {
    hide Next, Enabled, Uncut, Elsewhere, ReadAll, Expected, SlotAt;
    if run != [] {
      RoundTrip(s, st, run[..|run| - 1], t, r, lossy);
      NextHolds(s, After(s, st, run[..|run| - 1]), run[|run| - 1], t, r, lossy);
    }
    var end := After(s, st, run);
    forall pin, mask, room
      ensures var got := ReadAll(s, end.chip.mem, end.fat, t, pin, mask, room);
              got == Expected(r, pin, mask, room) || (lossy && got == Fail(NotFound))
    {
      HoldsReads(s, end, t, r, lossy, pin, mask, room);
    }
  }

  ghost predicate UncutRun(s: Suite, st: Sys, run: seq<Event>)
    requires Lawful(s) && IsSys(st) && IsRun(s, st, run)
  {
    run == [] || (UncutRun(s, st, run[..|run| - 1]) && Uncut(s, After(s, st, run[..|run| - 1]), run[|run| - 1]))
  }

  /** What the store owes a reader of record r. */
  function Expected(r: Rec, pin: Option<bytes>, mask: nat, room: nat): Outcome<bytes> {
    if BitAnd(mask, r.group) == 0 || (pin.Some? && pin.value != r.owner) then Fail(PermissionDenied)
    else if room < |r.data| then Fail(BadLen)
    else Done(r.data)
  }

  lemma HoldsReads(s: Suite, st: Sys, t: nat, r: Rec, lossy: bool, pin: Option<bytes>, mask: nat, room: nat)
    requires Lawful(s) && IsSys(st) && IsRec(r) && Holds(s, st, t, r, lossy)
    ensures var got := ReadAll(s, st.chip.mem, st.fat, t, pin, mask, room);
            got == Expected(r, pin, mask, room) || (lossy && got == Fail(NotFound))
  {
    hide SlotAt, FatOn;
    if st.fat[t] == EntryOf(t, r) {
      ReadComplete(s, st.chip.mem, st.fat, t, r, pin, mask, room);
    }
  }

  // ---- reading in several calls ----

  lemma {:induction false} PiecesSize(s: Suite, mem: bytes, c: Cursor, len: nat)
    requires Lawful(s) && |mem| == FLASH_SIZE && IsCursor(c) && c.processed + len <= c.total
    ensures ReadPieces(s, mem, c, len).Some? ==> |ReadPieces(s, mem, c, len).value.0| == len
    decreases len
  {
    if len > 0 {
      var n := if len > 256 then 256 else len;
      PiecesSize(s, mem, Advance(mem, c, n), len - n);
    }
  }

  function Sum(lens: seq<nat>): nat {
    if lens == [] then 0 else lens[0] + Sum(lens[1..])
  }

  /** One blob_read_chunk call per length, in order. */
  function ReadParts(s: Suite, mem: bytes, c: Cursor, lens: seq<nat>): Option<(bytes, Cursor)>
    requires |mem| == FLASH_SIZE && IsCursor(c) && c.processed + Sum(lens) <= c.total
    decreases |lens|
  {
    if lens == [] then Some(([], c))
    else
      match ReadPieces(s, mem, c, lens[0])
      case None => None
      case Some((d, next)) =>
        match ReadParts(s, mem, next, lens[1..])
        case None => None
        case Some((rest, end)) => Some((d + rest, end))
  }

  /** A read of a + b bytes, with a made of whole chunks, is a read of a followed by one of b. */
  lemma {:induction false} PiecesSplit(s: Suite, mem: bytes, c: Cursor, a: nat, b: nat)
    requires |mem| == FLASH_SIZE && IsCursor(c) && c.processed + a + b <= c.total && a % 256 == 0
    ensures ReadPieces(s, mem, c, a + b)
         == match ReadPieces(s, mem, c, a)
            case None => None
            case Some((d, next)) =>
              (match ReadPieces(s, mem, next, b)
               case None => None
               case Some((rest, end)) => Some((d + rest, end)))
    decreases a
  {
    hide OpenPiece, Advance;
    if a == 0 {
      var whole := ReadPieces(s, mem, c, b);
      if whole.Some? {
        assert [] + whole.value.0 == whole.value.0;
      }
    } else {
      var p := OpenPiece(s, mem, c, 256);
      if p.Some? {
        var next := Advanced(mem, c);
        PiecesSplit(s, mem, next, a - 256, b);
        var front := ReadPieces(s, mem, next, a - 256);
        SplitStep(p.value, front, if front.Some? then ReadPieces(s, mem, front.value.1, b) else None);
      }
    }
  }

  function Advanced(mem: bytes, c: Cursor): (next: Cursor)
    requires |mem| == FLASH_SIZE && IsCursor(c) && c.processed + 256 <= c.total
    ensures next == Advance(mem, c, 256) && IsCursor(next) && next.total == c.total && next.processed == c.processed + 256
  {
    Advance(mem, c, 256)
  }

  lemma SplitStep(p: bytes, front: Option<(bytes, Cursor)>, back: Option<(bytes, Cursor)>)
    ensures front.Some? && back.Some? ==> p + (front.value.0 + back.value.0) == (p + front.value.0) + back.value.0
  {
  }

  /** Calls whose lengths, all but the last, are multiples of the chunk size read what one call
      reads, and leave the same cursor. */
  lemma {:induction false} PartsJoin(s: Suite, mem: bytes, c: Cursor, lens: seq<nat>)
    requires |mem| == FLASH_SIZE && IsCursor(c) && c.processed + Sum(lens) <= c.total
    requires forall i :: 0 <= i < |lens| - 1 ==> lens[i] % 256 == 0
    ensures ReadParts(s, mem, c, lens) == ReadPieces(s, mem, c, Sum(lens))
    decreases |lens|
  {
    hide OpenPiece, Advance;
    if |lens| == 1 {
      assert Sum(lens) == lens[0] by { assert lens[1..] == []; }
      var one := ReadPieces(s, mem, c, lens[0]);
      if one.Some? {
        assert one.value.0 + [] == one.value.0;
      }
    } else if |lens| > 1 {
      PiecesSplit(s, mem, c, lens[0], Sum(lens[1..]));
      if ReadPieces(s, mem, c, lens[0]).Some? {
        PartsJoin(s, mem, ReadPieces(s, mem, c, lens[0]).value.1, lens[1..]);
      }
    }
  }

  /** A complete record reads back in any such sequence of calls, and the final check passes: chunk
      index, slot index and running tag digest are those of the writer. */
  lemma PartsRoundTrip(s: Suite, st: Sys, t: nat, r: Rec, pin: Option<bytes>, mask: nat, lens: seq<nat>)
    requires Lawful(s) && IsSys(st) && IsRec(r) && Holds(s, st, t, r, false)
    requires BitAnd(mask, r.group) != 0 && (pin.Some? ==> pin.value == r.owner)
    requires Sum(lens) == |r.data| && forall i :: 0 <= i < |lens| - 1 ==> lens[i] % 256 == 0
    ensures var o := OpenRead(s, st.chip.mem, st.fat, t, pin, mask);
            && o.Done? && o.value.total == |r.data|
            && (var parts := ReadParts(s, st.chip.mem, o.value, lens);
                && parts.Some? && parts.value.0 == r.data && FinishRead(s, parts.value.1))
  {
    hide OpenRead, FinishRead, ReadPieces, ReadParts, Holds, BitAnd;
    HoldsReads(s, st, t, r, false, pin, mask, |r.data|);
    var c := OpenRead(s, st.chip.mem, st.fat, t, pin, mask).value;
    PiecesSize(s, st.chip.mem, c, c.total);
    PartsJoin(s, st.chip.mem, c, lens);
  }

  /** The repository's front page says that a power cut leaves the previous slot state intact. The
      code erases the slot first: an interrupted write of other data leaves the previous file
      readable, whether the device reboots or goes on with its FAT in RAM, if and only if none of its
      flash commands had taken effect. */
  lemma PreviousFileSurvives(s: Suite, st: Sys, e: Event, old_: Rec, mask: nat, room: nat)
    requires Lawful(s) && IsSys(st) && IsRec(old_) && e.Write? && Enabled(s, st, e)
    requires Holds(s, st, e.slot, old_, false) && BitAnd(mask, old_.group) != 0 && |old_.data| <= room
    requires e.rec.data != old_.data && !SomeForgery(s, e.slot, e.rec)
    ensures var cut := Next(s, st, e);
            ReadAll(s, cut.chip.mem, cut.fat, e.slot, None, mask, room) == Done(old_.data) <==> e.cut == 0
    ensures var next := Next(s, Next(s, st, e), Reboot);
            ReadAll(s, next.chip.mem, next.fat, e.slot, None, mask, room) == Done(old_.data) <==> e.cut == 0
  {
    hide Run, FatOn, WriteOps, ReadAll, SlotAt, HeaderWords, SomeForgery, RecordOps;
    var cut, next := Next(s, st, e), Next(s, Next(s, st, e), Reboot);
    RebootKeepsChip(s, cut);
    if e.cut == 0 {
      NoOps(st.chip);
      assert OpsOf(s, st, e) == [];
      WriteLength(s, st.fat, e.slot, e.rec);
      ReadComplete(s, cut.chip.mem, cut.fat, e.slot, old_, None, mask, room);
      ReadComplete(s, next.chip.mem, next.fat, e.slot, old_, None, mask, room);
    } else {
      WritePrefix(s, st.chip, st.fat, e.slot, e.rec, e.cut);
      var j := HeaderWords(s, e.slot, e.rec, e.cut);
      NotAnotherFile(s, cut.chip.mem, cut.fat, e.slot, e.rec, j, old_.data, mask, room);
      NotAnotherFile(s, next.chip.mem, next.fat, e.slot, e.rec, j, old_.data, mask, room);
    }
  }

  lemma RebootKeepsChip(s: Suite, st: Sys)
    requires Lawful(s) && IsSys(st)
    ensures Next(s, st, Reboot) == Sys(st.chip, FatOn(st.chip.mem), st.last)
  {
    hide FatOn;
    NoOps(st.chip);
  }

  lemma NotAnotherFile(s: Suite, mem: bytes, fat: seq<FatEntry>, slot: nat, r: Rec, j: nat, data: bytes, mask: nat, room: nat)
    requires Lawful(s) && |mem| == FLASH_SIZE && IsFat(fat) && slot < SLOTS && IsRec(r) && SlotAt(s, mem, slot, r, j)
    requires data != r.data && !SomeForgery(s, slot, r)
    ensures ReadAll(s, mem, fat, slot, None, mask, room) != Done(data)
  {
    hide ReadAll, SlotAt, Forged;
    ReadTorn(s, mem, fat, slot, r, j, None, mask, room);
  }

  /** The same sentence says that incomplete writes are discarded on boot. After an interrupted
      overwrite and a reboot the new data is read if and only if the slot's own FAT entry had been
      programmed again, or power was lost before the FAT erase, with the header readable, and the new
      contents are as long as the old: the old FAT entry then leads to them. */
  lemma IncompleteWriteRead(s: Suite, st: Sys, e: Event, old_: Rec, mask: nat, room: nat)
    requires Lawful(s) && IsSys(st) && IsRec(old_) && e.Write? && Enabled(s, st, e) && e.cut > 0
    requires Holds(s, st, e.slot, old_, false)
    requires BitAnd(mask, e.rec.group) != 0 && |e.rec.data| <= room && !SomeForgery(s, e.slot, e.rec)
    ensures var next, record := Next(s, Next(s, st, e), Reboot), |RecordOps(s, e.slot, e.rec)|;
            && (ReadAll(s, next.chip.mem, next.fat, e.slot, None, mask, room) == Done(e.rec.data)
                <==> || e.cut >= record + 3 * e.slot + 4
                     || (e.cut <= record && 2 <= HeaderWords(s, e.slot, e.rec, e.cut) && |e.rec.data| == |old_.data|
                         && HeaderReadable(s, e.slot, e.rec, HeaderWords(s, e.slot, e.rec, e.cut))))
            && (e.cut <= record ==> next.fat[e.slot] == EntryOf(e.slot, old_))
  {
    hide Run, FatOn, WriteOps, ReadAll, SlotAt, HeaderWords, SomeForgery, RecordOps, HeaderReadable, BitAnd;
    var next := Next(s, Next(s, st, e), Reboot);
    RebootKeepsChip(s, Next(s, st, e));
    WritePrefix(s, st.chip, st.fat, e.slot, e.rec, e.cut);
    EntryAfterCut(s, st, e, e.slot);
    EntryOfIsEntry(e.slot, e.rec);
    var j := HeaderWords(s, e.slot, e.rec, e.cut);
    TornReadExact(s, next.chip.mem, next.fat, e.slot, e.rec, j, mask, room);
    if e.cut > |RecordOps(s, e.slot, e.rec)| {
      FullHeader(s, next.chip.mem, e, j);
    }
  }

  lemma FullHeader(s: Suite, mem: bytes, e: Event, j: nat)
    requires Lawful(s) && |mem| == FLASH_SIZE && e.Write? && e.slot < SLOTS && IsRec(e.rec)
    requires e.cut >= |RecordOps(s, e.slot, e.rec)| && j == HeaderWords(s, e.slot, e.rec, e.cut) && SlotAt(s, mem, e.slot, e.rec, j)
    ensures j == 12 && HeaderReadable(s, e.slot, e.rec, j)
  {
    hide HeaderTorn, BodyOps, HeaderOf, Aad, HeaderBytes, TornHeader;
    HeaderWithin(s, e.slot, e.rec);
    TornOnFlash(s, mem, e.slot, e.rec, 12);
    TornBytes(s, mem, e.slot, e.rec, 12);
    ProtoIsHeader(e.slot, e.rec);
    assert Aad(Proto(e.slot, e.rec))[..60] == Aad(Proto(e.slot, e.rec));
  }

  /** So an overwrite of equal length that power interrupts just before the FAT erase is live after
      the reboot, and under the uuid of the file that it replaced. */
  lemma UncommittedOverwriteRead(s: Suite, st: Sys, e: Event, old_: Rec, mask: nat, room: nat)
    requires Lawful(s) && IsSys(st) && IsRec(old_) && e.Write? && Enabled(s, st, e)
    requires e.cut == |RecordOps(s, e.slot, e.rec)| && |e.rec.data| == |old_.data| <= room
    requires Holds(s, st, e.slot, old_, false) && BitAnd(mask, e.rec.group) != 0 && !SomeForgery(s, e.slot, e.rec)
    ensures var next := Next(s, Next(s, st, e), Reboot);
            && ReadAll(s, next.chip.mem, next.fat, e.slot, None, mask, room) == Done(e.rec.data)
            && next.fat[e.slot].uuid == old_.uuid
  {
    hide Run, FatOn, WriteOps, ReadAll, SlotAt, HeaderWords, SomeForgery, HeaderReadable, BitAnd, BodyOps, HeaderOps;
    WritePrefix(s, st.chip, st.fat, e.slot, e.rec, e.cut);
    RebootKeepsChip(s, Next(s, st, e));
    IncompleteWriteRead(s, st, e, old_, mask, room);
    FullHeader(s, Next(s, st, e).chip.mem, e, HeaderWords(s, e.slot, e.rec, e.cut));
  }

  /** Nor is the file of another slot safe: after an interrupted write and a reboot it is readable
      if and only if power was lost before the FAT page was erased or after the file's own entry,
      the t-th, had been programmed again. */
  lemma OtherFileSurvives(s: Suite, st: Sys, e: Event, t: nat, old_: Rec, mask: nat, room: nat)
    requires Lawful(s) && IsSys(st) && IsRec(old_) && e.Write? && Enabled(s, st, e) && e.slot != t
    requires Holds(s, st, t, old_, false) && BitAnd(mask, old_.group) != 0 && |old_.data| <= room
    ensures var next := Next(s, Next(s, st, e), Reboot);
            ReadAll(s, next.chip.mem, next.fat, t, None, mask, room) == Done(old_.data)
            <==> e.cut <= |RecordOps(s, e.slot, e.rec)| || e.cut >= |RecordOps(s, e.slot, e.rec)| + 3 * t + 4
  {
    hide Run, FatOn, WriteOps, ReadAll, SlotAt, RecordOps, PageOps, EntryOf;
    var next := Next(s, Next(s, st, e), Reboot);
    NoOps(Next(s, st, e).chip);
    NextHolds(s, st, e, t, old_, true);
    EntryAfterCut(s, st, e, t);
    EntryOfIsEntry(t, old_);
    if next.fat[t].addr != EMPTY {
      ReadComplete(s, next.chip.mem, next.fat, t, old_, None, mask, room);
    } else {
      EmptyUnreadable(s, next.chip.mem, next.fat, t, None, mask, room);
    }
  }

  lemma EntryAfterCut(s: Suite, st: Sys, e: Event, t: nat)
    requires Lawful(s) && IsSys(st) && e.Write? && Enabled(s, st, e) && t < SLOTS
    ensures var k, now := e.cut - |RecordOps(s, e.slot, e.rec)|, FatOn(Next(s, st, e).chip.mem)[t];
            if k <= 0 then now == FatOn(st.chip.mem)[t]
            else if k >= 3 * t + 4 then now == st.fat[e.slot := EntryOf(e.slot, e.rec)][t]
            else now.addr == EMPTY
  {
    hide Run, FatOn, WriteOps, RecordOps, PageOps, EntryOf;
    var rec, table := RecordOps(s, e.slot, e.rec), st.fat[e.slot := EntryOf(e.slot, e.rec)];
    WriteEndsWithFat(s, st.fat, e.slot, e.rec);
    CutInFat(st.chip, WriteOps(s, st.fat, e.slot, e.rec), rec, table, e.cut);
    if e.cut <= |rec| {
      FatKept(st.chip, rec[..e.cut]);
    } else {
      TornFat(Run(st.chip, rec), table, e.cut - |rec|, t);
    }
  }

  /** An operation that ends with a FAT rewrite, cut before or within that rewrite. */
  lemma CutInFat(c: Chip, ops: seq<Op>, front: seq<Op>, fat: seq<FatEntry>, cut: nat)
    requires IsChip(c) && EndsWithFat(ops, front, fat) && cut <= |ops|
    ensures AllInRange(ops[..cut]) && AllInRange(FatOps(fat))
    ensures cut <= |front| ==> ops[..cut] == front[..cut]
    ensures cut > |front| ==> cut - |front| <= |FatOps(fat)| && AllInRange(FatOps(fat)[..cut - |front|])
                              && Run(c, ops[..cut]) == Run(Run(c, front), FatOps(fat)[..cut - |front|])
  {
    hide Run, FatOps, IsFat, InRange, AllAvoid;
    FatWithin(fat);
    Prefix2(front, FatOps(fat), cut);
    if cut > |front| {
      RunConcat(c, front, FatOps(fat)[..cut - |front|]);
    }
  }

  lemma EmptyUnreadable(s: Suite, mem: bytes, fat: seq<FatEntry>, t: nat, pin: Option<bytes>, mask: nat, room: nat)
    requires |mem| == FLASH_SIZE && IsFat(fat) && t < SLOTS && fat[t].addr == EMPTY
    ensures ReadAll(s, mem, fat, t, pin, mask, room) == Fail(NotFound)
  {
  }

  // ---- the write-once rule over runs ----

  ghost function Log(s: Suite, st: Sys, run: seq<Event>): seq<Op>
    requires Lawful(s) && IsSys(st) && IsRun(s, st, run)
  {
    if run == [] then []
    else Log(s, st, run[..|run| - 1]) + OpsOf(s, After(s, st, run[..|run| - 1]), run[|run| - 1])
  }

  lemma PrefixObeysRule(c: Chip, ops: seq<Op>, k: nat)
    requires IsChip(c) && AllInRange(ops) && WriteOnce(c, ops) && k <= |ops|
    ensures AllInRange(ops[..k]) && WriteOnce(c, ops[..k])
  {
    forall i | 0 <= i < k
      ensures Legal(Run(c, ops[..k][..i]), ops[..k][i])
    {
      assert ops[..k][..i] == ops[..i];
    }
  }

  lemma EventObeysRule(s: Suite, st: Sys, e: Event)
    requires Lawful(s) && IsSys(st) && Enabled(s, st, e)
    ensures AllInRange(OpsOf(s, st, e)) && WriteOnce(st.chip, OpsOf(s, st, e))
  {
    hide WriteOps, DeleteOps, PageOps, WriteOnce;
    match e
    case Write(slot, r, cut) =>
      WriteObeysRule(s, st.chip, st.fat, slot, r);
      PrefixObeysRule(st.chip, WriteOps(s, st.fat, slot, r), cut);
    case Delete(slot, cut) =>
      DeleteObeysRule(st.chip, st.fat, slot);
      PrefixObeysRule(st.chip, DeleteOps(st.fat, slot), cut);
    case Elsewhere(page, data, cut) =>
      PageWriteOnce(st.chip, page, data);
      PageWithin(page, data);
      PrefixObeysRule(st.chip, PageOps(page, data), cut);
    case Reboot =>
      NoOps(st.chip);
  }

  /** In every run of record, FAT, name-table and PIN updates, cut anywhere, each word that is
      programmed had been erased and not programmed since. */
  lemma {:induction false} RunObeysRule(s: Suite, st: Sys, run: seq<Event>)
    requires Lawful(s) && IsSys(st) && IsRun(s, st, run)
    ensures AllInRange(Log(s, st, run)) && WriteOnce(st.chip, Log(s, st, run))
    ensures Run(st.chip, Log(s, st, run)) == After(s, st, run).chip
    decreases |run|
  {
    hide WriteOnce, OpsOf, Enabled;
    if run == [] {
      NoOps(st.chip);
    } else {
      var front := run[..|run| - 1];
      RunObeysRule(s, st, front);
      var mid, e := After(s, st, front), run[|run| - 1];
      EventObeysRule(s, mid, e);
      OpsInRange(s, mid, e);
      RunConcat(st.chip, Log(s, st, front), OpsOf(s, mid, e));
      WriteOnceConcat(st.chip, Log(s, st, front), OpsOf(s, mid, e));
    }
  }

  /** Every command of an event lies in the slot, or in the page, that the event updates. */
  lemma EventConfined(s: Suite, st: Sys, e: Event)
    requires Lawful(s) && IsSys(st) && Enabled(s, st, e)
    ensures forall i :: 0 <= i < |OpsOf(s, st, e)| ==>
              var op := OpsOf(s, st, e)[i];
              if e.Elsewhere? then Within(op, e.page, e.page + 1024)
              else !e.Reboot? && (Within(op, SlotBase(e.slot), SlotBase(e.slot) + 12288) || Within(op, FAT_ADDR, FAT_ADDR + 1024))
  {
    hide RecordOps, EraseOps, PageOps, FatPage;
    match e
    case Write(slot, r, cut) =>
      RecordConfined(s, slot, r);
      EntryOfIsEntry(slot, r);
      FatWithin(st.fat[slot := EntryOf(slot, r)]);
    case Delete(slot, cut) =>
      EraseWithin(slot);
      FatWithin(st.fat[slot := ERASED_ENTRY]);
    case Elsewhere(page, data, cut) =>
      PageWithin(page, data);
    case Reboot =>
      assert OpsOf(s, st, e) == [];
  }
}
