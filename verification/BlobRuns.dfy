/** Whole runs of the blob store: writes and deletes that may be cut by a power loss after any flash
    command, reboots, and updates of the name and PIN pages. */
module BlobRuns {
  import opened Bytes
  import opened Flash
  import opened BlobModel
  import opened BlobFlash
  import opened BlobRead
  import opened Wrappers

  /** The chip, the RAM copy of the FAT, and per slot the record of the last write that began
      erasing it (None when a delete came later, or nothing was ever written). */
  datatype Sys = Sys(chip: Chip, fat: seq<FatEntry>, last: seq<Option<Rec>>)

  const NAME_ADDR: nat := 0x3A400
  const PIN_ADDR: nat := 0x3A800

  /** The eight slots, the FAT page, the name page and the PIN page follow each other without a gap. */
  lemma Layout(slot: nat)
    requires slot < SLOTS
    ensures SlotBase(0) == 0x22000 && SlotBase(slot + 1) == SlotBase(slot) + 12 * 1024 && SlotBase(slot) % 1024 == 0
    ensures SlotBase(SLOTS) == FAT_ADDR && FAT_ADDR + 1024 == NAME_ADDR && NAME_ADDR + 1024 == PIN_ADDR && PIN_ADDR + 1024 <= FLASH_SIZE
  {
  }

  /** cut is the number of flash commands that took effect; fewer than all of them mean a power cut
      or a flash fault. Elsewhere is a rewrite of the name table or of the PIN page. */
  datatype Event =
    | Write(slot: nat, rec: Rec, cut: nat)
    | Delete(slot: nat, cut: nat)
    | Elsewhere(page: nat, data: bytes, cut: nat)
    | Reboot

  ghost predicate IsSys(st: Sys) {
    IsChip(st.chip) && IsFat(st.fat) && |st.last| == SLOTS
  }

  ghost predicate Enabled(s: Suite, st: Sys, e: Event)
    requires IsSys(st)
  {
    match e
    case Write(slot, r, cut) =>
      slot < SLOTS && IsRec(r) && |r.data| <= MAX_CONTENTS && cut <= |WriteOps(s, st.fat, slot, r)|
    case Delete(slot, cut) => slot < SLOTS && st.fat[slot].addr != EMPTY && cut <= |DeleteOps(st.fat, slot)|
    case Elsewhere(page, data, cut) => page in {NAME_ADDR, PIN_ADDR} && |data| == 1024 && cut <= 129
    case Reboot => true
  }

  /** The flash commands an event issues. */
  ghost function OpsOf(s: Suite, st: Sys, e: Event): seq<Op>
    requires IsSys(st) && Enabled(s, st, e)
  {
    match e
    case Write(slot, r, cut) => WriteOps(s, st.fat, slot, r)[..cut]
    case Delete(slot, cut) => DeleteOps(st.fat, slot)[..cut]
    case Elsewhere(page, data, cut) => PageOps(page, data)[..cut]
    case Reboot => []
  }

  lemma OpsInRange(s: Suite, st: Sys, e: Event)
    requires Lawful(s) && IsSys(st) && Enabled(s, st, e)
    ensures AllInRange(OpsOf(s, st, e))
  {
    hide WriteOps, DeleteOps, PageOps;
    match e
    case Write(slot, r, cut) => WriteInRange(s, st.fat, slot, r);
    case Delete(slot, cut) => DeleteInRange(st.fat, slot);
    case Elsewhere(page, data, cut) => PageWithin(page, data);
    case Reboot =>
  }

  ghost function Next(s: Suite, st: Sys, e: Event): (r: Sys)
    requires Lawful(s) && IsSys(st) && Enabled(s, st, e)
    ensures IsSys(r)
  {
    OpsInRange(s, st, e);
    var chip := Run(st.chip, OpsOf(s, st, e));
    match e
    case Write(slot, r, cut) =>
      EntryOfIsEntry(slot, r);
      Sys(chip,
          if cut == |WriteOps(s, st.fat, slot, r)| then st.fat[slot := EntryOf(slot, r)] else st.fat,
          if cut > 0 then st.last[slot := Some(r)] else st.last)
    case Delete(slot, cut) =>
      Sys(chip,
          if cut == |DeleteOps(st.fat, slot)| then st.fat[slot := ERASED_ENTRY] else st.fat,
          if cut > 0 then st.last[slot := None] else st.last)
    case Elsewhere(page, data, cut) => Sys(chip, st.fat, st.last)
    case Reboot => FatOnIsFat(chip.mem); Sys(chip, FatOn(chip.mem), st.last)
  }

  lemma FatOnIsFat(mem: bytes)
    requires |mem| == FLASH_SIZE
    ensures IsFat(FatOn(mem))
  {
    hide Un;
    forall i | 0 <= i < SLOTS
      ensures IsEntry(FatOn(mem)[i])
    {
      var b := mem[FAT_ADDR + 24 * i..FAT_ADDR + 24 * i + 24];
      UnLe(b[16..18]);
      UnLe(b[18..20]);
      UnLe(b[20..24]);
      assert Pow256(2) == 0x1_0000 && Pow256(4) == 0x1_0000_0000 by { FieldBounds(); }
    }
  }

  lemma FieldBounds()
    ensures Pow256(2) == 0x1_0000 && Pow256(4) == 0x1_0000_0000
  {
    assert Pow256(1) == 256 && Pow256(3) == 0x100_0000;
  }

  /** A factory-fresh device: no slot holds a header. */
  ghost predicate Factory(st: Sys) {
    && IsSys(st) && st.fat == FatOn(st.chip.mem)
    && forall t :: 0 <= t < SLOTS ==> st.last[t] == None && HeaderBlank(st.chip.mem, t)
  }

  ghost predicate IsRun(s: Suite, st: Sys, run: seq<Event>)
    requires Lawful(s) && IsSys(st)
    decreases |run|, 0
  {
    run == [] || (IsRun(s, st, run[..|run| - 1]) && Enabled(s, After(s, st, run[..|run| - 1]), run[|run| - 1]))
  }

  ghost function After(s: Suite, st: Sys, run: seq<Event>): (r: Sys)
    requires Lawful(s) && IsSys(st) && IsRun(s, st, run)
    ensures IsSys(r)
    decreases |run|, 1
  {
    if run == [] then st else Next(s, After(s, st, run[..|run| - 1]), run[|run| - 1])
  }

  /** Power is lost only between driver calls: the first 64 header bytes are then all there or not. */
  ghost predicate BetweenCalls(s: Suite, e: Event) {
    e.Write? ==> !(0 < HeaderWords(s, e.slot, e.rec, e.cut) < 8)
  }

  // ---- the invariant ----

  ghost predicate SlotOk(s: Suite, mem: bytes, slot: nat, last: Option<Rec>, coarse: bool)
    requires |mem| == FLASH_SIZE && slot < SLOTS
  {
    match last
    case None => HeaderBlank(mem, slot)
    case Some(r) => IsRec(r) && exists j :: SlotAt(s, mem, slot, r, j) && (coarse ==> j == 0 || 8 <= j)
  }

  ghost predicate Inv(s: Suite, st: Sys, coarse: bool)
    requires IsSys(st)
  {
    forall t :: 0 <= t < SLOTS ==> SlotOk(s, st.chip.mem, t, st.last[t], coarse)
  }

  lemma SlotKept(s: Suite, c: Chip, d: Chip, slot: nat, last: Option<Rec>, coarse: bool)
    requires IsChip(c) && IsChip(d) && slot < SLOTS && SlotOk(s, c.mem, slot, last, coarse)
    requires forall i :: SlotBase(slot) <= i < SlotBase(slot) + 12288 ==> c.mem[i] == d.mem[i]
    ensures SlotOk(s, d.mem, slot, last, coarse)
  {
    hide BodyStored, HeaderBytes, HeaderOf;
    if last.Some? {
      var j :| SlotAt(s, c.mem, slot, last.value, j) && (coarse ==> j == 0 || 8 <= j);
      SlotAtKept(s, c, d, slot, last.value, j);
    }
  }

  lemma SlotAtKept(s: Suite, c: Chip, d: Chip, slot: nat, r: Rec, j: nat)
    requires IsChip(c) && IsChip(d) && slot < SLOTS && SlotAt(s, c.mem, slot, r, j)
    requires forall i :: SlotBase(slot) <= i < SlotBase(slot) + 12288 ==> c.mem[i] == d.mem[i]
    ensures SlotAt(s, d.mem, slot, r, j)
  {
    hide BodyStored, HeaderBytes, HeaderOf;
    if j != 0 {
      BodyKept(s, c, d, slot, r, ChunkCount(|r.data|));
    }
  }

  /** Commands confined to another slot, to the FAT page or to later pages leave slot t alone. */
  lemma Untouched(c: Chip, ops: seq<Op>, t: nat)
    requires IsChip(c) && t < SLOTS && AllInRange(ops) && AllAvoid(ops, SlotBase(t), SlotBase(t) + 12288)
    ensures forall i :: SlotBase(t) <= i < SlotBase(t) + 12288 ==> c.mem[i] == Run(c, ops).mem[i]
  {
    Frame(c, ops, SlotBase(t), SlotBase(t) + 12288);
  }

  lemma WriteAvoids(s: Suite, fat: seq<FatEntry>, slot: nat, r: Rec, t: nat)
    requires Lawful(s) && IsFat(fat) && slot < SLOTS && IsRec(r) && |r.data| <= MAX_CONTENTS && t < SLOTS && t != slot
    ensures AllInRange(WriteOps(s, fat, slot, r))
    ensures AllAvoid(WriteOps(s, fat, slot, r), SlotBase(t), SlotBase(t) + 12288)
  {
    hide RecordOps, FatOps;
    WriteInRange(s, fat, slot, r);
    RecordConfined(s, slot, r);
    FatWithin(fat[slot := EntryOf(slot, r)]);
  }

  lemma DeleteAvoids(fat: seq<FatEntry>, slot: nat, t: nat)
    requires IsFat(fat) && slot < SLOTS && t < SLOTS && t != slot
    ensures AllInRange(DeleteOps(fat, slot))
    ensures AllAvoid(DeleteOps(fat, slot), SlotBase(t), SlotBase(t) + 12288)
  {
    hide EraseOps, FatOps;
    DeleteInRange(fat, slot);
    EraseWithin(slot);
    FatWithin(fat[slot := ERASED_ENTRY]);
  }

  lemma FatAvoids(fat: seq<FatEntry>, t: nat)
    requires IsFat(fat) && t < SLOTS
    ensures AllInRange(FatOps(fat)) && AllAvoid(FatOps(fat), SlotBase(t), SlotBase(t) + 12288)
  {
    hide FatOps;
    FatWithin(fat);
  }

  /** A write of slot t cut after k >= 1 commands leaves t with the record begun, as far as the
      header got. */
  lemma WritePrefix(s: Suite, c: Chip, fat: seq<FatEntry>, slot: nat, r: Rec, k: nat)
    requires Lawful(s) && IsChip(c) && IsFat(fat) && slot < SLOTS && IsRec(r) && |r.data| <= MAX_CONTENTS
    requires 1 <= k <= |WriteOps(s, fat, slot, r)|
    ensures AllInRange(WriteOps(s, fat, slot, r)[..k])
    ensures SlotAt(s, Run(c, WriteOps(s, fat, slot, r)[..k]).mem, slot, r, HeaderWords(s, slot, r, k))
  {
    hide EraseOps, BodyOps, HeaderOps, FatOps, Run, SlotAt;
    var rec, tail := RecordOps(s, slot, r), FatOps(fat[slot := EntryOf(slot, r)]);
    WriteInRange(s, fat, slot, r);
    HeaderWithin(s, slot, r);
    Prefix2(rec, tail, k);
    if k <= |rec| {
      RecordPrefix(s, c, slot, r, k);
    } else {
      RecordPrefix(s, c, slot, r, |rec|);
      assert rec[..|rec|] == rec;
      FatAvoids(fat[slot := EntryOf(slot, r)], slot);
      RunConcat(c, rec, tail[..k - |rec|]);
      Untouched(Run(c, rec), tail[..k - |rec|], slot);
      SlotAtKept(s, Run(c, rec), Run(c, rec + tail[..k - |rec|]), slot, r, 12);
    }
  }

  lemma DeletePrefix(c: Chip, fat: seq<FatEntry>, slot: nat, k: nat)
    requires IsChip(c) && IsFat(fat) && slot < SLOTS && 1 <= k <= |DeleteOps(fat, slot)|
    ensures AllInRange(DeleteOps(fat, slot)[..k])
    ensures HeaderBlank(Run(c, DeleteOps(fat, slot)[..k]).mem, slot)
  {
    hide EraseOps, FatOps, Run;
    var rec, tail := EraseOps(slot), FatOps(fat[slot := ERASED_ENTRY]);
    DeleteInRange(fat, slot);
    Prefix2(rec, tail, k);
    if k <= 12 {
      EraseEffect(c, slot, k);
    } else {
      EraseEffect(c, slot, 12);
      assert rec[..12] == rec;
      FatAvoids(fat[slot := ERASED_ENTRY], slot);
      RunConcat(c, rec, tail[..k - 12]);
      Untouched(Run(c, rec), tail[..k - 12], slot);
    }
  }

  lemma NextKeepsInv(s: Suite, st: Sys, e: Event, coarse: bool)
    requires Lawful(s) && IsSys(st) && Enabled(s, st, e) && Inv(s, st, coarse) && (coarse ==> BetweenCalls(s, e))
    ensures Inv(s, Next(s, st, e), coarse)
  {
    hide WriteOps, DeleteOps, Run, SlotAt, IsRec, HeaderWords;
    OpsInRange(s, st, e);
    var next := Next(s, st, e);
    forall t | 0 <= t < SLOTS
      ensures SlotOk(s, next.chip.mem, t, next.last[t], coarse)
    {
      NextKeepsSlot(s, st, e, coarse, t);
    }
  }

  lemma NextKeepsSlot(s: Suite, st: Sys, e: Event, coarse: bool, t: nat)
    requires Lawful(s) && IsSys(st) && Enabled(s, st, e) && (coarse ==> BetweenCalls(s, e)) && t < SLOTS
    requires SlotOk(s, st.chip.mem, t, st.last[t], coarse)
    ensures SlotOk(s, Next(s, st, e).chip.mem, t, Next(s, st, e).last[t], coarse)
  {
    hide WriteOps, DeleteOps, PageOps, Run, SlotAt, IsRec, HeaderWords, FatOn, EntryOf, HeaderBlank;
    OpsInRange(s, st, e);
    var ops := OpsOf(s, st, e);
    if e.Write? && e.slot == t && e.cut > 0 {
      WritePrefix(s, st.chip, st.fat, t, e.rec, e.cut);
    } else if e.Delete? && e.slot == t && e.cut > 0 {
      DeletePrefix(st.chip, st.fat, t, e.cut);
    } else {
      assert AllAvoid(ops, SlotBase(t), SlotBase(t) + 12288) by {
        if e.Write? && e.slot != t {
          WriteAvoids(s, st.fat, e.slot, e.rec, t);
        } else if e.Delete? && e.slot != t {
          DeleteAvoids(st.fat, e.slot, t);
        } else if e.Elsewhere? {
          PageWithin(e.page, e.data);
        }
      }
      Untouched(st.chip, ops, t);
      SlotKept(s, st.chip, Run(st.chip, ops), t, st.last[t], coarse);
    }
  }

  lemma {:induction false} RunKeepsInv(s: Suite, st: Sys, run: seq<Event>, coarse: bool)
    requires Lawful(s) && Factory(st) && IsRun(s, st, run)
    requires coarse ==> forall i :: 0 <= i < |run| ==> BetweenCalls(s, run[i])
    ensures Inv(s, After(s, st, run), coarse)
    decreases |run|
  {
    hide Next, Enabled, BetweenCalls;
    if run != [] {
      RunKeepsInv(s, st, run[..|run| - 1], coarse);
      NextKeepsInv(s, After(s, st, run[..|run| - 1]), run[|run| - 1], coarse);
    }
  }

  // ---- crash safety ----

  /** In every run, a successful read of a slot returns, in full, the data of the last write that
      began erasing the slot; a torn or mixed file would need the AEAD to accept a forgery. */
  lemma CrashSafety(s: Suite, st: Sys, run: seq<Event>, slot: nat, pin: Option<bytes>, mask: nat, room: nat)
    requires Lawful(s) && Factory(st) && IsRun(s, st, run) && slot < SLOTS
    ensures var end := After(s, st, run);
            var got := ReadAll(s, end.chip.mem, end.fat, slot, pin, mask, room);
            got.Done? ==> end.last[slot].Some?
                          && (got.value == end.last[slot].value.data || SomeForgery(s, slot, end.last[slot].value))
  {
    hide ReadAll, Forged;
    var end := After(s, st, run);
    RunKeepsInv(s, st, run, false);
    assert SlotOk(s, end.chip.mem, slot, end.last[slot], false);
    if end.last[slot] == None {
      UnwrittenUnreadable(s, end.chip.mem, end.fat, slot, pin, mask, room);
    } else {
      var j :| SlotAt(s, end.chip.mem, slot, end.last[slot].value, j);
      ReadTorn(s, end.chip.mem, end.fat, slot, end.last[slot].value, j, pin, mask, room);
    }
  }

  /** When power is lost only between driver calls, no assumption on the AEAD is left. */
  lemma CrashSafetyBetweenCalls(s: Suite, st: Sys, run: seq<Event>, slot: nat, pin: Option<bytes>, mask: nat, room: nat)
    requires Lawful(s) && Factory(st) && IsRun(s, st, run) && slot < SLOTS
    requires forall i :: 0 <= i < |run| ==> BetweenCalls(s, run[i])
    ensures var end := After(s, st, run);
            var got := ReadAll(s, end.chip.mem, end.fat, slot, pin, mask, room);
            got.Done? ==> end.last[slot].Some? && got.value == end.last[slot].value.data
  {
    hide ReadAll, Forged, BetweenCalls;
    var end := After(s, st, run);
    RunKeepsInv(s, st, run, true);
    assert SlotOk(s, end.chip.mem, slot, end.last[slot], true);
    if end.last[slot] == None {
      UnwrittenUnreadable(s, end.chip.mem, end.fat, slot, pin, mask, room);
    } else {
      var j :| SlotAt(s, end.chip.mem, slot, end.last[slot].value, j) && (j == 0 || 8 <= j);
      ReadTorn(s, end.chip.mem, end.fat, slot, end.last[slot].value, j, pin, mask, room);
    }
  }

  lemma UnwrittenUnreadable(s: Suite, mem: bytes, fat: seq<FatEntry>, slot: nat, pin: Option<bytes>, mask: nat, room: nat)
    requires |mem| == FLASH_SIZE && IsFat(fat) && slot < SLOTS && HeaderBlank(mem, slot)
    ensures ReadAll(s, mem, fat, slot, pin, mask, room).Fail?
  {
    UnstartedUnreadable(s, mem, fat, slot, Rec([], [], [], 0, []), 0);
  }
}
