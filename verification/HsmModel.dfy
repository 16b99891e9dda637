/** The two tables of the command layer, their flash pages, and the file map they stand for. */
module HsmModel {
  import opened Bytes
  import opened Flash
  import opened BlobModel
  import opened BlobFlash
  import opened BlobRead
  import opened BlobRuns
  import opened BlobTheorems
  import opened Wrappers

  // ---- the name and group table ----

  /** blob_name_entry_t: 64 packed bytes. */
  datatype NameEntry = NameEntry(name: bytes, group: nat, inUse: byte, reserved: bytes)

  predicate IsName(e: NameEntry) {
    |e.name| == 32 && e.group < 0x1_0000 && |e.reserved| == 29
  }

  predicate IsNames(names: seq<NameEntry>) {
    |names| == SLOTS && forall i :: 0 <= i < SLOTS ==> IsName(names[i])
  }

  const IN_USE: byte := 1

  const ERASED_NAME: NameEntry := NameEntry(Fill(255, 32), 0xFFFF, 255, Fill(255, 29))

  /** save_name_entry forces the last byte of a name to NUL. */
  function Terminated(name: bytes): (r: bytes)
    requires |name| == 32
    ensures |r| == 32
  {
    name[..31] + [0]
  }

  function SavedName(name: bytes, group: nat): NameEntry
    requires |name| == 32
  {
    NameEntry(Terminated(name), group, IN_USE, Fill(255, 29))
  }

  /** The 64 bytes of a saved entry. */
  lemma SavedBytes(name: bytes, group: nat)
    requires |name| == 32
    ensures NameBytes(SavedName(name, group)) == name[..31] + [0] + Le(group, 2) + [1] + Fill(255, 29)
  {
  }

  function NameBytes(e: NameEntry): bytes {
    e.name + Le(e.group, 2) + [e.inUse] + e.reserved
  }

  function ParseName(b: bytes): NameEntry
    requires |b| == 64
  {
    NameEntry(b[..32], Un(b[32..34]), b[34], b[35..64])
  }

  function TableBytes(names: seq<NameEntry>): bytes {
    if names == [] then [] else TableBytes(names[..|names| - 1]) + NameBytes(names[|names| - 1])
  }

  function NamePage(names: seq<NameEntry>): bytes {
    TableBytes(names) + Fill(255, 512)
  }

  function NamesOn(mem: bytes): seq<NameEntry>
    requires |mem| == FLASH_SIZE
  {
    seq(SLOTS, i requires 0 <= i < SLOTS => ParseName(mem[NAME_ADDR + 64 * i..NAME_ADDR + 64 * i + 64]))
  }

  lemma NamesOnIsNames(mem: bytes)
    requires |mem| == FLASH_SIZE
    ensures IsNames(NamesOn(mem))
  {
    hide Un;
    forall i | 0 <= i < SLOTS
      ensures IsName(NamesOn(mem)[i])
    {
      UnLe(mem[NAME_ADDR + 64 * i..NAME_ADDR + 64 * i + 64][32..34]);
      FieldBounds();
    }
  }

  lemma ParseOfName(e: NameEntry)
    requires IsName(e)
    ensures |NameBytes(e)| == 64 && ParseName(NameBytes(e)) == e
  {
    hide Un, Le;
    var b := NameBytes(e);
    assert b[..32] == e.name && b[32..34] == Le(e.group, 2) && b[35..64] == e.reserved;
    Field16(e.group);
  }

  lemma {:induction false} TableBytesSize(names: seq<NameEntry>)
    requires forall k :: 0 <= k < |names| ==> IsName(names[k])
    ensures |TableBytes(names)| == 64 * |names|
    decreases |names|
  {
    if names != [] {
      TableBytesSize(names[..|names| - 1]);
    }
  }

  lemma {:induction false} TableBytesAt(names: seq<NameEntry>, i: nat)
    requires forall k :: 0 <= k < |names| ==> IsName(names[k])
    requires i < |names|
    ensures |TableBytes(names)| == 64 * |names| && TableBytes(names)[64 * i..64 * i + 64] == NameBytes(names[i])
    decreases |names|
  {
    TableBytesSize(names);
    TableBytesSize(names[..|names| - 1]);
    if i < |names| - 1 {
      TableBytesAt(names[..|names| - 1], i);
    }
  }

  /** Loading the name page gives the table that was flushed. */
  lemma NamesRoundTrip(mem: bytes, names: seq<NameEntry>)
    requires |mem| == FLASH_SIZE && IsNames(names)
    requires |NamePage(names)| == 1024 && mem[NAME_ADDR..NAME_ADDR + 1024] == NamePage(names)
    ensures NamesOn(mem) == names
  {
    hide NameBytes, ParseName, TableBytes;
    forall i | 0 <= i < SLOTS
      ensures NamesOn(mem)[i] == names[i]
    {
      TableBytesAt(names, i);
      ParseOfName(names[i]);
      SubSlice(mem, NAME_ADDR, 1024, 64 * i, 64 * i + 64);
      assert NamePage(names)[64 * i..64 * i + 64] == TableBytes(names)[64 * i..64 * i + 64];
    }
  }

  lemma NamesKept(c: Chip, d: Chip)
    requires IsChip(c) && IsChip(d) && SameOn(c, d, NAME_ADDR, NAME_ADDR + 1024)
    ensures NamesOn(d.mem) == NamesOn(c.mem)
  {
    hide ParseName;
    forall i | 0 <= i < SLOTS
      ensures NamesOn(d.mem)[i] == NamesOn(c.mem)[i]
    {
      assert d.mem[NAME_ADDR + 64 * i..NAME_ADDR + 64 * i + 64] == c.mem[NAME_ADDR + 64 * i..NAME_ADDR + 64 * i + 64];
    }
  }

  // ---- the file map ----

  datatype File = File(name: bytes, group: nat, uuid: bytes, owner: bytes, contents: bytes)

  /** slot_occupied */
  predicate Occupied(fat: seq<FatEntry>, names: seq<NameEntry>, slot: nat)
    requires |fat| == SLOTS && |names| == SLOTS
  {
    slot < SLOTS && names[slot].inUse == IN_USE && fat[slot].addr != EMPTY
  }

  /** A slot with a FAT entry holds its last record completely. */
  ghost predicate SlotHolds(s: Suite, st: Sys, t: nat)
    requires IsSys(st) && t < SLOTS
  {
    st.fat[t].addr != EMPTY ==>
      st.last[t].Some? && IsRec(st.last[t].value) && Holds(s, st, t, st.last[t].value, false)
  }

  /** Both RAM tables equal their flash pages, the name of every occupied slot ends with NUL, and every
      FAT entry leads to a complete record. */
  ghost predicate Intact(s: Suite, st: Sys, names: seq<NameEntry>) {
    && IsSys(st) && IsNames(names)
    && FatOn(st.chip.mem) == st.fat && NamesOn(st.chip.mem) == names
    && (forall t :: 0 <= t < SLOTS && Occupied(st.fat, names, t) ==> names[t].name[31] == 0)
    && forall t :: 0 <= t < SLOTS ==> SlotHolds(s, st, t)
  }

  /** The header group of every occupied slot, other than one, is its name-table group. */
  ghost predicate GroupsMatch(st: Sys, names: seq<NameEntry>, except: nat)
    requires IsSys(st) && IsNames(names)
  {
    forall t :: 0 <= t < SLOTS && t != except && Occupied(st.fat, names, t) ==>
      st.last[t].Some? && st.last[t].value.group == names[t].group
  }

  ghost predicate IntactBut(s: Suite, st: Sys, names: seq<NameEntry>, slot: nat) {
    Intact(s, st, names) && GroupsMatch(st, names, slot)
  }

  ghost predicate Agree(s: Suite, st: Sys, names: seq<NameEntry>) {
    Intact(s, st, names) && GroupsMatch(st, names, SLOTS)
  }

  ghost function FileAt(st: Sys, names: seq<NameEntry>, t: nat): File
    requires IsSys(st) && IsNames(names) && t < SLOTS && st.last[t].Some?
  {
    var r := st.last[t].value;
    File(names[t].name, names[t].group, r.uuid, r.owner, r.data)
  }

  ghost function Files(s: Suite, st: Sys, names: seq<NameEntry>): map<nat, File>
    requires Intact(s, st, names)
  {
    map t: nat | t < SLOTS && Occupied(st.fat, names, t) :: (assert SlotHolds(s, st, t); FileAt(st, names, t))
  }

  // ---- what each part of a command does to the map ----

  lemma HoldsAfter(s: Suite, st: Sys, ops: seq<Op>, t: nat)
    requires IsSys(st) && t < SLOTS && SlotHolds(s, st, t)
    requires AllInRange(ops) && AllAvoid(ops, SlotBase(t), SlotBase(t) + 12288) && AllAvoid(ops, FAT_ADDR, FAT_ADDR + 1024)
    ensures SlotHolds(s, Sys(Run(st.chip, ops), st.fat, st.last), t)
  {
    hide Run, FatOn, SlotAt, IsRec;
    FatKept(st.chip, ops);
    Untouched(st.chip, ops, t);
    if st.fat[t].addr != EMPTY {
      SlotAtKept(s, st.chip, Run(st.chip, ops), t, st.last[t].value, 12);
    }
  }

  /** A rewrite of the PIN page, or no flash change at all, keeps everything. */
  lemma ElsewhereAgrees(s: Suite, st: Sys, names: seq<NameEntry>, ops: seq<Op>)
    requires Agree(s, st, names) && AllInRange(ops) && AllWithin(ops, PIN_ADDR, PIN_ADDR + 1024)
    ensures var end := Sys(Run(st.chip, ops), st.fat, st.last);
            Agree(s, end, names) && Files(s, end, names) == Files(s, st, names)
  {
    hide Run, FatOn, NamesOn, SlotHolds;
    var end := Sys(Run(st.chip, ops), st.fat, st.last);
    FatKept(st.chip, ops);
    Frame(st.chip, ops, NAME_ADDR, NAME_ADDR + 1024);
    NamesKept(st.chip, end.chip);
    forall t: nat | t < SLOTS
      ensures SlotHolds(s, end, t)
    {
      HoldsAfter(s, st, ops, t);
    }
  }

  /** After a name-table flush that replaced entry t. */
  lemma FlushAgrees(s: Suite, st: Sys, names: seq<NameEntry>, t: nat, e: NameEntry)
    requires Agree(s, st, names) && t < SLOTS && IsName(e) && (e.inUse == IN_USE ==> e.name[31] == 0)
    ensures IsNames(names[t := e]) && |NamePage(names[t := e])| == 1024
    ensures AllInRange(PageOps(NAME_ADDR, NamePage(names[t := e])))
    ensures var end := Sys(Run(st.chip, PageOps(NAME_ADDR, NamePage(names[t := e]))), st.fat, st.last);
            && IntactBut(s, end, names[t := e], t)
            && Files(s, end, names[t := e]) - {t} == Files(s, st, names) - {t}
            && (e.inUse != IN_USE ==> Agree(s, end, names[t := e]) && t !in Files(s, end, names[t := e]))
  {
    hide Run, FatOn, NamesOn, SlotHolds, PageOps, NamePage;
    var table := names[t := e];
    NamePageSize(table);
    NamesInstalled(st.chip, table);
    var ops := PageOps(NAME_ADDR, NamePage(table));
    var end := Sys(Run(st.chip, ops), st.fat, st.last);
    FatKept(st.chip, ops);
    forall k: nat | k < SLOTS
      ensures SlotHolds(s, end, k)
    {
      assert SlotHolds(s, st, k);
      HoldsAfter(s, st, ops, k);
    }
  }

  /** The same when a write was refused after its name entry had been saved. */
  lemma UnflushAgrees(s: Suite, st: Sys, names: seq<NameEntry>, t: nat)
    requires IntactBut(s, st, names, t) && t < SLOTS
    ensures IsNames(names[t := ERASED_NAME]) && |NamePage(names[t := ERASED_NAME])| == 1024
    ensures AllInRange(PageOps(NAME_ADDR, NamePage(names[t := ERASED_NAME])))
    ensures var end := Sys(Run(st.chip, PageOps(NAME_ADDR, NamePage(names[t := ERASED_NAME]))), st.fat, st.last);
            && Agree(s, end, names[t := ERASED_NAME])
            && Files(s, end, names[t := ERASED_NAME]) == Files(s, st, names) - {t}
  {
    hide Run, FatOn, NamesOn, SlotHolds, PageOps, NamePage;
    var table := names[t := ERASED_NAME];
    NamePageSize(table);
    NamesInstalled(st.chip, table);
    var ops := PageOps(NAME_ADDR, NamePage(table));
    var end := Sys(Run(st.chip, ops), st.fat, st.last);
    FatKept(st.chip, ops);
    forall k: nat | k < SLOTS
      ensures SlotHolds(s, end, k)
    {
      assert SlotHolds(s, st, k);
      HoldsAfter(s, st, ops, k);
    }
  }

  lemma NamePageSize(names: seq<NameEntry>)
    requires IsNames(names)
    ensures |NamePage(names)| == 1024
  {
    TableBytesSize(names);
  }

  lemma NamesInstalled(c: Chip, names: seq<NameEntry>)
    requires IsChip(c) && IsNames(names)
    ensures |NamePage(names)| == 1024 && AllInRange(PageOps(NAME_ADDR, NamePage(names)))
    ensures AllWithin(PageOps(NAME_ADDR, NamePage(names)), NAME_ADDR, NAME_ADDR + 1024)
    ensures NamesOn(Run(c, PageOps(NAME_ADDR, NamePage(names))).mem) == names
  {
    hide Run, NamesOn, TableBytes, PageOps;
    NamePageSize(names);
    PageWithin(NAME_ADDR, NamePage(names));
    var ops := PageOps(NAME_ADDR, NamePage(names));
    assert ops[..129] == ops;
    PagePrefix(c, NAME_ADDR, NamePage(names), 129);
    var mem := Run(c, ops).mem;
    assert mem[NAME_ADDR..NAME_ADDR + 1024] == NamePage(names);
    NamesRoundTrip(mem, names);
  }

  /** A record write or delete that ran to its end leaves the name table alone. */
  lemma SlotEventKeepsNames(s: Suite, st: Sys, e: Event)
    requires Lawful(s) && IsSys(st) && Enabled(s, st, e) && (e.Write? || e.Delete?)
    ensures NamesOn(Next(s, st, e).chip.mem) == NamesOn(st.chip.mem)
  {
    hide WriteOps, DeleteOps, Run, NamesOn;
    EventConfined(s, st, e);
    OpsInRange(s, st, e);
    Frame(st.chip, OpsOf(s, st, e), NAME_ADDR, NAME_ADDR + 1024);
    NamesKept(st.chip, Next(s, st, e).chip);
  }

  lemma OtherSlotHolds(s: Suite, st: Sys, e: Event, t: nat)
    requires Lawful(s) && IsSys(st) && Enabled(s, st, e) && (e.Write? || e.Delete?) && Uncut(s, st, e)
    requires t < SLOTS && t != e.slot && SlotHolds(s, st, t)
    ensures SlotHolds(s, Next(s, st, e), t)
  {
    hide WriteOps, DeleteOps, Run, FatOn, SlotAt, IsRec;
    if st.fat[t].addr != EMPTY {
      NextHolds(s, st, e, t, st.last[t].value, false);
    }
  }

  lemma FatInstalled(s: Suite, st: Sys, e: Event)
    requires Lawful(s) && IsSys(st) && Enabled(s, st, e) && (e.Write? || e.Delete?) && Uncut(s, st, e)
    ensures FatOn(Next(s, st, e).chip.mem) == Next(s, st, e).fat
  {
    hide WriteOps, DeleteOps, Run, FatOn, RecordOps, EraseOps, PageOps;
    match e
    case Write(slot, r, cut) =>
      WriteEndsWithFat(s, st.fat, slot, r);
      FatAfter(st.chip, WriteOps(s, st.fat, slot, r), RecordOps(s, slot, r), st.fat[slot := EntryOf(slot, r)], cut, 0);
    case Delete(slot, cut) =>
      DeleteEndsWithFat(st.fat, slot);
      FatAfter(st.chip, DeleteOps(st.fat, slot), EraseOps(slot), st.fat[slot := ERASED_ENTRY], cut, 0);
  }

  /** A completed blob_write after the name entry was saved installs the file in the map. */
  lemma WriteAgrees(s: Suite, st: Sys, names: seq<NameEntry>, e: Event)
    requires Lawful(s) && IsSys(st) && e.Write? && Enabled(s, st, e) && Uncut(s, st, e)
    requires IntactBut(s, st, names, e.slot) && names[e.slot].inUse == IN_USE && names[e.slot].group == e.rec.group
    requires names[e.slot].name[31] == 0
    ensures var end := Next(s, st, e);
            && Agree(s, end, names)
            && Files(s, end, names) == Files(s, st, names)[e.slot := File(names[e.slot].name, e.rec.group, e.rec.uuid, e.rec.owner, e.rec.data)]
  {
    hide WriteOps, Run, NamesOn, FatOn, SlotAt, IsRec;
    var end := Next(s, st, e);
    SlotEventKeepsNames(s, st, e);
    FatInstalled(s, st, e);
    WriteHolds(s, st, e);
    WriteEndsAt(s, st, e);
    forall t: nat | t < SLOTS
      ensures SlotHolds(s, end, t)
    {
      if t != e.slot {
        assert SlotHolds(s, st, t);
        OtherSlotHolds(s, st, e, t);
      }
    }
  }

  lemma WriteEndsAt(s: Suite, st: Sys, e: Event)
    requires Lawful(s) && IsSys(st) && e.Write? && Enabled(s, st, e) && Uncut(s, st, e)
    ensures IsRec(e.rec) && Next(s, st, e).last == st.last[e.slot := Some(e.rec)]
    ensures Next(s, st, e).fat == st.fat[e.slot := EntryOf(e.slot, e.rec)] && EntryOf(e.slot, e.rec).addr != EMPTY
  {
    hide BodyOps, PageOps, FatPage;
    WriteLength(s, st.fat, e.slot, e.rec);
    EntryOfIsEntry(e.slot, e.rec);
  }

  /** A completed blob_delete takes the slot out of the map. */
  lemma DeleteAgrees(s: Suite, st: Sys, names: seq<NameEntry>, e: Event)
    requires Lawful(s) && Agree(s, st, names) && e.Delete? && Enabled(s, st, e) && Uncut(s, st, e)
    ensures var end := Next(s, st, e);
            && Agree(s, end, names) && end.fat[e.slot].addr == EMPTY
            && Files(s, end, names) == Files(s, st, names) - {e.slot}
  {
    hide DeleteOps, Run, NamesOn, FatOn, SlotAt, IsRec;
    var end := Next(s, st, e);
    SlotEventKeepsNames(s, st, e);
    FatInstalled(s, st, e);
    DeleteEndsAt(s, st, e);
    forall t: nat | t < SLOTS
      ensures SlotHolds(s, end, t)
    {
      if t != e.slot {
        assert SlotHolds(s, st, t);
        OtherSlotHolds(s, st, e, t);
      }
    }
  }

  lemma DeleteEndsAt(s: Suite, st: Sys, e: Event)
    requires Lawful(s) && IsSys(st) && e.Delete? && Enabled(s, st, e) && Uncut(s, st, e)
    ensures Next(s, st, e).fat == st.fat[e.slot := ERASED_ENTRY]
    ensures forall t :: 0 <= t < SLOTS && t != e.slot ==> Next(s, st, e).last[t] == st.last[t]
  {
  }

  // ---- reading and listing the map ----

  /** What the store answers for a file of the map. */
  lemma FileReads(s: Suite, st: Sys, names: seq<NameEntry>, t: nat, pin: Option<bytes>, mask: nat, room: nat)
    requires Lawful(s) && Agree(s, st, names) && t in Files(s, st, names)
    ensures var f := Files(s, st, names)[t];
            && |f.contents| <= MAX_CONTENTS && |f.name| == 32 && f.name[31] == 0 && f.group < 0x1_0000 && |f.uuid| == 16
            && st.fat[t].uuid == f.uuid
            && ReadAll(s, st.chip.mem, st.fat, t, pin, mask, room)
            == if BitAnd(mask, f.group) == 0 || (pin.Some? && pin.value != f.owner) then Fail(PermissionDenied)
               else if room < |f.contents| then Fail(BadLen)
               else Done(f.contents)
  {
    hide ReadAll, FatOn, NamesOn, BodyStored, HeaderTorn, BitAnd;
    assert SlotHolds(s, st, t);
    HoldsReads(s, st, t, st.last[t].value, false, pin, mask, room);
  }

  datatype Meta = Meta(slot: nat, group: nat, name: bytes)

  /** The directory of the slots below n, in ascending order. */
  function Listing(fat: seq<FatEntry>, names: seq<NameEntry>, n: nat): seq<Meta>
    requires |fat| == SLOTS && |names| == SLOTS && n <= SLOTS
  {
    if n == 0 then []
    else
      var here := if Occupied(fat, names, n - 1) then [Meta(n - 1, names[n - 1].group, names[n - 1].name)] else [];
      Listing(fat, names, n - 1) + here
  }

  function InGroups(list: seq<Meta>, groups: seq<nat>): seq<Meta> {
    if list == [] then []
    else InGroups(list[..|list| - 1], groups) + (if list[|list| - 1].group in groups then [list[|list| - 1]] else [])
  }

  /** The directory of a file map: one line per file, in ascending slot order. */
  function Directory(files: map<nat, File>, n: nat): seq<Meta> {
    if n == 0 then []
    else Directory(files, n - 1) + (if n - 1 in files then [Meta(n - 1, files[n - 1].group, files[n - 1].name)] else [])
  }

  /** It names exactly the files of the map, each once, in ascending slot order. */
  lemma {:induction false} DirectoryExact(files: map<nat, File>, n: nat)
    ensures var l := Directory(files, n);
            && |l| <= n
            && (forall i, j :: 0 <= i < j < |l| ==> l[i].slot < l[j].slot)
            && (forall i :: 0 <= i < |l| ==> l[i].slot < n)
            && forall m :: m in l <==> m.slot < n && m.slot in files && m.group == files[m.slot].group && m.name == files[m.slot].name
  {
    if n > 0 {
      DirectoryExact(files, n - 1);
    }
  }

  /** The two tables list what the file map holds. */
  lemma {:induction false} ListingIsDirectory(s: Suite, st: Sys, names: seq<NameEntry>, n: nat)
    requires Agree(s, st, names) && n <= SLOTS
    ensures Listing(st.fat, names, n) == Directory(Files(s, st, names), n)
  {
    hide Agree, Files;
    if n > 0 {
      AgreeShape(s, st, names, n - 1);
      ListingIsDirectory(s, st, names, n - 1);
    }
  }

  lemma AgreeShape(s: Suite, st: Sys, names: seq<NameEntry>, t: nat)
    requires Agree(s, st, names)
    ensures IsSys(st) && IsNames(names)
    ensures t in Files(s, st, names) <==> Occupied(st.fat, names, t)
    ensures t in Files(s, st, names) ==> Files(s, st, names)[t].group == names[t].group && Files(s, st, names)[t].name == names[t].name
  {
    assert t < SLOTS ==> SlotHolds(s, st, t);
  }

  /** Filtering keeps exactly the wanted entries and their order. */
  lemma {:induction false} InGroupsIsFilter(list: seq<Meta>, groups: seq<nat>)
    ensures |InGroups(list, groups)| <= |list|
    ensures forall m :: m in InGroups(list, groups) <==> m in list && m.group in groups
    ensures (forall i, j :: 0 <= i < j < |list| ==> list[i].slot < list[j].slot) ==>
              forall i, j :: 0 <= i < j < |InGroups(list, groups)| ==> InGroups(list, groups)[i].slot < InGroups(list, groups)[j].slot
    decreases |list|
  {
    if list != [] {
      var front, last := list[..|list| - 1], list[|list| - 1];
      InGroupsIsFilter(front, groups);
      assert list == front + [last];
      if forall i, j :: 0 <= i < j < |list| ==> list[i].slot < list[j].slot {
        LastIsGreatest(list);
        assert forall m :: m in InGroups(front, groups) ==> m in front;
        Appended(InGroups(front, groups), last);
      }
    }
  }

  lemma LastIsGreatest(list: seq<Meta>)
    requires list != [] && forall i, j :: 0 <= i < j < |list| ==> list[i].slot < list[j].slot
    ensures var front, last := list[..|list| - 1], list[|list| - 1];
            && (forall i, j :: 0 <= i < j < |front| ==> front[i].slot < front[j].slot)
            && (forall m :: m in front ==> m.slot < last.slot)
  {
  }

  lemma Appended(list: seq<Meta>, last: Meta)
    requires forall i, j :: 0 <= i < j < |list| ==> list[i].slot < list[j].slot
    requires forall m :: m in list ==> m.slot < last.slot
    ensures forall i, j :: 0 <= i < j < |list + [last]| ==> (list + [last])[i].slot < (list + [last])[j].slot
  {
  }
}
