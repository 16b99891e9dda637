/** commands.c: the command handlers over the blob store, the name table, the PIN guard and the
    replay ring of one device. Host packets are their raw bytes; a handler's reply to the host is
    its return value. */
module Commands {
  import opened Bytes
  import opened Flash
  import opened FlashDevice
  import opened BlobModel
  import opened BlobFlash
  import opened BlobRuns
  import opened BlobTheorems
  import opened BlobStore
  import opened HsmModel
  import opened Wrappers
  import K = KeySchedule
  import P = Pin
  import R = ReplayRing

  // ---- host packets ----

  /** write_command_t before its contents: pin, slot, group, name, uuid, length. */
  const WRITE_MIN: nat := 59

  /** Entries of the provisioned permission table. */
  const MAX_PERMS: nat := 8

  datatype WriteCmd = WriteCmd(pin: bytes, slot: nat, group: nat, name: bytes, uuid: bytes, len: nat)

  function ParseWrite(pkt: bytes): (c: WriteCmd)
    requires |pkt| >= WRITE_MIN
    ensures |c.pin| == 6 && c.slot < 256 && c.group < 0x1_0000 && |c.name| == 32 && |c.uuid| == 16 && c.len < 0x1_0000
  {
    Group16(pkt[7..9]);
    Group16(pkt[57..59]);
    WriteCmd(pkt[..6], pkt[6] as nat, Un(pkt[7..9]), pkt[9..41], pkt[41..57], Un(pkt[57..59]))
  }

  /** write_command_t as the host lays it out: little-endian group and length, then the contents. */
  function WritePacket(pin: bytes, slot: byte, group: nat, name: bytes, uuid: bytes, contents: bytes): bytes {
    pin + [slot] + Le(group, 2) + name + uuid + Le(|contents|, 2) + contents
  }

  /** Parsing such a packet gives its fields back, and what follows them is the contents. */
  lemma PacketRoundTrip(pin: bytes, slot: byte, group: nat, name: bytes, uuid: bytes, contents: bytes)
    requires |pin| == 6 && group < 0x1_0000 && |name| == 32 && |uuid| == 16 && |contents| < 0x1_0000
    ensures var pkt := WritePacket(pin, slot, group, name, uuid, contents);
            && |pkt| == WRITE_MIN + |contents|
            && ParseWrite(pkt) == WriteCmd(pin, slot as nat, group, name, uuid, |contents|)
            && pkt[..6] == pin && pkt[WRITE_MIN..] == contents && pkt[WRITE_MIN..WRITE_MIN + |contents|] == contents
  {
    hide Le, Un;
    var pkt := WritePacket(pin, slot, group, name, uuid, contents);
    assert pkt[7..9] == Le(group, 2) && pkt[57..59] == Le(|contents|, 2);
    Field16(group);
    Field16(|contents|);
  }

  lemma Group16(b: bytes)
    requires |b| == 2
    ensures Un(b) < 0x1_0000
  {
    UnLe(b);
    FieldBounds();
  }

  // ---- one device ----

  class Hsm {
    const store: Store
    const guard: P.Guard
    const ring: R.Ring
    const names: array<NameEntry>
    const namePage: array<byte>
    const large: array<byte>
    const perms: seq<P.Permission>

    /** The static buffers of the command layer, beside a loaded PIN state and a loaded blob store. */
    constructor (g: P.Guard, st: Store, table: seq<NameEntry>, permissions: seq<P.Permission>)
      requires g.flash == st.flash && st.flash.Valid() && st.Valid() && g.Allocated() && IsNames(table)
      requires {g.pinHash, g.page} !! {st.scratchPage, st.chunkBuffer, st.aad} && |permissions| <= MAX_PERMS
      ensures Ready() && store == st && guard == g && perms == permissions && names[..] == table
      ensures fresh(ring) && ring.calls == [] && fresh(ring.cache) && fresh(names) && fresh(namePage) && fresh(large)
    {
      hide InRange, Run, AllInRange, Lawful, Store.Valid, P.Guard.Allocated, R.Ring.Valid, Device.Valid;
      store, guard, perms := st, g, permissions;
      ring := new R.Ring();
      names := new NameEntry[SLOTS](i requires 0 <= i < SLOTS && IsNames(table) => table[i]);
      namePage := new byte[1024](_ => 0);
      large := new byte[8224](_ => 0);
      new;
      assert names[..] == table;
    }

    /** Power-up: pin_init, then init_commands loads both tables from their pages. The permissions
        and the PIN are those provisioned at build time; the ghost history of the slots carries over. */
    static method PowerUp(device: Device, suite: Suite, rootKey: bytes, permissions: seq<P.Permission>, provisioned: bytes,
                          ghost history: seq<Option<Rec>>) returns (h: Hsm)
      requires device.Valid() && Lawful(suite) && |history| == SLOTS && |permissions| <= MAX_PERMS
      modifies device`clean, device`log, device.mem
      ensures h.Ready() && h.store.flash == device && h.store.s == suite && h.guard.master == rootKey && h.perms == permissions
      ensures fresh(h) && fresh(h.Repr() - {device, device.mem}) && h.ring.calls == []
      ensures h.names[..] == NamesOn(device.View().mem)
      ensures h.Abs() == Sys(device.View(), FatOn(device.View().mem), history)
      ensures old(!Blank(device.View())) ==>
                h.guard.initialized && h.guard.Ram() == old(P.Decode(PinBytes(device.View()))) && device.View() == old(device.View())
      ensures device.reliable && old(Bootable(suite, device.View(), history, provisioned)) ==>
                && h.Synced() && h.guard.initialized
                && h.guard.Ram() == old(P.PoweredUp(rootKey, provisioned, P.Decode(PinBytes(device.View()))))
                && h.Stored() == old(Files(suite, Sys(device.View(), FatOn(device.View().mem), history), NamesOn(device.View().mem)))
    {
      hide Agree, Files, InRange, Run, AllInRange, Lawful, NamesOn, FatOn, P.PinPage, P.Decode, P.OnPinPage,
           K.PinHash, Store.Valid, R.Ring.Valid, IsNames;
      ghost var before, log := device.View(), device.log;
      var guard := new P.Guard(device, rootKey);
      var ok := guard.Init(provisioned);
      var store := new Store(device, suite, history);
      NamesOnIsNames(device.mem[..]);
      h := new Hsm(guard, store, NamesOn(device.mem[..]), permissions);
      if Bootable(suite, before, history, provisioned) {
        BootedAgrees(suite, device.origin, log, device.log, history);
      }
    }

    ghost function Flash(): Device { store.flash }

    ghost function Repr(): set<object> {
      {store, store.flash, store.flash.mem, store.fat, store.scratchPage, store.chunkBuffer, store.aad,
       guard, guard.pinHash, guard.page, ring, ring.cache, names, namePage, large}
    }

    /** What host commands may change: everything but the replay ring. */
    ghost function Owned(): set<object> {
      Repr() - {ring, ring.cache}
    }

    /** Memory is laid out as linked; the tables may hold anything. */
    ghost predicate Ready()
      reads Repr()
    {
      && guard.flash == store.flash && store.flash.Valid() && store.Valid() && guard.Allocated() && ring.Valid()
      && names.Length == SLOTS && IsNames(names[..]) && namePage.Length == 1024 && large.Length == 8224
      && |perms| <= MAX_PERMS && Apart()
    }

    ghost predicate Apart()
    {
      && namePage !in {store.flash.mem, store.scratchPage, store.chunkBuffer, store.aad, guard.pinHash, guard.page, large}
      && large !in {store.flash.mem, store.scratchPage, store.chunkBuffer, store.aad, guard.pinHash, guard.page}
      && guard.page !in {store.scratchPage, store.chunkBuffer, store.aad}
      && guard.pinHash !in {store.scratchPage, store.chunkBuffer, store.aad}
    }

    ghost function Abs(): Sys
      reads Repr()
    {
      store.Abs()
    }

    /** The refinement invariant: RAM tables, flash pages and records agree, and so does the PIN page. */
    ghost predicate Synced()
      reads Repr()
    {
      Ready() && Agree(store.s, Abs(), names[..]) && guard.Synced()
    }

    /** What the device stores, as a plain map from slot to file. */
    ghost function Stored(): map<nat, File>
      reads Repr()
      requires Synced()
    {
      Files(store.s, Abs(), names[..])
    }

    /** Whether a PIN is the right one. */
    ghost predicate PinRight(pin: bytes)
      reads guard, guard.pinHash
    {
      guard.initialized && K.PinHash(guard.master, pin) == guard.pinHash[..]
    }

    // ---- name table ----

    /** The page image flush_name_table programs. */
    method FillNamePage()
      requires Ready()
      modifies namePage
      ensures namePage[..] == NamePage(names[..])
    {
      hide NameBytes, TableBytes, Store.Valid, P.Guard.Allocated, R.Ring.Valid;
      FillArray(namePage, 255);
      assert names[..0] == [] && TableBytes([]) == [] && namePage[..0] == [] by {
        NoNames();
      }
      var i := 0;
      while i < SLOTS
        invariant 0 <= i <= SLOTS
        invariant namePage[..64 * i] == TableBytes(names[..i])
        invariant namePage[64 * i..] == Fill(255, 1024 - 64 * i)
      {
        ParseOfName(names[i]);
        ghost var was := namePage[..];
        CopyInto(namePage, 64 * i, NameBytes(names[i]));
        OneMoreName(names[..], i);
        assert namePage[..64 * i + 64] == was[..64 * i] + NameBytes(names[i]);
        assert namePage[64 * i + 64..] == was[64 * i + 64..] == was[64 * i..][64..];
        i := i + 1;
      }
      assert names[..i] == names[..];
      assert namePage[..] == namePage[..512] + namePage[512..];
    }

    /** flush_name_table */
    method FlushNames() returns (ok: bool)
      requires Ready()
      modifies Flash()`clean, Flash()`log, Flash().mem, namePage
      ensures Ready() && (Flash().reliable ==> ok)
      ensures |NamePage(names[..])| == 1024
      ensures Extends(old(Flash().log), Flash().log, PageOps(NAME_ADDR, NamePage(names[..])), ok)
    {
      hide NamePage, Programs, Extends, InRange, Run, AllInRange, IsNames, Lawful, R.Ring.Valid;
      assert IsNames(names[..]);
      FillNamePage();
      NamePageSize(names[..]);
      ghost var start, image := Flash().log, namePage[..];
      P.PinPageErase();
      ok := store.flash.ErasePage(NAME_ADDR);
      ghost var mid := Flash().log;
      if ok {
        ok := store.flash.Write(NAME_ADDR, namePage[..]);
        ExtendsThen(start, mid, Flash().log, [Erase(NAME_ADDR)], Programs(NAME_ADDR, image), ok);
      } else {
        ExtendsStop(start, mid, [Erase(NAME_ADDR)], Programs(NAME_ADDR, image));
      }
    }

    /** save_name_entry and clear_name_entry: change one RAM entry, then flush the whole table. */
    method PutName(slot: nat, e: NameEntry) returns (ok: bool)
      requires Ready() && slot < SLOTS && IsName(e)
      modifies Flash()`clean, Flash()`log, Flash().mem, namePage, names
      ensures Ready() && names[..] == old(names[..])[slot := e] && (Flash().reliable ==> ok)
      ensures |NamePage(names[..])| == 1024
      ensures Extends(old(Flash().log), Flash().log, PageOps(NAME_ADDR, NamePage(names[..])), ok)
    {
      hide NamePage, Extends, InRange, Run, AllInRange, Lawful, R.Ring.Valid, Store.Valid, P.Guard.Allocated;
      names[slot] := e;
      assert names[..] == old(names[..])[slot := e];
      ok := FlushNames();
    }

    /** Saving an entry of a device in sync: everything is intact but for the group of that slot,
        which the blob write that follows brings in line. */
    method SaveName(slot: nat, name: bytes, group: nat) returns (ok: bool)
      requires Ready() && |name| == 32 && group < 0x1_0000
      modifies Flash()`clean, Flash()`log, Flash().mem, namePage, names
      ensures Ready()
      ensures slot >= SLOTS ==> !ok && names[..] == old(names[..]) && Abs() == old(Abs()) && Flash().log == old(Flash().log)
      ensures slot < SLOTS ==> names[..] == old(names[..])[slot := SavedName(name, group)]
      ensures slot < SLOTS && Flash().reliable && old(Synced()) ==>
                ok && guard.Synced() && Saved(store.s, old(Abs()), old(names[..]), Abs(), names[..], slot)
    {
      hide Agree, Intact, GroupsMatch, Files, InRange, Run, AllInRange, Lawful, Store.Valid, P.Guard.Allocated,
           R.Ring.Valid, PageOps, Extends, SavedName, P.PinPage, Apart;
      if slot >= SLOTS {
        return false;
      }
      SavedIsName(name, group);
      ok := PutName(slot, SavedName(name, group));
      if Flash().reliable && old(Synced()) {
        FlushedPages(Flash(), old(Flash().log), Flash().log, old(Flash().View()), Flash().View(), names[..]);
        FlushAgrees(store.s, old(Abs()), old(names[..]), slot, SavedName(name, group));
      }
    }

    /** clear_name_entry, from a device in sync or with only that slot's group out of line. */
    method ClearName(slot: nat) returns (ok: bool)
      requires Ready() && slot < SLOTS
      modifies Flash()`clean, Flash()`log, Flash().mem, namePage, names
      ensures Ready() && names[..] == old(names[..])[slot := ERASED_NAME]
      ensures Flash().reliable && old(guard.Synced()) ==> ok && guard.Synced()
      ensures Flash().reliable && old(IntactBut(store.s, Abs(), names[..], slot)) ==>
                Agree(store.s, Abs(), names[..])
                && Files(store.s, Abs(), names[..]) == old(Files(store.s, Abs(), names[..])) - {slot}
    {
      hide Agree, Intact, GroupsMatch, Files, InRange, Run, AllInRange, Lawful, Store.Valid, P.Guard.Allocated,
           R.Ring.Valid, PageOps, Extends, SavedName, P.PinPage, Apart, ERASED_NAME;
      ErasedNameIsName();
      ok := PutName(slot, ERASED_NAME);
      if Flash().reliable {
        FlushedPages(Flash(), old(Flash().log), Flash().log, old(Flash().View()), Flash().View(), names[..]);
        if old(IntactBut(store.s, Abs(), names[..], slot)) {
          UnflushAgrees(store.s, old(Abs()), old(names[..]), slot);
        }
      }
    }

    // ---- the PIN gate ----

    /** pin_gate */
    method PinGate(pin: bytes) returns (ok: bool)
      requires Ready()
      modifies Flash()`clean, Flash()`log, Flash().mem, guard.page, guard`failCount
      ensures Ready() && (ok <==> old(PinRight(pin)))
      ensures guard.initialized ==> guard.Ram() == P.Attempted(guard.master, old(guard.Ram()), P.Check(pin))
      ensures guard.pinHash[..] == old(guard.pinHash[..])
      ensures Flash().reliable && old(Synced()) ==> Synced() && Stored() == old(Stored())
    {
      hide Agree, Files, InRange, Run, Lawful, R.Ring.Valid, P.PinPage, P.OnPinPage, K.PinHash;
      ok := guard.CheckPin(pin);
      if old(Synced()) {
        ghost var more := Flash().log[|old(Flash().log)|..];
        PinPageOnly(Flash().origin, old(Flash().log), Flash().log);
        ElsewhereAgrees(store.s, old(Abs()), names[..], more);
      }
    }

    /** change_pin */
    method ChangePin(pkt: bytes) returns (ok: bool)
      requires Ready()
      modifies Owned()
      ensures Ready() && guard.initialized == old(guard.initialized)
      ensures guard.initialized ==>
                guard.Ram() == if |pkt| < 12 then old(guard.Ram()) else P.Attempted(guard.master, old(guard.Ram()), P.Change(pkt[..6], pkt[6..12]))
      ensures Flash().reliable && old(Synced()) ==>
                && Synced() && Stored() == old(Stored()) && (ok <==> |pkt| >= 12 && old(PinRight(pkt[..6])))
    {
      hide Agree, Files, InRange, Run, Lawful, R.Ring.Valid, P.PinPage, P.OnPinPage, K.PinHash;
      if |pkt| < 12 {
        return false;
      }
      ok := guard.ChangePin(pkt[..6], pkt[6..12]);
      if old(Synced()) {
        ghost var more := Flash().log[|old(Flash().log)|..];
        PinPageOnly(Flash().origin, old(Flash().log), Flash().log);
        ElsewhereAgrees(store.s, old(Abs()), names[..], more);
      }
    }

    /** A power cycle between two commands: RAM is lost, tables and PIN state are loaded again. */
    method Reboot(provisioned: bytes) returns (h: Hsm)
      requires Ready()
      modifies Flash()`clean, Flash()`log, Flash().mem
      ensures h.Ready() && h.Flash() == Flash() && h.store.s == store.s && h.guard.master == guard.master && h.perms == perms
      ensures fresh(h) && fresh(h.Repr() - {Flash(), Flash().mem}) && h.ring.calls == []
      ensures Flash().reliable && old(Synced()) && guard.failCount != 0xFFFF_FFFF && P.Sized(P.Provisioned(provisioned)) ==>
                && h.Synced() && h.guard.initialized && h.Stored() == old(Stored())
                && h.guard.Ram() == P.Attempted(guard.master, old(guard.Ram()), P.PowerUp(provisioned))
    {
      hide Agree, Files, InRange, Run, Lawful, R.Ring.Valid, P.PinPage, P.Decode, K.PinHash, FatOn, NamesOn, AllInRange;
      if Synced() {
        TablesOnFlash(store.s, Abs(), names[..]);
        P.DecodePage(guard.Ram());
      }
      h := PowerUp(store.flash, store.s, guard.master, perms, provisioned, store.last);
    }

    // ---- storing and deleting ----

    /** The part that write and store_received_blob share: save the name entry, write the blob, and
        take the name entry back when the blob is refused. */
    method StoreFile(slot: nat, name: bytes, group: nat, uuid: bytes, contents: bytes, pin: bytes, nonce: bytes) returns (ok: bool)
      requires Ready() && |name| == 32 && group < 0x1_0000 && |uuid| == 16 && |nonce| == 12
      modifies Flash()`clean, Flash()`log, Flash().mem, namePage, names
      modifies store.fat, store.scratchPage, store.chunkBuffer, store.aad, store`last
      ensures Ready() && guard.Ram() == old(guard.Ram()) && (ok ==> slot < SLOTS)
      ensures Flash().reliable && old(Synced()) && Representable(|contents|) ==>
                && Synced() && (ok <==> slot < SLOTS && |contents| <= MAX_CONTENTS)
                && Stored() == AfterStore(old(Stored()), slot, File(Terminated(name), group, uuid, K.PinHash(guard.master, pin), contents))
      ensures Flash().reliable && old(Synced()) && slot < SLOTS && |contents| <= MAX_ACCEPTED ==>
                && ok && names[..] == old(names[..])[slot := SavedName(name, group)]
                && store.fat[..] == old(store.fat[..])[slot := EntryOf(slot, Rec(contents, uuid, K.PinHash(guard.master, pin), group, nonce))]
    {
      hide Agree, IntactBut, Files, InRange, Run, AllInRange, Lawful, R.Ring.Valid, PageOps, Extends, P.PinPage,
           K.PinHash, Un, WroteRecord, Terminated;
      ghost var st0, was, good := Abs(), names[..], Flash().reliable && Synced();
      var owner := K.PinHash(guard.master, pin);
      ok := SaveName(slot, name, group);
      if !ok {
        return;
      }
      ghost var mid, log := Abs(), Flash().log;
      var status, at := store.Write(slot, contents, uuid, owner, group, nonce);
      ghost var r := Rec(contents, uuid, owner, group, nonce);
      if good && status == Good {
        WroteShape(store.s, mid, log, Abs(), Flash().log, slot, r);
      }
      if status != Good {
        var cleared := ClearName(slot);
        if good && Representable(|contents|) {
          RefusedAgrees(store.s, st0, was, mid, was[slot := SavedName(name, group)], slot);
        }
        return false;
      }
      if good && |contents| <= MAX_CONTENTS {
        StoredAgrees(store.s, st0, was, mid, log, Abs(), Flash().log, slot, name, r);
      }
      return true;
    }

    /** write: the reply is success or an error. */
    method Write(pkt: bytes, nonce: bytes) returns (ok: bool)
      requires Ready() && |nonce| == 12
      modifies Owned()
      ensures Ready() && guard.initialized == old(guard.initialized)
      ensures guard.initialized ==> guard.Ram() == AfterGate(guard.master, old(guard.Ram()), pkt, WRITE_MIN)
      ensures Flash().reliable && old(Synced()) && Fits(pkt) ==>
                Synced() && (ok, Stored()) == WriteSpec(guard.master, perms, old(|pkt| >= WRITE_MIN && PinRight(pkt[..6])), old(Stored()), pkt)
      ensures Flash().reliable && old(Synced()) && !Fits(pkt) ==> (ok <==> old(PinRight(pkt[..6])) && MayStore(perms, pkt))
    {
      hide Agree, Files, InRange, Run, AllInRange, Lawful, R.Ring.Valid, P.PinPage, K.PinHash, Un, ParseWrite,
           P.Permitted, AfterStore, Terminated, Store.Valid, P.Guard.Allocated, P.Attempted, Hsm.Ready;
      if |pkt| < WRITE_MIN {
        return false;
      }
      PinField(pkt);
      var right := PinGate(pkt[..6]);
      if !right {
        return false;
      }
      ok := WriteGranted(pkt, nonce);
    }

    /** write, after its PIN gate. */
    method WriteGranted(pkt: bytes, nonce: bytes) returns (ok: bool)
      requires Ready() && |nonce| == 12 && |pkt| >= WRITE_MIN
      modifies Flash()`clean, Flash()`log, Flash().mem, namePage, names
      modifies store.fat, store.scratchPage, store.chunkBuffer, store.aad, store`last
      ensures Ready() && guard.Ram() == old(guard.Ram())
      ensures Flash().reliable && old(Synced()) && Fits(pkt) ==>
                Synced() && (ok, Stored()) == WriteSpec(guard.master, perms, true, old(Stored()), pkt)
      ensures Flash().reliable && old(Synced()) && !Fits(pkt) ==> (ok <==> MayStore(perms, pkt))
    {
      hide Agree, Files, InRange, Run, AllInRange, Lawful, R.Ring.Valid, P.PinPage, K.PinHash, Un, ParseWrite,
           P.Permitted, AfterStore, Terminated, Store.Valid, P.Guard.Allocated;
      var c := ParseWrite(pkt);
      var permitted := P.ValidatePermission(perms, c.group, P.Writing);
      if !permitted {
        return false;
      }
      if c.len > |pkt| - WRITE_MIN {
        return false;
      }
      ok := StoreFile(c.slot, c.name, c.group, c.uuid, pkt[WRITE_MIN..WRITE_MIN + c.len], c.pin, nonce);
    }

    /** store_received_blob */
    method StoreReceived(slot: nat, r: Response, pin: bytes, nonce: bytes) returns (ok: bool)
      requires Ready() && IsResponse(r) && |nonce| == 12
      modifies Owned()
      ensures Ready() && guard.Ram() == old(guard.Ram()) && guard.initialized == old(guard.initialized)
      ensures Flash().reliable && old(Synced()) ==>
                && Synced()
                && (ok <==> |r.contents| <= MAX_CONTENTS && P.Permitted(perms, r.group, P.Receiving) && slot < SLOTS)
                && Stored() == if ok then old(Stored())[slot := File(Terminated(r.name), r.group, r.uuid, K.PinHash(guard.master, pin), r.contents)]
                               else old(Stored())
    {
      hide Agree, Files, InRange, Run, AllInRange, Lawful, R.Ring.Valid, P.PinPage, K.PinHash, P.Permitted, Terminated;
      if |r.contents| > MAX_CONTENTS {
        return false;
      }
      var permitted := P.ValidatePermission(perms, r.group, P.Receiving);
      if !permitted {
        return false;
      }
      ok := StoreFile(slot, r.name, r.group, r.uuid, r.contents, pin, nonce);
    }

    /** delete_file */
    method DeleteFile(pkt: bytes) returns (ok: bool)
      requires Ready()
      modifies Owned()
      ensures Ready() && guard.initialized == old(guard.initialized)
      ensures guard.initialized ==> guard.Ram() == AfterGate(guard.master, old(guard.Ram()), pkt, 7)
      ensures Flash().reliable && old(Synced()) ==>
                && Synced()
                && (ok <==> |pkt| >= 7 && old(PinRight(pkt[..6])) && pkt[6] as nat in old(Stored()))
                && Stored() == if ok then old(Stored()) - {pkt[6] as nat} else old(Stored())
    {
      hide Agree, Files, InRange, Run, AllInRange, Lawful, R.Ring.Valid, P.PinPage, K.PinHash, P.Guard.Allocated,
           Store.Valid, P.Attempted, Hsm.Ready;
      if |pkt| < 7 {
        return false;
      }
      var right := PinGate(pkt[..6]);
      if !right {
        return false;
      }
      ok := Remove(pkt[6] as nat);
    }

    /** slot_occupied */
    predicate IsOccupied(slot: nat)
      requires names.Length == SLOTS && store.fat.Length == SLOTS
      reads names, store.fat
      ensures IsOccupied(slot) <==> Occupied(store.fat[..], names[..], slot)
    {
      slot < SLOTS && names[slot].inUse == IN_USE && store.fat[slot].addr != EMPTY
    }

    /** delete_file, after its PIN gate. */
    method Remove(slot: nat) returns (ok: bool)
      requires Ready()
      modifies Flash()`clean, Flash()`log, Flash().mem, namePage, names
      modifies store.fat, store.scratchPage, store`last
      ensures Ready() && guard.Ram() == old(guard.Ram())
      ensures Flash().reliable && old(Synced()) ==>
                && Synced() && (ok <==> slot in old(Stored()))
                && Stored() == if ok then old(Stored()) - {slot} else old(Stored())
    {
      hide Agree, Files, InRange, Run, AllInRange, Lawful, R.Ring.Valid, P.PinPage, PageOps, Extends, DeletedRecord,
           IntactBut;
      ghost var st0, table, log, good := Abs(), names[..], Flash().log, Flash().reliable && Synced();
      if good {
        AgreeShape(store.s, Abs(), names[..], slot);
      }
      if !IsOccupied(slot) {
        return false;
      }
      var status := store.Delete(slot);
      if status != Good {
        return false;
      }
      if good {
        RemovedAgrees(store.s, st0, table, log, Abs(), Flash().log, slot);
      }
      ok := ClearName(slot);
    }

    // ---- reading and listing ----

    /** read: name and contents on success. */
    method Read(pkt: bytes) returns (ok: bool, reply: bytes)
      requires Ready()
      modifies Owned()
      ensures Ready() && guard.initialized == old(guard.initialized)
      ensures guard.initialized ==> guard.Ram() == AfterGate(guard.master, old(guard.Ram()), pkt, 7)
      ensures Flash().reliable && old(Synced()) ==>
                && Synced() && Stored() == old(Stored())
                && (if ok then Some(reply) else None)
                == (if |pkt| < 7 then None
                    else ReadSpec(guard.master, perms, old(PinRight(pkt[..6])), old(Stored()), pkt[..6], pkt[6] as nat))
    {
      hide Agree, Files, InRange, Run, AllInRange, Lawful, R.Ring.Valid, P.PinPage, K.PinHash, P.Permitted,
           P.Attempted, P.Guard.Allocated, Store.Valid, Hsm.Ready;
      if |pkt| < 7 {
        return false, [];
      }
      var right := PinGate(pkt[..6]);
      if !right {
        return false, [];
      }
      ok, reply := ReadGranted(pkt[6] as nat, pkt[..6]);
    }

    /** read, after its PIN gate. */
    method ReadGranted(slot: nat, pin: bytes) returns (ok: bool, reply: bytes)
      requires Ready()
      modifies large, store.aad, store.chunkBuffer
      modifies store`addr, store`processed, store`total, store`nonce, store`key, store`expected, store`tags
      ensures Ready() && guard.Ram() == old(guard.Ram())
      ensures old(Synced()) ==>
                && Synced() && Stored() == old(Stored())
                && (if ok then Some(reply) else None) == ReadSpec(guard.master, perms, true, Stored(), pin, slot)
    {
      hide Agree, Files, InRange, Run, AllInRange, Lawful, R.Ring.Valid, P.PinPage, K.PinHash, P.Permitted,
           P.Guard.Allocated;
      if Synced() {
        AgreeShape(store.s, Abs(), names[..], slot);
      }
      if !IsOccupied(slot) {
        return false, [];
      }
      var permitted := P.ValidatePermission(perms, names[slot].group, P.Reading);
      if !permitted {
        return false, [];
      }
      ok, reply := ReadOut(slot, pin);
    }

    /** The reply of read: the stored name followed by the decrypted contents, in one buffer. */
    method ReadOut(slot: nat, pin: bytes) returns (ok: bool, reply: bytes)
      requires Ready() && IsOccupied(slot)
      modifies large, store.aad, store.chunkBuffer
      modifies store`addr, store`processed, store`total, store`nonce, store`key, store`expected, store`tags
      ensures Ready() && Abs() == old(Abs()) && guard.Ram() == old(guard.Ram())
      ensures old(Synced()) ==>
                && Synced() && slot in Stored() && Stored() == old(Stored())
                && (var f := Stored()[slot];
                    && (ok <==> f.group != 0 && K.PinHash(guard.master, pin) == f.owner)
                    && (ok ==> reply == f.name + f.contents))
    {
      hide Agree, Files, InRange, Run, AllInRange, Lawful, R.Ring.Valid, P.PinPage, K.PinHash, ReadAll,
           P.Guard.Allocated, BitAnd,
           OpenRead, ReadPieces, FinishRead;
      CopyInto(large, 0, names[slot].name);
      ghost var name := names[slot].name;
      assert large[..32] == name;
      var status, len := store.Read(slot, Some(K.PinHash(guard.master, pin)), 0xFFFF_FFFF, large, 32, MAX_CONTENTS);
      if Synced() {
        AgreeShape(store.s, Abs(), names[..], slot);
        FileReads(store.s, Abs(), names[..], slot, Some(K.PinHash(guard.master, pin)), 0xFFFF_FFFF, MAX_CONTENTS);
        BitAndAllOnes(Stored()[slot].group);
      }
      if status != Good {
        return false, [];
      }
      assert large[..32 + len] == large[..32] + large[32..32 + len];
      return true, large[..32 + len];
    }

    /** generate_list_files */
    method GenerateList() returns (list: seq<Meta>)
      requires Ready()
      ensures list == Listing(store.fat[..], names[..], SLOTS)
    {
      hide R.Ring.Valid, Lawful, InRange, AllInRange, Run;
      list := [];
      var i := 0;
      while i < SLOTS && |list| < 8
        invariant 0 <= i <= SLOTS && |list| <= i
        invariant list == Listing(store.fat[..], names[..], i)
      {
        if IsOccupied(i) {
          list := list + [Meta(i, names[i].group, names[i].name)];
        }
        i := i + 1;
      }
    }

    /** list */
    method List(pkt: bytes) returns (ok: bool, list: seq<Meta>)
      requires Ready()
      modifies Owned()
      ensures Ready() && guard.initialized == old(guard.initialized)
      ensures guard.initialized ==> guard.Ram() == AfterGate(guard.master, old(guard.Ram()), pkt, 6)
      ensures Flash().reliable && old(Synced()) ==>
                && Synced() && Stored() == old(Stored())
                && (ok <==> |pkt| >= 6 && old(PinRight(pkt[..6])))
                && (ok ==> list == Directory(Stored(), SLOTS))
    {
      hide Agree, Files, InRange, Run, AllInRange, Lawful, R.Ring.Valid, P.PinPage, K.PinHash, P.Guard.Allocated;
      if |pkt| < 6 {
        return false, [];
      }
      var right := PinGate(pkt[..6]);
      if !right {
        return false, [];
      }
      list := GenerateList();
      if Synced() {
        ListingIsDirectory(store.s, Abs(), names[..], SLOTS);
      }
      return true, list;
    }
  }

  // ---- power-up ----

  function PinBytes(c: Chip): bytes
    requires IsChip(c)
  {
    c.mem[PIN_ADDR..PIN_ADDR + 1024]
  }

  /** pin_hash_is_blank, of the flash page. */
  predicate Blank(c: Chip)
    requires IsChip(c)
  {
    P.Decode(PinBytes(c)).hash == Fill(255, 32)
  }

  /** Flash from which a device comes up in sync: intact tables and records, and a PIN page that is
      blank or one that write_pin_state left with a counter below 2^32 - 1. */
  ghost predicate Bootable(s: Suite, c: Chip, history: seq<Option<Rec>>, provisioned: bytes)
    requires IsChip(c)
  {
    && Agree(s, Sys(c, FatOn(c.mem), history), NamesOn(c.mem))
    && (if Blank(c) then P.Sized(P.Provisioned(provisioned)) else P.PinPage(P.Decode(PinBytes(c))) == PinBytes(c))
  }

  lemma TablesOnFlash(s: Suite, st: Sys, names: seq<NameEntry>)
    requires Agree(s, st, names)
    ensures IsSys(st) && FatOn(st.chip.mem) == st.fat && NamesOn(st.chip.mem) == names
  {
  }

  /** Flash as it leaves the factory boots to a device without files. */
  lemma FactoryBootable(s: Suite, c: Chip, history: seq<Option<Rec>>, provisioned: bytes)
    requires IsChip(c) && |history| == SLOTS && Blank(c) && P.Sized(P.Provisioned(provisioned))
    requires forall t :: 0 <= t < SLOTS ==> FatOn(c.mem)[t].addr == EMPTY
    ensures Bootable(s, c, history, provisioned)
    ensures Files(s, Sys(c, FatOn(c.mem), history), NamesOn(c.mem)) == map[]
  {
    hide FatOn, NamesOn, Blank, P.Provisioned;
    FatOnIsFat(c.mem);
    NamesOnIsNames(c.mem);
  }

  lemma BootedAgrees(s: Suite, origin: Chip, log: seq<Op>, log': seq<Op>, history: seq<Option<Rec>>)
    requires IsChip(origin) && AllInRange(log) && AllInRange(log') && |log| <= |log'| && log'[..|log|] == log
    requires P.OnPinPage(log'[|log|..])
    requires var mem := Run(origin, log).mem; Agree(s, Sys(Run(origin, log), FatOn(mem), history), NamesOn(mem))
    ensures var mem, end := Run(origin, log).mem, Run(origin, log');
            && FatOn(end.mem) == FatOn(mem) && NamesOn(end.mem) == NamesOn(mem)
            && Agree(s, Sys(end, FatOn(end.mem), history), NamesOn(end.mem))
            && Files(s, Sys(end, FatOn(end.mem), history), NamesOn(end.mem)) == Files(s, Sys(Run(origin, log), FatOn(mem), history), NamesOn(mem))
  {
    hide Run, FatOn, NamesOn, Files, SlotHolds;
    PinPageOnly(origin, log, log');
    var c, more := Run(origin, log), log'[|log|..];
    ElsewhereAgrees(s, Sys(c, FatOn(c.mem), history), NamesOn(c.mem), more);
  }

  // ---- what the handlers owe the host, over the plain map ----

  function WriteSpec(master: bytes, perms: seq<P.Permission>, right: bool, files: map<nat, File>, pkt: bytes): (bool, map<nat, File>) {
    if |pkt| < WRITE_MIN || !right then (false, files)
    else
      var c := ParseWrite(pkt);
      if !P.Permitted(perms, c.group, P.Writing) || c.len > |pkt| - WRITE_MIN then (false, files)
      else
        var f := File(Terminated(c.name), c.group, c.uuid, K.PinHash(master, c.pin), pkt[WRITE_MIN..WRITE_MIN + c.len]);
        (c.slot < SLOTS && c.len <= MAX_CONTENTS, AfterStore(files, c.slot, f))
  }

  function ReadSpec(master: bytes, perms: seq<P.Permission>, right: bool, files: map<nat, File>, pin: bytes, slot: nat): Option<bytes> {
    if !right || slot !in files then None
    else
      var f := files[slot];
      if !P.Permitted(perms, f.group, P.Reading) || f.group == 0 || K.PinHash(master, pin) != f.owner then None
      else Some(f.name + f.contents)
  }

  lemma PinField(pkt: bytes)
    requires |pkt| >= WRITE_MIN
    ensures ParseWrite(pkt).pin == pkt[..6]
  {
  }

  /** receive_response_t */
  datatype Response = Response(uuid: bytes, group: nat, name: bytes, contents: bytes)

  predicate IsResponse(r: Response) {
    |r.uuid| == 16 && r.group < 0x1_0000 && |r.name| == 32
  }

  /** A completed blob_delete of a device in sync: everything stays intact, the file is gone. */
  lemma RemovedAgrees(s: Suite, before: Sys, names: seq<NameEntry>, log: seq<Op>, after: Sys, log': seq<Op>, slot: nat)
    requires Lawful(s) && Agree(s, before, names) && DeletedRecord(s, before, log, after, log', slot, true)
    requires before.fat[slot].addr != EMPTY
    ensures IntactBut(s, after, names, slot)
    ensures Files(s, after, names) - {slot} == Files(s, before, names) - {slot}
    ensures after.chip.mem[PIN_ADDR..PIN_ADDR + 1024] == before.chip.mem[PIN_ADDR..PIN_ADDR + 1024]
  {
    hide Intact, GroupsMatch, Files, Enabled, Next, Uncut, DeleteOps, Run;
    DeleteIsStep(s, before, log, after, log', slot, true);
    var e := Event.Delete(slot, |log'| - |log|);
    DeleteAgrees(s, before, names, e);
    SlotEventKeepsPin(s, before, e);
    MatchBut(s, after, names, slot);
  }

  lemma MatchBut(s: Suite, st: Sys, names: seq<NameEntry>, slot: nat)
    requires Agree(s, st, names)
    ensures IntactBut(s, st, names, slot)
  {
    hide SlotHolds, FatOn, NamesOn;
  }

  /** A write packet whose contents, if they are complete, stay inside their slot or are refused
      outright. No packet that fits the 8251-byte host buffer breaks this. */
  predicate Fits(pkt: bytes) {
    |pkt| >= WRITE_MIN && ParseWrite(pkt).len <= |pkt| - WRITE_MIN ==> Representable(ParseWrite(pkt).len)
  }

  predicate MayStore(perms: seq<P.Permission>, pkt: bytes)
    requires |pkt| >= WRITE_MIN
  {
    P.Permitted(perms, ParseWrite(pkt).group, P.Writing) && ParseWrite(pkt).slot < SLOTS
  }

  /** The PIN state after the gate of a command whose packet needs min bytes. */
  function AfterGate(master: bytes, p: P.State, pkt: bytes, min: nat): P.State
    requires min >= 6
  {
    if |pkt| < min then p else P.Attempted(master, p, P.Check(pkt[..6]))
  }

  /** Contents that are stored inside their slot, or refused before any flash command. */
  predicate Representable(len: nat) {
    len <= MAX_CONTENTS || len > MAX_ACCEPTED
  }

  /** The map after a store command that reached the name table. */
  function AfterStore(files: map<nat, File>, slot: nat, f: File): map<nat, File> {
    if slot >= SLOTS then files
    else if |f.contents| <= MAX_CONTENTS then files[slot := f]
    else files - {slot}
  }

  lemma RefusedAgrees(s: Suite, before: Sys, was: seq<NameEntry>, mid: Sys, names: seq<NameEntry>, slot: nat)
    requires Saved(s, before, was, mid, names, slot)
    ensures IntactBut(s, mid, names, slot)
    ensures Files(s, mid, names) - {slot} == Files(s, before, was) - {slot}
  {
  }

  /** Name flush, then a completed blob write: the file map is updated at exactly that slot. */
  lemma StoredAgrees(s: Suite, before: Sys, was: seq<NameEntry>, mid: Sys, log: seq<Op>, after: Sys, log': seq<Op>,
                     slot: nat, name: bytes, r: Rec)
    requires slot < SLOTS && |name| == 32 && IsNames(was) && IsRec(r) && |r.data| <= MAX_CONTENTS
    requires Saved(s, before, was, mid, was[slot := SavedName(name, r.group)], slot)
    requires WroteRecord(s, mid, log, after, log', slot, r, true)
    ensures var names := was[slot := SavedName(name, r.group)];
            && Agree(s, after, names)
            && Files(s, after, names) == Files(s, before, was)[slot := File(Terminated(name), r.group, r.uuid, r.owner, r.data)]
            && IsChip(mid.chip) && IsChip(after.chip)
            && after.chip.mem[PIN_ADDR..PIN_ADDR + 1024] == mid.chip.mem[PIN_ADDR..PIN_ADDR + 1024]
  {
    hide Intact, GroupsMatch, Files, WroteRecord, Terminated, Enabled, Next, Uncut;
    WroteShape(s, mid, log, after, log', slot, r);
    SavedIsName(name, r.group);
    var names, e := was[slot := SavedName(name, r.group)], Event.Write(slot, r, |log'| - |log|);
    WriteIsStep(s, mid, log, after, log', slot, r, true);
    WriteAgrees(s, mid, names, e);
    SlotEventKeepsPin(s, mid, e);
    var f := File(Terminated(name), r.group, r.uuid, r.owner, r.data);
    SameElsewhere(Files(s, mid, names), Files(s, before, was), slot, f);
  }

  lemma WroteShape(s: Suite, before: Sys, log: seq<Op>, after: Sys, log': seq<Op>, slot: nat, r: Rec)
    requires WroteRecord(s, before, log, after, log', slot, r, true)
    ensures Lawful(s) && IsSys(before) && IsSys(after) && |log| <= |log'|
    ensures slot < SLOTS && after.fat == before.fat[slot := EntryOf(slot, r)]
  {
  }

  lemma SameElsewhere(m: map<nat, File>, n: map<nat, File>, slot: nat, f: File)
    requires m - {slot} == n - {slot}
    ensures m[slot := f] == n[slot := f]
  {
    forall k | k != slot
      ensures k in m <==> k in n
      ensures k in m ==> m[k] == n[k]
    {
      assert k in m <==> k in m - {slot};
      assert k in n <==> k in n - {slot};
    }
  }

  lemma SlotEventKeepsPin(s: Suite, st: Sys, e: Event)
    requires Lawful(s) && IsSys(st) && Enabled(s, st, e) && (e.Write? || e.Delete?)
    ensures Next(s, st, e).chip.mem[PIN_ADDR..PIN_ADDR + 1024] == st.chip.mem[PIN_ADDR..PIN_ADDR + 1024]
  {
    hide WriteOps, DeleteOps, Run;
    EventConfined(s, st, e);
    OpsInRange(s, st, e);
    PinKept(st.chip, OpsOf(s, st, e));
  }

  lemma ErasedNameIsName()
    ensures IsName(ERASED_NAME) && ERASED_NAME.inUse != IN_USE
  {
  }

  lemma PinPageOnly(origin: Chip, log: seq<Op>, log': seq<Op>)
    requires IsChip(origin) && AllInRange(log) && AllInRange(log') && |log| <= |log'| && log'[..|log|] == log
    requires P.OnPinPage(log'[|log|..])
    ensures AllInRange(log'[|log|..]) && Run(origin, log') == Run(Run(origin, log), log'[|log|..])
    ensures AllWithin(log'[|log|..], PIN_ADDR, PIN_ADDR + 1024)
  {
    hide Run, InRange;
    var more := log'[|log|..];
    assert log' == log + more;
    forall i | 0 <= i < |more|
      ensures InRange(more[i])
    {
      assert more[i] == log'[|log| + i];
    }
    RunConcat(origin, log, more);
  }

  /** The state between the name flush and the blob write of one command. */
  ghost predicate Saved(s: Suite, before: Sys, was: seq<NameEntry>, after: Sys, names: seq<NameEntry>, slot: nat) {
    && Agree(s, before, was) && IntactBut(s, after, names, slot)
    && after.fat == before.fat && after.last == before.last
    && Files(s, after, names) - {slot} == Files(s, before, was) - {slot}
  }

  lemma SavedIsName(name: bytes, group: nat)
    requires |name| == 32 && group < 0x1_0000
    ensures IsName(SavedName(name, group)) && SavedName(name, group).inUse == IN_USE && IsName(ERASED_NAME)
    ensures SavedName(name, group).name == Terminated(name) && Terminated(name)[31] == 0
  {
  }

  /** A completed name flush, seen from the chip: the page operations ran, and the PIN page is kept. */
  lemma FlushedPages(d: Device, log: seq<Op>, log': seq<Op>, before: Chip, after: Chip, names: seq<NameEntry>)
    requires IsChip(d.origin) && AllInRange(log) && AllInRange(log') && IsNames(names) && |NamePage(names)| == 1024
    requires before == Run(d.origin, log) && after == Run(d.origin, log')
    requires Extends(log, log', PageOps(NAME_ADDR, NamePage(names)), true)
    ensures AllInRange(PageOps(NAME_ADDR, NamePage(names))) && after == Run(before, PageOps(NAME_ADDR, NamePage(names)))
    ensures after.mem[PIN_ADDR..PIN_ADDR + 1024] == before.mem[PIN_ADDR..PIN_ADDR + 1024]
  {
    hide NamePage, PageOps, Run;
    var ops := PageOps(NAME_ADDR, NamePage(names));
    PageWithin(NAME_ADDR, NamePage(names));
    assert ops[..|log'| - |log|] == ops;
    LogGrowth(d.origin, log, log', ops, true);
    PinKept(before, ops);
  }

  /** Commands on other pages and slots leave the PIN page alone. */
  lemma PinKept(c: Chip, ops: seq<Op>)
    requires IsChip(c) && AllInRange(ops) && AllAvoid(ops, PIN_ADDR, PIN_ADDR + 1024)
    ensures Run(c, ops).mem[PIN_ADDR..PIN_ADDR + 1024] == c.mem[PIN_ADDR..PIN_ADDR + 1024]
  {
    hide Run;
    Frame(c, ops, PIN_ADDR, PIN_ADDR + 1024);
  }

  lemma NoNames()
    ensures TableBytes([]) == []
  {
  }

  lemma OneMoreName(names: seq<NameEntry>, i: nat)
    requires i < |names|
    ensures TableBytes(names[..i + 1]) == TableBytes(names[..i]) + NameBytes(names[i])
  {
    hide NameBytes;
    assert names[..i + 1][..i] == names[..i];
  }
}
