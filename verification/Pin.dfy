/** security.c: the PIN hash and the failure counter, in RAM and on their flash page, and the
    provisioned permission table. */
module Pin {
  import opened Bytes
  import opened Flash
  import opened FlashDevice
  import opened BlobModel
  import opened BlobFlash
  import opened BlobRuns
  import opened Wrappers
  import K = KeySchedule

  const UINT32: nat := 0x1_0000_0000

  // ---- the state and its page ----

  datatype State = State(hash: bytes, count: nat)

  predicate IsState(p: State) {
    |p.hash| == 32 && p.count < UINT32
  }

  function PinPage(p: State): (page: bytes)
    ensures |page| == |p.hash| + 992
  {
    p.hash + Le(p.count, 4) + Fill(255, 988)
  }

  /** load_pin_state: an erased counter counts as zero. */
  function Decode(page: bytes): (p: State)
    requires |page| == 1024
    ensures p.count != 0xFFFF_FFFF
  {
    var n := Un(page[32..36]);
    State(page[..32], if n == 0xFFFF_FFFF then 0 else n)
  }

  /** Reloading returns what was written, except that a counter of 2^32 - 1 reads as zero. */
  lemma DecodePage(p: State)
    requires IsState(p)
    ensures |PinPage(p)| == 1024
    ensures Decode(PinPage(p)) == if p.count == 0xFFFF_FFFF then p.(count := 0) else p
  {
    hide Le, Un;
    var page := PinPage(p);
    assert page[..32] == p.hash && page[32..36] == Le(p.count, 4);
    Field32(p.count);
  }

  // ---- what a PIN operation does to the state ----

  datatype Attempt =
    | Check(pin: bytes)
    | Change(oldPin: bytes, newPin: bytes)
    | PowerUp(provisioned: bytes)

  predicate Sized(pin: bytes) {
    6 <= |pin| <= 20
  }

  /** The PIN whose hash an attempt compares (a change with a badly sized PIN compares none). */
  function Compared(a: Attempt): Option<bytes> {
    match a
    case Check(pin) => Some(pin)
    case Change(o, n) => if Sized(o) && Sized(n) then Some(o) else None
    case PowerUp(_) => None
  }

  predicate Succeeds(master: bytes, p: State, a: Attempt) {
    Compared(a).Some? && K.PinHash(master, Compared(a).value) == p.hash
  }

  function Attempted(master: bytes, p: State, a: Attempt): State {
    if a.PowerUp? then PoweredUp(master, a.provisioned, p)
    else if Compared(a).None? then p
    else if !Succeeds(master, p, a) then p.(count := (p.count + 1) % UINT32)
    else if a.Change? then State(K.PinHash(master, a.newPin), 0)
    else p.(count := 0)
  }

  /** What loading the page and pin_init make of the state: an all-ones hash means a device never
      provisioned, and a counter of 2^32 - 1 reads as an erased one. */
  function PoweredUp(master: bytes, provisioned: bytes, p: State): State {
    if p.hash == Fill(255, 32) then State(K.PinHash(master, Provisioned(provisioned)), 0)
    else if p.count == 0xFFFF_FFFF then p.(count := 0)
    else p
  }

  // ---- the code ----

  class Guard {
    const flash: Device
    const master: bytes
    const pinHash: array<byte>
    const page: array<byte>
    var failCount: nat
    var initialized: bool

    ghost predicate Allocated()
      reads this, flash, flash.mem
    {
      && flash.Valid() && pinHash.Length == 32 && page.Length == 1024 && failCount < UINT32
      && pinHash != page && flash.mem != pinHash && flash.mem != page
    }

    ghost function Ram(): State
      reads this, pinHash
    {
      State(pinHash[..], failCount)
    }

    ghost function OnFlash(): bytes
      reads flash, flash.mem
      requires flash.Valid()
    {
      flash.View().mem[PIN_ADDR..PIN_ADDR + 1024]
    }

    /** The flash page holds exactly the RAM state. */
    ghost predicate Synced()
      reads this, flash, flash.mem, pinHash
      requires flash.Valid()
    {
      OnFlash() == PinPage(Ram())
    }

    constructor (device: Device, rootKey: bytes)
      requires device.Valid()
      ensures Allocated() && flash == device && master == rootKey && !initialized
      ensures fresh(pinHash) && fresh(page)
    {
      flash, master := device, rootKey;
      pinHash := new byte[32](_ => 0);
      page := new byte[1024](_ => 0);
      failCount, initialized := 0, false;
    }

    /** write_pin_state: the page is rebuilt, erased and programmed as a whole. */
    method WriteState() returns (ok: bool)
      requires Allocated()
      modifies flash`clean, flash`log, flash.mem, page
      ensures Allocated() && Ram() == old(Ram())
      ensures flash.reliable ==> ok
      ensures Extends(old(flash.log), flash.log, PageOps(PIN_ADDR, PinPage(Ram())), ok)
      ensures ok ==> Synced()
    {
      hide Programs, Extends, InRange, Flash.Run, AllInRange;
      BuildPage();
      ghost var start := flash.log;
      ghost var image := page[..];
      PageWithin(PIN_ADDR, image);
      PinPageErase();
      ok := flash.ErasePage(PIN_ADDR);
      ghost var mid := flash.log;
      if ok {
        ok := flash.Write(PIN_ADDR, page[..]);
        ExtendsThen(start, mid, flash.log, [Erase(PIN_ADDR)], Programs(PIN_ADDR, image), ok);
      } else {
        ExtendsStop(start, mid, [Erase(PIN_ADDR)], Programs(PIN_ADDR, image));
      }
      if ok {
        PageInstalled(flash.origin, start, flash.log, PIN_ADDR, image);
      }
    }

    method BuildPage()
      requires Allocated()
      modifies page
      ensures page[..] == PinPage(Ram())
    {
      hide InRange, Flash.Run, AllInRange;
      K.FourBytes(failCount);
      forall i | 0 <= i < 1024 {
        page[i] := 255;
      }
      forall i | 0 <= i < 32 {
        page[i] := pinHash[i];
      }
      page[32] := (failCount % 256) as byte;
      page[33] := (failCount / 0x100 % 256) as byte;
      page[34] := (failCount / 0x1_0000 % 256) as byte;
      page[35] := (failCount / 0x100_0000 % 256) as byte;
    }

    /** load_pin_state */
    method LoadState()
      requires Allocated()
      modifies pinHash, page, `failCount
      ensures Allocated() && Ram() == Decode(OnFlash())
      ensures flash.View() == old(flash.View()) && flash.log == old(flash.log)
    {
      hide InRange, Flash.Run, AllInRange, Un;
      var image := flash.Read(PIN_ADDR, 1024);
      forall i | 0 <= i < 1024 {
        page[i] := image[i];
      }
      forall i | 0 <= i < 32 {
        pinHash[i] := image[i];
      }
      UnLe(image[32..36]);
      FieldBounds();
      failCount := Un(image[32..36]);
      if failCount == 0xFFFF_FFFF {
        failCount := 0;
      }
      assert pinHash[..] == image[..32];
    }

    /** pin_init with the provisioned PIN: an erased page is provisioned, any other one loaded. */
    method Init(provisioned: bytes) returns (ok: bool)
      requires Allocated()
      modifies flash`clean, flash`log, flash.mem, pinHash, page, this
      ensures Allocated()
      ensures old(Decode(OnFlash())).hash != Fill(255, 32) ==>
                ok && initialized && Ram() == old(Decode(OnFlash())) && flash.View() == old(flash.View())
      ensures ok ==> initialized && Ram() == PoweredUp(master, provisioned, old(Decode(OnFlash())))
      ensures old(Decode(OnFlash())).hash == Fill(255, 32) && Sized(Provisioned(provisioned)) && flash.reliable ==>
                ok && initialized && Ram() == State(K.PinHash(master, Provisioned(provisioned)), 0) && Synced()
      ensures old(Decode(OnFlash())).hash == Fill(255, 32) && !Sized(Provisioned(provisioned)) ==> !ok
      ensures |old(flash.log)| <= |flash.log| && flash.log[..|old(flash.log)|] == old(flash.log)
      ensures OnPinPage(flash.log[|old(flash.log)|..])
    {
      hide InRange, Flash.Run, AllInRange, Un, K.PinHash, PinPage, Decode, PageOps;
      LoadState();
      var blank := IsBlank();
      if blank {
        var plen := LengthOf(provisioned);
        if plen < 6 {
          return false;
        }
        SetHash(K.PinHash(master, provisioned[..plen]));
        failCount := 0;
        ok := WriteState();
        OnlyThePage(old(flash.log), flash.log, PinPage(Ram()), ok);
        if !ok {
          return;
        }
      }
      initialized := true;
      return true;
    }

    /** The bounded scan for the terminator of HSM_PIN. */
    method LengthOf(provisioned: bytes) returns (plen: nat)
      ensures plen <= 20 && plen <= |provisioned| && Provisioned(provisioned) == provisioned[..plen]
    {
      plen := 0;
      while plen < 20 && plen < |provisioned| && provisioned[plen] != 0
        invariant 0 <= plen <= 20 && plen <= |provisioned|
        invariant Provisioned(provisioned) == provisioned[..plen] + Provisioned20(provisioned[plen..], 20 - plen)
      {
        ProvisionedStep(provisioned, plen);
        plen := plen + 1;
      }
    }

    method SetHash(h: bytes)
      requires pinHash.Length == 32 && |h| == 32
      modifies pinHash
      ensures pinHash[..] == h
    {
      forall i | 0 <= i < 32 {
        pinHash[i] := h[i];
      }
    }

    /** pin_hash_is_blank */
    method IsBlank() returns (blank: bool)
      requires pinHash.Length == 32
      ensures blank <==> pinHash[..] == Fill(255, 32)
    {
      var i := 0;
      while i < 32
        invariant 0 <= i <= 32
        invariant forall k :: 0 <= k < i ==> pinHash[k] == 255
      {
        if pinHash[i] != 255 {
          return false;
        }
        i := i + 1;
      }
      return true;
    }

    /** check_pin: accepts exactly when every byte of the two hashes agrees. */
    method CheckPin(pin: bytes) returns (ok: bool)
      requires Allocated()
      modifies flash`clean, flash`log, flash.mem, page, `failCount
      ensures Allocated() && pinHash[..] == old(pinHash[..])
      ensures ok <==> initialized && K.PinHash(master, pin) == pinHash[..]
      ensures ok ==> forall p :: K.PinHash(master, p) == pinHash[..] ==> p == pin || K.PinsCollide(master, p, pin)
      ensures initialized ==> Ram() == Attempted(master, old(Ram()), Check(pin))
      ensures !initialized ==> Ram() == old(Ram()) && flash.View() == old(flash.View())
      ensures old(Synced()) && flash.reliable ==> Synced()
      ensures |old(flash.log)| <= |flash.log| && flash.log[..|old(flash.log)|] == old(flash.log)
      ensures OnPinPage(flash.log[|old(flash.log)|..])
    {
      hide InRange, Flash.Run, AllInRange, K.PinHash, K.PinsCollide, PinPage, PageOps;
      if !initialized {
        return false;
      }
      var candidate := K.PinHash(master, pin);
      var diff := K.SumDifferences(candidate, pinHash[..]);
      OnlyThisPin(master, pin);
      if diff == 0 {
        if failCount != 0 {
          failCount := 0;
          var written := WriteState();
          OnlyThePage(old(flash.log), flash.log, PinPage(Ram()), written);
        }
        return true;
      }
      failCount := (failCount + 1) % UINT32;
      var written := WriteState();
      OnlyThePage(old(flash.log), flash.log, PinPage(Ram()), written);
      return false;
    }

    /** pin_change */
    method ChangePin(oldPin: bytes, newPin: bytes) returns (ok: bool)
      requires Allocated()
      modifies flash`clean, flash`log, flash.mem, page, pinHash, `failCount
      ensures Allocated()
      ensures initialized ==> Ram() == Attempted(master, old(Ram()), Change(oldPin, newPin))
      ensures initialized && flash.reliable ==> (ok <==> Succeeds(master, old(Ram()), Change(oldPin, newPin)))
      ensures initialized && flash.reliable ==>
                (ok <==> 6 <= |oldPin| <= 20 && 6 <= |newPin| <= 20 && K.PinHash(master, oldPin) == old(pinHash[..]))
      ensures ok ==> pinHash[..] == K.PinHash(master, newPin) && failCount == 0
      ensures !initialized ==> !ok && Ram() == old(Ram())
      ensures old(Synced()) && flash.reliable ==> Synced()
      ensures |old(flash.log)| <= |flash.log| && flash.log[..|old(flash.log)|] == old(flash.log)
      ensures OnPinPage(flash.log[|old(flash.log)|..])
    {
      hide InRange, Flash.Run, AllInRange, K.PinHash, PinPage, PageOps, Extends;
      if !initialized || !Sized(oldPin) || !Sized(newPin) {
        return false;
      }
      var candidate := K.PinHash(master, oldPin);
      var diff := K.SumDifferences(candidate, pinHash[..]);
      if diff != 0 {
        failCount := (failCount + 1) % UINT32;
        var written := WriteState();
        OnlyThePage(old(flash.log), flash.log, PinPage(Ram()), written);
        return false;
      }
      SetHash(K.PinHash(master, newPin));
      failCount := 0;
      ok := WriteState();
      OnlyThePage(old(flash.log), flash.log, PinPage(Ram()), ok);
    }
  }

  /** Any other PIN with the same hash exhibits a collision. */
  lemma OnlyThisPin(master: bytes, pin: bytes)
    ensures forall p :: K.PinHash(master, p) == K.PinHash(master, pin) ==> p == pin || K.PinsCollide(master, p, pin)
  {
    hide K.PinHash, K.PinsCollide;
    forall p | K.PinHash(master, p) == K.PinHash(master, pin) && p != pin
      ensures K.PinsCollide(master, p, pin)
    {
      K.EqualPinHashes(master, p, pin);
    }
  }

  /** The part of HSM_PIN before its terminator, at most 20 bytes. */
  function Provisioned(pin: bytes): bytes {
    Provisioned20(pin, 20)
  }

  function Provisioned20(pin: bytes, room: nat): bytes {
    if room == 0 || pin == [] || pin[0] == 0 then [] else [pin[0]] + Provisioned20(pin[1..], room - 1)
  }

  lemma ProvisionedStep(pin: bytes, n: nat)
    requires n < 20 && n < |pin| && pin[n] != 0
    ensures pin[..n] + Provisioned20(pin[n..], 20 - n) == pin[..n + 1] + Provisioned20(pin[n + 1..], 20 - (n + 1))
  {
    assert pin[n..][1..] == pin[n + 1..];
    assert pin[..n + 1] == pin[..n] + [pin[n]];
  }

  lemma PinPageErase()
    ensures InRange(Erase(PIN_ADDR)) && InRange(Erase(NAME_ADDR))
  {
  }

  /** All commands of a log fragment lie in the PIN page. */
  ghost predicate OnPinPage(ops: seq<Op>) {
    AllWithin(ops, PIN_ADDR, PIN_ADDR + 1024)
  }

  lemma OnlyThePage(before: seq<Op>, after: seq<Op>, image: bytes, ok: bool)
    requires |image| == 1024 && Extends(before, after, PageOps(PIN_ADDR, image), ok)
    ensures |before| <= |after| && after[..|before|] == before && OnPinPage(after[|before|..])
  {
    PageWithin(PIN_ADDR, image);
  }

  /** A page rewrite that ran to its end leaves the page with the image and everything else alone. */
  lemma PageInstalled(origin: Chip, before: seq<Op>, after: seq<Op>, page: nat, image: bytes)
    requires IsChip(origin) && AllInRange(before) && page % 1024 == 0 && page + 1024 <= FLASH_SIZE && |image| == 1024
    requires Extends(before, after, PageOps(page, image), true)
    ensures AllInRange(after) && Flash.Run(origin, after).mem[page..page + 1024] == image
    ensures SameOn(Flash.Run(origin, before), Flash.Run(origin, after), 0, page)
    ensures SameOn(Flash.Run(origin, before), Flash.Run(origin, after), page + 1024, FLASH_SIZE)
  {
    hide Flash.Run, PageOps;
    var c := Flash.Run(origin, before);
    PageWithin(page, image);
    assert PageOps(page, image)[..129] == PageOps(page, image);
    PagePrefix(c, page, image, 129);
    RunConcat(origin, before, PageOps(page, image));
  }

  // ---- permissions ----

  datatype Permission = Permission(group: nat, read: bool, write: bool, receive: bool)

  datatype Right = Reading | Writing | Receiving

  function Grants(p: Permission, r: Right): bool {
    match r
    case Reading => p.read
    case Writing => p.write
    case Receiving => p.receive
  }

  /** validate_permission: the first table entry of the group decides. */
  method ValidatePermission(perms: seq<Permission>, group: nat, r: Right) returns (ok: bool)
    ensures ok <==> Permitted(perms, group, r)
  {
    var i := 0;
    while i < |perms|
      invariant 0 <= i <= |perms|
      invariant forall k :: 0 <= k < i ==> perms[k].group != group
    {
      if perms[i].group == group {
        return Grants(perms[i], r);
      }
      i := i + 1;
    }
    return false;
  }

  /** Some entry of the group grants the right and no earlier entry is of that group. */
  predicate Permitted(perms: seq<Permission>, group: nat, r: Right) {
    exists i :: 0 <= i < |perms| && perms[i].group == group && Grants(perms[i], r)
      && forall k :: 0 <= k < i ==> perms[k].group != group
  }

  /** Which entry decides: the first one of the group. */
  predicate Decides(perms: seq<Permission>, group: nat, i: nat) {
    i < |perms| && perms[i].group == group && forall k :: 0 <= k < i ==> perms[k].group != group
  }

  /** Each right is a field of its own of the deciding entry, and a group without an entry has none. */
  lemma RightsByField(perms: seq<Permission>, group: nat, i: nat)
    requires Decides(perms, group, i)
    ensures Permitted(perms, group, Reading) == perms[i].read
    ensures Permitted(perms, group, Writing) == perms[i].write
    ensures Permitted(perms, group, Receiving) == perms[i].receive
  {
    assert Grants(perms[i], Reading) == perms[i].read && Grants(perms[i], Writing) == perms[i].write;
    assert forall j :: Decides(perms, group, j) ==> j == i;
  }

  lemma NoEntryNoRight(perms: seq<Permission>, group: nat, r: Right)
    requires forall i :: 0 <= i < |perms| ==> perms[i].group != group
    ensures !Permitted(perms, group, r)
  {
  }
}
