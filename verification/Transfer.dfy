/** receive, interrogate and listen of commands.c, as the steps of two devices on a lossless link.
    What the network may do to their messages is the subject of HandshakeRuns; the guards proved
    for the steps here are the ones that machine uses. */
module Transfer {
  import opened Bytes
  import opened Flash
  import opened BlobModel
  import opened BlobRuns
  import opened FlashDevice
  import opened BlobStore
  import opened HsmModel
  import opened Commands
  import opened Wrappers
  import H = HandshakeRuns
  import K = KeySchedule
  import P = Pin
  import R = ReplayRing

  /** A device as the handshake machine sees it. */
  ghost function Party(h: Hsm, requester: H.Requester, listener: H.Listener): H.Device
    reads h.ring
  {
    H.Device(h.perms, requester, listener, R.Accepted(h.ring.calls))
  }

  // ---- receive ----

  /** receive and interrogate, up to the request they send: the PIN gate. */
  method Begin(h: Hsm, pkt: bytes, min: nat) returns (ok: bool)
    requires h.Ready() && min >= 6
    modifies h.Owned()
    ensures h.Ready() && h.guard.initialized == old(h.guard.initialized) && h.guard.pinHash[..] == old(h.guard.pinHash[..])
    ensures ok <==> |pkt| >= min && old(h.PinRight(pkt[..6]))
    ensures h.guard.initialized ==> h.guard.Ram() == AfterGate(h.guard.master, old(h.guard.Ram()), pkt, min)
    ensures h.Flash().reliable && old(h.Synced()) ==> h.Synced() && h.Stored() == old(h.Stored())
  {
    hide Hsm.Synced, Hsm.Stored, P.Attempted, K.PinHash, Store.Valid, P.Guard.Allocated, R.Ring.Valid;
    if |pkt| < min {
      return false;
    }
    ok := h.PinGate(pkt[..6]);
  }

  /** receive, on the challenge: sign it for a group this device may receive. */
  method Prove(h: Hsm, slot: nat, nonce: nat, c: H.Challenge) returns (proof: Option<bytes>)
    requires h.Ready()
    ensures proof.Some? <==> H.WillSign(Party(h, H.WantsFile(slot, nonce), H.Deaf), c)
    ensures proof.Some? ==> proof.value == K.ReceiveProof(h.guard.master, c.group, H.ChallengeBytes(c))
  {
    hide K.ReceiveProof, H.ChallengeBytes, P.Permitted, Hsm.Ready;
    if c.slot != slot || c.requesterNonce != nonce {
      return None;
    }
    var permitted := P.ValidatePermission(h.perms, c.group, P.Receiving);
    if !permitted {
      return None;
    }
    return Some(K.ReceiveProof(h.guard.master, c.group, H.ChallengeBytes(c)));
  }

  // ---- listen, for a file ----

  /** listen, on a file request: the challenge, if the slot is occupied. */
  method Offer(h: Hsm, slot: nat, requesterNonce: nat, targetNonce: nat) returns (offer: Option<H.Challenge>)
    requires h.Ready()
    ensures offer.Some? <==> h.IsOccupied(slot)
    ensures offer.Some? ==> offer.value == H.Challenge(slot, h.names[slot].group, requesterNonce, targetNonce)
    ensures h.Synced() ==> (offer.Some? <==> slot in h.Stored()) && (offer.Some? ==> offer.value.group == h.Stored()[slot].group)
  {
    hide Agree, Files, InRange, Run, AllInRange, Lawful, R.Ring.Valid, P.PinPage, P.Guard.Allocated;
    if h.Synced() {
      AgreeShape(h.store.s, h.Abs(), h.names[..], slot);
    }
    if !h.IsOccupied(slot) {
      return None;
    }
    return Some(H.Challenge(slot, h.names[slot].group, requesterNonce, targetNonce));
  }

  function ResponseOf(f: File): Response {
    Response(f.uuid, f.group, f.name, f.contents)
  }

  /** The guard of listen: the proof repeats the challenge, its MAC is right, and its tuple is not
      among the last eight accepted. */
  method CheckProof(h: Hsm, c: H.Challenge, fields: H.Challenge, proof: bytes) returns (ok: bool)
    requires h.Ready()
    modifies h.ring, h.ring.cache
    ensures h.Ready()
    ensures ok <==> old(H.WillSend(h.guard.master, Party(h, H.Quiet, H.OffersFile(c)), fields, proof))
    ensures R.Accepted(h.ring.calls) == old(R.Accepted(h.ring.calls)) + (if ok then [H.FileTuple(c)] else [])
    ensures old(h.Synced()) ==> h.Synced() && h.Stored() == old(h.Stored())
  {
    hide Agree, Files, K.ReceiveProof, H.ChallengeBytes, R.Window, R.Accepted, R.Holds, Store.Valid, P.Guard.Allocated;
    if fields != c {
      return false;
    }
    if proof != K.ReceiveProof(h.guard.master, fields.group, H.ChallengeBytes(c)) {
      return false;
    }
    ok := h.ring.CheckAndUpdate(H.FileTuple(fields));
  }

  /** listen, on the proof: release the file or refuse. */
  method Release(h: Hsm, c: H.Challenge, fields: H.Challenge, proof: bytes) returns (r: Option<Response>)
    requires h.Ready() && h.IsOccupied(c.slot) && c.group == h.names[c.slot].group
    modifies h.Repr()
    ensures h.Ready() && h.guard.Ram() == old(h.guard.Ram()) && h.guard.initialized == old(h.guard.initialized)
    ensures var sends := old(H.WillSend(h.guard.master, Party(h, H.Quiet, H.OffersFile(c)), fields, proof));
            && (r.Some? ==> sends && IsResponse(r.value) && |r.value.contents| <= MAX_CONTENTS && r.value.group == c.group)
            && R.Accepted(h.ring.calls) == old(R.Accepted(h.ring.calls)) + (if sends then [H.FileTuple(c)] else [])
            && (old(h.Synced()) ==>
                  && h.Synced() && c.slot in h.Stored() && h.Stored() == old(h.Stored())
                  && c.group == h.Stored()[c.slot].group && IsNul(h.Stored()[c.slot].name)
                  && (r.Some? <==> sends && c.group != 0)
                  && (r.Some? ==> r.value == ResponseOf(h.Stored()[c.slot])))
  {
    hide H.WillSend, R.Accepted, R.Ring.Valid, Hsm.Synced, Hsm.Stored, ResponseOf;
    var ok := CheckProof(h, c, fields, proof);
    if h.Synced() {
      OccupiedIsStored(h, c.slot);
    }
    if !ok {
      return None;
    }
    r := ReadResponse(h, c.slot);
  }

  /** A name as save_name_entry leaves it. */
  predicate IsNul(name: bytes) {
    |name| == 32 && name[31] == 0
  }

  lemma NulTerminated(name: bytes)
    requires |name| == 32
    ensures IsNul(name) ==> Terminated(name) == name
    ensures IsNul(Terminated(name)) && Terminated(name)[..31] == name[..31]
  {
  }

  lemma OccupiedIsStored(h: Hsm, slot: nat)
    requires h.Synced() && h.IsOccupied(slot)
    ensures slot in h.Stored() && h.Stored()[slot].group == h.names[slot].group
    ensures h.Stored()[slot].name == h.names[slot].name && IsNul(h.names[slot].name)
  {
    hide Agree, Files, P.Guard.Allocated, R.Ring.Valid, ReadAll, BitAnd, Lawful, InRange, Run, AllInRange;
    AgreeShape(h.store.s, h.Abs(), h.names[..], slot);
    FileReads(h.store.s, h.Abs(), h.names[..], slot, None, 0, 0);
  }

  /** The response: the name entry, the uuid of the FAT entry, and the decrypted contents. */
  method ReadResponse(h: Hsm, slot: nat) returns (r: Option<Response>)
    requires h.Ready() && h.IsOccupied(slot)
    modifies h.large, h.store.aad, h.store.chunkBuffer
    modifies h.store`addr, h.store`processed, h.store`total, h.store`nonce, h.store`key, h.store`expected, h.store`tags
    ensures h.Ready() && h.guard.Ram() == old(h.guard.Ram())
    ensures r.Some? ==> IsResponse(r.value) && |r.value.contents| <= MAX_CONTENTS && r.value.group == old(h.names[slot].group)
    ensures old(h.Synced()) ==>
              && h.Synced() && slot in h.Stored() && h.Stored() == old(h.Stored())
              && (r.Some? <==> h.Stored()[slot].group != 0)
              && (r.Some? ==> r.value == ResponseOf(h.Stored()[slot]))
  {
    hide Agree, Files, InRange, Run, AllInRange, Lawful, R.Ring.Valid, P.PinPage, ReadAll, P.Guard.Allocated, BitAnd,
         Terminated, OpenRead, ReadPieces, FinishRead;
    var uuid, group, name := h.store.fat[slot].uuid, h.names[slot].group, Terminated(h.names[slot].name);
    EntryShape(h.store.fat[..], h.names[..], slot);
    var status, len := h.store.Read(slot, None, group, h.large, 32, MAX_CONTENTS);
    if h.Synced() {
      AgreeShape(h.store.s, h.Abs(), h.names[..], slot);
      FileReads(h.store.s, h.Abs(), h.names[..], slot, None, group, MAX_CONTENTS);
      BitAndSelf(group);
      NulTerminated(h.names[slot].name);
    }
    if status != Good || len > MAX_CONTENTS {
      return None;
    }
    return Some(Response(uuid, group, name, h.large[32..32 + len]));
  }

  lemma EntryShape(fat: seq<FatEntry>, names: seq<NameEntry>, slot: nat)
    requires IsFat(fat) && IsNames(names) && slot < SLOTS
    ensures |fat[slot].uuid| == 16 && |names[slot].name| == 32 && names[slot].group < 0x1_0000
  {
  }

  // ---- interrogate, and listen for a directory ----

  /** interrogate, on the challenge: one signature per group this device may receive. */
  method ProveGroups(h: Hsm, m: nat, n: nat) returns (proofs: seq<(nat, bytes)>)
    requires h.Ready()
    ensures |proofs| <= 8 && Groups(proofs) == H.ReceiveGroups(h.perms)
    ensures forall i :: 0 <= i < |proofs| ==> proofs[i].1 == K.ReceiveProof(h.guard.master, proofs[i].0, H.ListingBytes(m, n, proofs[i].0))
  {
    hide K.ReceiveProof, H.ListingBytes, Hsm.Apart, Store.Valid, P.Guard.Allocated, R.Ring.Valid;
    proofs := [];
    var i := 0;
    assert h.perms[..i] == [];
    while i < |h.perms|
      invariant 0 <= i <= |h.perms| && |proofs| <= i
      invariant Groups(proofs) == H.ReceiveGroups(h.perms[..i])
      invariant forall k :: 0 <= k < |proofs| ==> proofs[k].1 == K.ReceiveProof(h.guard.master, proofs[k].0, H.ListingBytes(m, n, proofs[k].0))
    {
      assert h.perms[..i + 1][..i] == h.perms[..i];
      if h.perms[i].receive {
        var g := h.perms[i].group;
        MoreGroups(proofs, (g, K.ReceiveProof(h.guard.master, g, H.ListingBytes(m, n, g))));
        proofs := proofs + [(g, K.ReceiveProof(h.guard.master, g, H.ListingBytes(m, n, g)))];
      }
      i := i + 1;
    }
    assert h.perms[..i] == h.perms;
  }

  function Groups(proofs: seq<(nat, bytes)>): (gs: seq<nat>)
    ensures |gs| == |proofs|
  {
    seq(|proofs|, i requires 0 <= i < |proofs| => proofs[i].0)
  }

  lemma MoreGroups(proofs: seq<(nat, bytes)>, p: (nat, bytes))
    ensures Groups(proofs + [p]) == Groups(proofs) + [p.0]
  {
  }

  /** The guard of listen for a directory: the nonces are repeated, every MAC is right, and the pair
      of nonces is not among the last eight accepted tuples. */
  method CheckGroups(h: Hsm, m: nat, n: nat, m': nat, n': nat, proofs: seq<(nat, bytes)>) returns (ok: bool)
    requires h.Ready()
    modifies h.ring, h.ring.cache
    ensures h.Ready()
    ensures ok <==> old(H.WillList(h.guard.master, Party(h, H.Quiet, H.OffersList(m, n)), m', n', proofs))
    ensures R.Accepted(h.ring.calls) == old(R.Accepted(h.ring.calls)) + (if ok then [H.ListTuple(m, n)] else [])
    ensures old(h.Synced()) ==> h.Synced() && h.Stored() == old(h.Stored())
    ensures h.names[..] == old(h.names[..]) && h.store.fat[..] == old(h.store.fat[..])
  {
    hide Agree, Files, K.ReceiveProof, H.ListingBytes, R.Window, R.Accepted, R.Holds, Store.Valid, P.Guard.Allocated;
    if |proofs| > 8 || m' != m || n' != n {
      return false;
    }
    var i := 0;
    while i < |proofs|
      invariant 0 <= i <= |proofs|
      invariant forall k :: 0 <= k < i ==> proofs[k].1 == K.ReceiveProof(h.guard.master, proofs[k].0, H.ListingBytes(m, n, proofs[k].0))
    {
      if proofs[i].1 != K.ReceiveProof(h.guard.master, proofs[i].0, H.ListingBytes(m, n, proofs[i].0)) {
        return false;
      }
      i := i + 1;
    }
    ok := h.ring.CheckAndUpdate(H.ListTuple(m, n));
  }

  /** The filtered directory: occupied slots in order, each listed once when some proof is for its
      group. */
  method ListGroups(h: Hsm, proofs: seq<(nat, bytes)>) returns (list: seq<Meta>)
    requires h.Ready()
    ensures list == InGroups(Listing(h.store.fat[..], h.names[..], SLOTS), Groups(proofs))
    ensures h.Synced() ==> list == InGroups(Directory(h.Stored(), SLOTS), Groups(proofs))
    ensures forall m :: m in list ==> m.group in Groups(proofs)
  {
    hide Hsm.Apart, P.Guard.Allocated, R.Ring.Valid, Lawful, InRange, AllInRange, Run, Listing, InGroups, IsFat,
         IsNames, Agree, Files, P.PinPage, Directory;
    list := [];
    ghost var fat, names := h.store.fat[..], h.names[..];
    NothingListed(fat, names, Groups(proofs));
    var slot := 0;
    while slot < SLOTS
      invariant 0 <= slot <= SLOTS && |list| <= slot
      invariant list == InGroups(Listing(fat, names, slot), Groups(proofs))
    {
      OneMoreListed(fat, names, slot, Groups(proofs));
      if h.IsOccupied(slot) && |list| < 8 {
        var meta := Meta(slot, h.names[slot].group, h.names[slot].name);
        var wanted := IsAuthorized(meta.group, proofs);
        if wanted {
          list := list + [meta];
        }
      }
      slot := slot + 1;
    }
    InGroupsIsFilter(Listing(fat, names, SLOTS), Groups(proofs));
    if h.Synced() {
      ListingIsDirectory(h.store.s, h.Abs(), h.names[..], SLOTS);
    }
  }

  /** The inner loop of listen: some proof is for this group. */
  method IsAuthorized(group: nat, proofs: seq<(nat, bytes)>) returns (yes: bool)
    ensures yes <==> group in Groups(proofs)
  {
    var i := 0;
    while i < |proofs|
      invariant 0 <= i <= |proofs|
      invariant forall k :: 0 <= k < i ==> Groups(proofs)[k] != group
    {
      if proofs[i].0 == group {
        assert Groups(proofs)[i] == group;
        return true;
      }
      i := i + 1;
    }
    return false;
  }

  lemma NothingListed(fat: seq<FatEntry>, names: seq<NameEntry>, groups: seq<nat>)
    requires |fat| == SLOTS && |names| == SLOTS
    ensures InGroups(Listing(fat, names, 0), groups) == []
  {
  }

  lemma OneMoreListed(fat: seq<FatEntry>, names: seq<NameEntry>, n: nat, groups: seq<nat>)
    requires |fat| == SLOTS && |names| == SLOTS && n < SLOTS
    ensures InGroups(Listing(fat, names, n + 1), groups)
         == InGroups(Listing(fat, names, n), groups)
            + (if Occupied(fat, names, n) && names[n].group in groups then [Meta(n, names[n].group, names[n].name)] else [])
  {
    hide Occupied;
    if Occupied(fat, names, n) {
      InGroupsOneMore(Listing(fat, names, n), Meta(n, names[n].group, names[n].name), groups);
    } else {
      assert Listing(fat, names, n) + [] == Listing(fat, names, n);
    }
  }

  lemma InGroupsOneMore(list: seq<Meta>, m: Meta, groups: seq<nat>)
    ensures InGroups(list + [m], groups) == InGroups(list, groups) + (if m.group in groups then [m] else [])
  {
    assert (list + [m])[..|list|] == list;
  }

  /** listen, on the proofs: disclose the filtered directory or refuse. */
  method Disclose(h: Hsm, m: nat, n: nat, m': nat, n': nat, proofs: seq<(nat, bytes)>) returns (list: Option<seq<Meta>>)
    requires h.Ready()
    modifies h.ring, h.ring.cache
    ensures h.Ready()
    ensures list.Some? <==> old(H.WillList(h.guard.master, Party(h, H.Quiet, H.OffersList(m, n)), m', n', proofs))
    ensures R.Accepted(h.ring.calls) == old(R.Accepted(h.ring.calls)) + (if list.Some? then [H.ListTuple(m, n)] else [])
    ensures list.Some? ==> forall e :: e in list.value ==> e.group in Groups(proofs)
    ensures old(h.Synced()) ==>
              && h.Synced() && h.Stored() == old(h.Stored())
              && (list.Some? ==> list.value == InGroups(Directory(h.Stored(), SLOTS), Groups(proofs)))
  {
    hide Hsm.Ready, Hsm.Synced, Hsm.Stored, H.WillList, R.Accepted, InGroups, Directory, Listing, Groups;
    var ok := CheckGroups(h, m, n, m', n', proofs);
    if !ok {
      return None;
    }
    Belongings(h);
    var found := ListGroups(h, proofs);
    return Some(found);
  }

  // ---- two devices on a lossless link ----

  ghost predicate Linked(requester: Hsm, target: Hsm)
    reads requester.Repr(), target.Repr()
  {
    && requester.Synced() && requester.Flash().reliable && requester.guard.initialized
    && target.Synced() && requester.guard.master == target.guard.master
    && requester.Repr() !! target.Repr()
  }

  lemma Belongings(h: Hsm)
    ensures h.Owned() <= h.Repr() && h.ring in h.Repr() && h.ring.cache in h.Repr() && h.guard in h.Repr() && h.guard.pinHash in h.Repr()
    ensures forall o :: o in h.Repr() ==> allocated(o)
    ensures h.Synced() ==> h.Ready()
  {
  }

  lemma ListNonce(m: nat, n: nat)
    ensures H.ListTuple(m, n).targetNonce == n
  {
  }

  /** interrogate on one device and listen on the other. */
  method Interrogate(requester: Hsm, target: Hsm, pkt: bytes, m: nat, n: nat) returns (ok: bool, list: seq<Meta>)
    requires Linked(requester, target)
    modifies requester.Owned(), target.ring, target.ring.cache
    ensures Linked(requester, target)
    ensures requester.Stored() == old(requester.Stored()) && target.Stored() == old(target.Stored())
    ensures ok <==> |pkt| >= 6 && old(requester.PinRight(pkt[..6])) && H.ListTuple(m, n) !in R.Window(old(R.Accepted(target.ring.calls)))
    ensures H.Unspent(old(R.Accepted(target.ring.calls)), n) ==> (ok <==> |pkt| >= 6 && old(requester.PinRight(pkt[..6])))
    ensures AtMostOne(old(R.Accepted(target.ring.calls)), R.Accepted(target.ring.calls), n)
    ensures ok ==> list == InGroups(Directory(target.Stored(), SLOTS), H.ReceiveGroups(requester.perms))
  {
    hide H.Unspent, H.ListTuple, Hsm.Ready, Hsm.Synced, Hsm.Stored, Hsm.Repr, Hsm.Owned, Hsm.PinRight, Directory, H.ReceiveGroups,
         K.ReceiveProof, H.ListingBytes, R.Accepted, R.Window, InGroups, Listing, AfterGate, P.Attempted, K.PinHash;
    Belongings(requester);
    Belongings(target);
    H.FreshTuples(R.Accepted(target.ring.calls), H.Challenge(0, 0, 0, 0), m, n);
    ListNonce(m, n);
    ok := Begin(requester, pkt, 6);
    if !ok {
      return false, [];
    }
    var proofs := ProveGroups(requester, m, n);
    var found := Disclose(target, m, n, m, n, proofs);
    if found.None? {
      return false, [];
    }
    list := found.value;
  }

  /** The directory a requester gets: exactly the target's files in groups that the requester may
      receive, each once, in ascending slot order. */
  lemma InterrogateExact(files: map<nat, File>, perms: seq<P.Permission>)
    ensures var list := InGroups(Directory(files, SLOTS), H.ReceiveGroups(perms));
            && (forall i, j :: 0 <= i < j < |list| ==> list[i].slot < list[j].slot)
            && forall e :: e in list <==>
                 && e.slot < SLOTS && e.slot in files && e.group == files[e.slot].group && e.name == files[e.slot].name
                 && H.MayReceive(perms, e.group)
  {
    hide H.MayReceive, H.ReceiveGroups, Directory, InGroups;
    DirectoryExact(files, SLOTS);
    InGroupsIsFilter(Directory(files, SLOTS), H.ReceiveGroups(perms));
    forall e: Meta
      ensures e.group in H.ReceiveGroups(perms) <==> H.MayReceive(perms, e.group)
    {
      H.ReceiveGroupsExact(perms, e.group);
    }
  }

  // ---- end-to-end transfer ----

  /** When receive on one device and listen on the other move a file under a fresh target nonce: the
      PIN is right, the source slot holds a file of a non-zero group that the requester may receive,
      and the destination is a slot. */
  predicate Sendable(right: bool, perms: seq<P.Permission>, files: map<nat, File>, from: nat, to: nat) {
    && right && from in files && to < SLOTS
    && files[from].group != 0 && P.Permitted(perms, files[from].group, P.Receiving)
  }

  /** Under any target nonce, the handshake tuple must not be a recent one either. */
  ghost predicate Transferable(right: bool, perms: seq<P.Permission>, files: map<nat, File>,
                               accepted: seq<R.Handshake>, from: nat, to: nat, m: nat, n: nat) {
    && Sendable(right, perms, files, from, to)
    && H.FileTuple(H.Challenge(from, files[from].group, m, n)) !in R.Window(accepted)
  }

  lemma FreshIsTransferable(right: bool, perms: seq<P.Permission>, files: map<nat, File>,
                            accepted: seq<R.Handshake>, from: nat, to: nat, m: nat, n: nat)
    requires H.Unspent(accepted, n)
    ensures Transferable(right, perms, files, accepted, from, to, m, n) <==> Sendable(right, perms, files, from, to)
  {
    hide P.Permitted, R.Window, H.FileTuple;
    if from in files {
      H.FreshTuples(accepted, H.Challenge(from, files[from].group, m, n), m, n);
    }
  }

  /** The ring has accepted nothing, or one tuple with this target nonce. */
  ghost predicate AtMostOne(before: seq<R.Handshake>, after: seq<R.Handshake>, n: nat) {
    after == before || (|after| == |before| + 1 && before <= after && after[|before|].targetNonce == n)
  }

  /** The outcome on the requester: the copy is installed exactly when it is transferable. */
  ghost predicate Moved(master: bytes, perms: seq<P.Permission>, pkt: bytes, m: nat, n: nat, right: bool, source: map<nat, File>,
                        accepted: seq<R.Handshake>, before: map<nat, File>, ok: bool, after: map<nat, File>) {
    if |pkt| < 8 then !ok && after == before
    else
      var from, to := pkt[6] as nat, pkt[7] as nat;
      && (ok <==> Transferable(right, perms, source, accepted, from, to, m, n))
      && (ok ==> after == before[to := Copied(master, pkt[..6], source[from])])
      && (!ok ==> after == before)
  }

  /** The file as the requester keeps it: under its own PIN, otherwise unchanged. */
  function Copied(master: bytes, pin: bytes, f: File): File {
    f.(owner := K.PinHash(master, pin))
  }

  /** receive on one device and listen on the other: they finish with the file in the requester's
      slot, under its own PIN, exactly when it is transferable; nothing else changes on either. */
  method Transfer(requester: Hsm, target: Hsm, pkt: bytes, m: nat, n: nat, nonce: bytes) returns (ok: bool)
    requires Linked(requester, target) && |nonce| == 12
    modifies requester.Owned(), target.Repr()
    ensures Linked(requester, target) && requester.guard.pinHash[..] == old(requester.guard.pinHash[..])
    ensures target.Stored() == old(target.Stored())
    ensures Moved(requester.guard.master, requester.perms, pkt, m, n, old(|pkt| >= 8 && requester.PinRight(pkt[..6])), old(target.Stored()),
                  old(R.Accepted(target.ring.calls)), old(requester.Stored()), ok, requester.Stored())
    ensures AtMostOne(old(R.Accepted(target.ring.calls)), R.Accepted(target.ring.calls), n)
  {
    hide Hsm.Ready, Hsm.Synced, Hsm.Stored, Hsm.Repr, Hsm.Owned, Hsm.PinRight, K.ReceiveProof, K.PinHash,
         H.ChallengeBytes, R.Accepted, R.Window, P.Permitted, Terminated, IsNul;
    Belongings(requester);
    Belongings(target);
    ok := Begin(requester, pkt, 8);
    if !ok {
      return;
    }
    var from, to := pkt[6] as nat, pkt[7] as nat;
    var offer := Offer(target, from, m, n);
    if offer.None? {
      return false;
    }
    var proof := Prove(requester, from, m, offer.value);
    if proof.None? {
      return false;
    }
    var response := Release(target, offer.value, offer.value, proof.value);
    if response.None? {
      return false;
    }
    ok := requester.StoreReceived(to, response.value, pkt[..6], nonce);
    NulTerminated(response.value.name);
  }

  // ---- any number of transfers ----

  /** One run of receive: its packet, and the nonces drawn for it. */
  datatype Job = Job(pkt: bytes, requesterNonce: nat, targetNonce: nat, nonce: bytes)

  predicate Moves(master: bytes, hash: bytes, perms: seq<P.Permission>, source: map<nat, File>, j: Job) {
    |j.pkt| >= 8 && Sendable(K.PinHash(master, j.pkt[..6]) == hash, perms, source, j.pkt[6] as nat, j.pkt[7] as nat)
  }

  /** What a device holds after asking another for files: no nonce and no replay ring comes into it. */
  function Copies(master: bytes, hash: bytes, perms: seq<P.Permission>, source: map<nat, File>, before: map<nat, File>, jobs: seq<Job>): map<nat, File> {
    if jobs == [] then before
    else
      var j := jobs[|jobs| - 1];
      var files := Copies(master, hash, perms, source, before, jobs[..|jobs| - 1]);
      if Moves(master, hash, perms, source, j) then files[j.pkt[7] as nat := Copied(master, j.pkt[..6], source[j.pkt[6] as nat])]
      else files
  }

  ghost predicate FreshJobs(accepted: seq<R.Handshake>, jobs: seq<Job>) {
    && (forall i :: 0 <= i < |jobs| ==> |jobs[i].nonce| == 12 && H.Unspent(accepted, jobs[i].targetNonce))
    && (forall i, j :: 0 <= i < j < |jobs| ==> jobs[i].targetNonce != jobs[j].targetNonce)
  }

  lemma OneJobLess(before: seq<R.Handshake>, after: seq<R.Handshake>, jobs: seq<Job>)
    requires jobs != [] && FreshJobs(before, jobs) && AtMostOne(before, after, jobs[0].targetNonce)
    ensures FreshJobs(after, jobs[1..])
  {
    forall i | 0 <= i < |jobs[1..]|
      ensures H.Unspent(after, jobs[1..][i].targetNonce)
    {
      assert jobs[1..][i] == jobs[i + 1];
    }
  }

  method TransferFresh(requester: Hsm, target: Hsm, j: Job) returns (ok: bool)
    requires Linked(requester, target) && |j.nonce| == 12 && H.Unspent(R.Accepted(target.ring.calls), j.targetNonce)
    modifies requester.Owned(), target.Repr()
    ensures Linked(requester, target) && requester.guard.pinHash[..] == old(requester.guard.pinHash[..])
    ensures target.Stored() == old(target.Stored())
    ensures ok <==> Moves(requester.guard.master, old(requester.guard.pinHash[..]), requester.perms, old(target.Stored()), j)
    ensures requester.Stored()
         == if ok then old(requester.Stored())[j.pkt[7] as nat := Copied(requester.guard.master, j.pkt[..6], old(target.Stored())[j.pkt[6] as nat])]
            else old(requester.Stored())
    ensures AtMostOne(old(R.Accepted(target.ring.calls)), R.Accepted(target.ring.calls), j.targetNonce)
  {
    hide Hsm.Ready, Hsm.Synced, Hsm.Stored, Hsm.Repr, Hsm.Owned, R.Accepted, R.Window, Transferable, Sendable, K.PinHash,
         H.Unspent, AtMostOne, Copied;
    Belongings(requester);
    Belongings(target);
    ghost var accepted, source, right := R.Accepted(target.ring.calls), target.Stored(), |j.pkt| >= 8 && requester.PinRight(j.pkt[..6]);
    if |j.pkt| >= 8 {
      FreshIsTransferable(right, requester.perms, source, accepted, j.pkt[6] as nat, j.pkt[7] as nat, j.requesterNonce, j.targetNonce);
    }
    ok := Transfer(requester, target, j.pkt, j.requesterNonce, j.targetNonce, j.nonce);
  }

  /** Any number of transfers between two devices, the target drawing distinct nonces: each succeeds
      exactly when its packet, PIN, slots and group allow it, whatever was transferred before. */
  method TransferAll(requester: Hsm, target: Hsm, jobs: seq<Job>) returns (oks: seq<bool>)
    requires Linked(requester, target) && FreshJobs(R.Accepted(target.ring.calls), jobs)
    modifies requester.Owned(), target.Repr()
    ensures Linked(requester, target) && target.Stored() == old(target.Stored())
    ensures |oks| == |jobs|
    ensures forall i :: 0 <= i < |jobs| ==>
              (oks[i] <==> Moves(requester.guard.master, old(requester.guard.pinHash[..]), requester.perms, old(target.Stored()), jobs[i]))
    ensures requester.Stored()
         == Copies(requester.guard.master, old(requester.guard.pinHash[..]), requester.perms, old(target.Stored()), old(requester.Stored()), jobs)
  {
    hide Hsm.Ready, Hsm.Synced, Hsm.Stored, Hsm.Repr, Hsm.Owned, R.Accepted, R.Window, Moves, Copied, H.Unspent;
    Belongings(requester);
    Belongings(target);
    ghost var source, hash := target.Stored(), requester.guard.pinHash[..];
    oks := [];
    var i := 0;
    assert jobs[..i] == [] && jobs[i..] == jobs;
    while i < |jobs|
      invariant 0 <= i <= |jobs| && |oks| == i
      invariant Linked(requester, target) && target.Stored() == source && requester.guard.pinHash[..] == hash
      invariant forall k :: 0 <= k < i ==> (oks[k] <==> Moves(requester.guard.master, hash, requester.perms, source, jobs[k]))
      invariant requester.Stored() == Copies(requester.guard.master, hash, requester.perms, source, old(requester.Stored()), jobs[..i])
      invariant FreshJobs(R.Accepted(target.ring.calls), jobs[i..])
    {
      assert jobs[..i + 1][..i] == jobs[..i];
      ghost var before := R.Accepted(target.ring.calls);
      assert jobs[i..][0] == jobs[i];
      var ok := TransferFresh(requester, target, jobs[i]);
      OneJobLess(before, R.Accepted(target.ring.calls), jobs[i..]);
      assert jobs[i..][1..] == jobs[i + 1..];
      oks := oks + [ok];
      i := i + 1;
    }
    assert jobs[..i] == jobs;
  }

  /** After a transfer, a read of the destination under the same PIN replies with the name and the
      contents of the source file, exactly when its group may be read there. */
  method TransferThenRead(requester: Hsm, target: Hsm, pkt: bytes, m: nat, n: nat, nonce: bytes)
    returns (ok: bool, found: bool, reply: bytes)
    requires Linked(requester, target) && |nonce| == 12
    modifies requester.Owned(), target.Repr()
    ensures Linked(requester, target)
    ensures Moved(requester.guard.master, requester.perms, pkt, m, n, old(|pkt| >= 8 && requester.PinRight(pkt[..6])), old(target.Stored()),
                  old(R.Accepted(target.ring.calls)), old(requester.Stored()), ok, requester.Stored())
    ensures found ==> ok
    ensures ok ==> |pkt| >= 8 && pkt[6] as nat in old(target.Stored())
                   && (var f := old(target.Stored())[pkt[6] as nat];
                       && (found <==> P.Permitted(requester.perms, f.group, P.Reading))
                       && (found ==> reply == f.name + f.contents))
  {
    hide Hsm.Ready, Hsm.Synced, Hsm.Stored, Hsm.Repr, Hsm.Owned, K.PinHash, R.Accepted, R.Window, P.Permitted;
    Belongings(requester);
    Belongings(target);
    ok := Transfer(requester, target, pkt, m, n, nonce);
    if !ok {
      return ok, false, [];
    }
    Belongings(requester);
    Belongings(target);
    var again := pkt[..6] + [pkt[7]];
    assert again[..6] == pkt[..6] && again[6] == pkt[7];
    found, reply := requester.Read(again);
  }
}
