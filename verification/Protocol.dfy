/** The code of receive, interrogate and listen on any number of devices, against the handshake
    machine: each message that reaches a device makes the code take a step of that machine, so what
    is proved of its runs holds of the devices. */
module Protocol {
  import opened Bytes
  import opened BlobModel
  import opened BlobStore
  import opened HsmModel
  import opened Commands
  import opened Transfer
  import opened Wrappers
  import H = HandshakeRuns
  import K = KeySchedule
  import P = Pin
  import R = ReplayRing

  /** Where a device is inside receive or interrogate, and inside listen. */
  datatype Role = Role(requester: H.Requester, listener: H.Listener)

  /** What a device has offered is still there: listen does nothing else while it waits. */
  ghost predicate Offers(h: Hsm, listener: H.Listener)
    reads h.Repr()
    requires h.Ready()
  {
    listener.OffersFile? ==>
      h.IsOccupied(listener.challenge.slot) && listener.challenge.group == h.names[listener.challenge.slot].group
  }

  /** The device plays its part in a world of the machine. */
  ghost predicate Plays(h: Hsm, role: Role, d: H.Device, master: bytes)
    reads h.Repr()
  {
    h.Ready() && h.guard.master == master && d == Party(h, role.requester, role.listener) && Offers(h, role.listener)
  }

  /** A message that reaches a device, or something its host makes it do. */
  datatype Input =
    | WantFile(who: nat, slot: nat, nonce: nat)
    | WantList(who: nat, nonce: nat)
    | FileChallenge(who: nat, challenge: H.Challenge)
    | ListChallenge(who: nat, requesterNonce: nat, targetNonce: nat)
    | FileRequest(who: nat, slot: nat, requesterNonce: nat, nonce: nat)
    | ListRequest(who: nat, requesterNonce: nat, nonce: nat)
    | FileProof(who: nat, fields: H.Challenge, proof: bytes)
    | ListProof(who: nat, requesterNonce: nat, targetNonce: nat, proofs: seq<(nat, bytes)>)
    | TimeOut(who: nat)

  datatype Output =
    | Nothing
    | Challenge(challenge: H.Challenge)
    | Proof(proof: bytes)
    | Proofs(proofs: seq<(nat, bytes)>)
    | Sent(response: Response)
    | Listed(list: seq<Meta>)

  /** Fields have the widths of the C structs. */
  predicate IsInput(i: Input) {
    match i
    case WantFile(_, slot, nonce) => slot < 256 && nonce < 0x1_0000_0000
    case WantList(_, nonce) => nonce < 0x1_0000_0000
    case FileChallenge(_, c) => H.IsChallenge(c)
    case ListChallenge(_, m, n) => m < 0x1_0000_0000 && n < 0x1_0000_0000
    case FileRequest(_, slot, m, nonce) => slot < 256 && m < 0x1_0000_0000 && nonce < 0x1_0000_0000
    case ListRequest(_, m, nonce) => m < 0x1_0000_0000 && nonce < 0x1_0000_0000
    case FileProof(_, c, _) => H.IsChallenge(c)
    case ListProof(_, m, n, proofs) =>
      m < 0x1_0000_0000 && n < 0x1_0000_0000 && forall k :: 0 <= k < |proofs| ==> proofs[k].0 < 0x1_0000
    case TimeOut(_) => true
  }

  /** The event of the machine that an input is for a device that occupies the slot asked for, if it
      asks for one, with that group. A request for an empty slot ends listen. */
  function EventOf(i: Input, group: Option<nat>): H.Event {
    match i
    case WantFile(who, slot, nonce) => H.AskFile(who, slot, nonce)
    case WantList(who, nonce) => H.AskList(who, nonce)
    case FileChallenge(who, c) => H.FileChallengeArrives(who, c)
    case ListChallenge(who, m, n) => H.ListChallengeArrives(who, m, n)
    case FileRequest(who, slot, m, nonce) =>
      if group.Some? then H.FileRequestArrives(who, slot, m, group.value, nonce) else H.Abandon(who)
    case ListRequest(who, m, nonce) => H.ListRequestArrives(who, m, nonce)
    case FileProof(who, c, proof) => H.FileProofArrives(who, c, proof)
    case ListProof(who, m, n, proofs) => H.ListProofArrives(who, m, n, proofs)
    case TimeOut(who) => H.Abandon(who)
  }

  // ---- one device ----

  /** The device takes its step of the machine. */
  ghost predicate Steps(h: Hsm, role: Role, w: H.World, e: H.Event)
    reads h.Repr()
    requires e.who < |w.devices|
  {
    Plays(h, role, H.Next(w, e).devices[e.who], w.master)
  }

  /** receive and interrogate ask, or anything gives up. */
  method Turn(h: Hsm, role: Role, i: Input, ghost w: H.World) returns (next: Role)
    requires i.who < |w.devices| && Plays(h, role, w.devices[i.who], w.master)
    requires i.WantFile? || i.WantList? || i.TimeOut?
    ensures Steps(h, next, w, EventOf(i, None))
  {
    hide Hsm.Ready;
    match i {
      case WantFile(_, slot, nonce) => next := role.(requester := H.WantsFile(slot, nonce));
      case WantList(_, nonce) => next := role.(requester := H.WantsList(nonce));
      case TimeOut(_) => next := Role(H.Quiet, H.Deaf);
    }
  }

  /** receive, on a challenge. */
  method OnFileChallenge(h: Hsm, role: Role, i: Input, ghost w: H.World) returns (next: Role, out: Output)
    requires i.who < |w.devices| && Plays(h, role, w.devices[i.who], w.master) && i.FileChallenge?
    ensures Steps(h, next, w, EventOf(i, None))
    ensures out.Proof? <==> |H.Next(w, EventOf(i, None)).signed| > |w.signed|
    ensures out == Nothing || out.Proof?
    ensures out.Proof? ==> out.proof == K.ReceiveProof(w.master, i.challenge.group, H.ChallengeBytes(i.challenge))
  {
    hide Hsm.Ready, H.ChallengeBytes, K.ReceiveProof, P.Permitted;
    next, out := role.(requester := H.Quiet), Nothing;
    Belongings(h);
    if role.requester.WantsFile? {
      var proof := Prove(h, role.requester.slot, role.requester.nonce, i.challenge);
      if proof.Some? {
        out := Proof(proof.value);
      }
    }
  }

  /** interrogate, on a challenge. */
  method OnListChallenge(h: Hsm, role: Role, i: Input, ghost w: H.World) returns (next: Role, out: Output)
    requires i.who < |w.devices| && Plays(h, role, w.devices[i.who], w.master) && i.ListChallenge?
    ensures Steps(h, next, w, EventOf(i, None))
    ensures out == Nothing || out.Proofs?
    ensures out.Proofs? ==> SignedFor(w, H.Next(w, EventOf(i, None)), i, out.proofs)
  {
    hide Hsm.Ready, H.ListingBytes, K.ReceiveProof;
    next, out := role.(requester := H.Quiet), Nothing;
    Belongings(h);
    if role.requester == H.WantsList(i.requesterNonce) {
      var proofs := ProveGroups(h, i.requesterNonce, i.targetNonce);
      out := Proofs(proofs);
    }
  }

  /** Each proof sent is the MAC of a signature that the step recorded. */
  ghost predicate SignedFor(w: H.World, next: H.World, i: Input, proofs: seq<(nat, bytes)>)
    requires i.ListChallenge?
  {
    && |next.signed| == |w.signed| + |proofs|
    && forall k :: 0 <= k < |proofs| ==>
         && next.signed[|w.signed| + k].group == proofs[k].0
         && proofs[k].1 == K.ReceiveProof(w.master, proofs[k].0, next.signed[|w.signed| + k].message)
  }

  /** listen, on a request for a file. */
  method OnFileRequest(h: Hsm, role: Role, i: Input, ghost w: H.World) returns (next: Role, out: Output)
    requires i.who < |w.devices| && Plays(h, role, w.devices[i.who], w.master) && i.FileRequest?
    ensures out.Challenge? <==> h.IsOccupied(i.slot)
    ensures Steps(h, next, w, EventOf(i, if h.IsOccupied(i.slot) then Some(h.names[i.slot].group) else None))
    ensures out == Nothing || out.Challenge?
    ensures out.Challenge? ==> next.listener == H.OffersFile(out.challenge)
  {
    var offer := Offer(h, i.slot, i.requesterNonce, i.nonce);
    if offer.None? {
      return Role(H.Quiet, H.Deaf), Nothing;
    }
    return role.(listener := H.OffersFile(offer.value)), Challenge(offer.value);
  }

  /** listen, on a request for the directory. */
  method OnListRequest(h: Hsm, role: Role, i: Input, ghost w: H.World) returns (next: Role)
    requires i.who < |w.devices| && Plays(h, role, w.devices[i.who], w.master) && i.ListRequest?
    ensures Steps(h, next, w, EventOf(i, None))
  {
    hide Hsm.Ready;
    next := role.(listener := H.OffersList(i.requesterNonce, i.nonce));
  }

  /** What leaves carries the groups that were proved. */
  ghost predicate AsProved(i: Input, out: Output) {
    && (out.Sent? ==> i.FileProof? && out.response.group == i.fields.group)
    && (out.Listed? ==> i.ListProof? && forall m :: m in out.list ==> m.group in Groups(i.proofs))
  }

  /** What leaves is the file of the slot that was proved, or the directory of the groups that were. */
  ghost predicate FromFiles(i: Input, out: Output, files: map<nat, File>) {
    && (out.Sent? ==> i.FileProof? && i.fields.slot in files && out.response == ResponseOf(files[i.fields.slot]))
    && (out.Listed? ==> i.ListProof? && out.list == InGroups(Directory(files, SLOTS), Groups(i.proofs)))
  }

  /** When the guard of listen lets what was asked for go, the replay ring included. */
  ghost predicate GuardOpens(w: H.World, i: Input)
    requires i.who < |w.devices|
  {
    match i
    case FileProof(who, c, proof) => H.WillSend(w.master, w.devices[who], c, proof)
    case ListProof(who, m, n, proofs) => H.WillList(w.master, w.devices[who], m, n, proofs)
    case _ => false
  }

  /** The proofs are right for what the device offered. */
  predicate RightProof(master: bytes, role: Role, i: Input) {
    match i
    case FileProof(_, c, proof) =>
      role.listener == H.OffersFile(c) && proof == K.ReceiveProof(master, c.group, H.ChallengeBytes(c))
    case ListProof(_, m, n, proofs) =>
      && role.listener == H.OffersList(m, n) && |proofs| <= 8
      && forall k :: 0 <= k < |proofs| ==> proofs[k].1 == K.ReceiveProof(master, proofs[k].0, H.ListingBytes(m, n, proofs[k].0))
    case _ => false
  }

  /** listen, on a proof for a file. */
  method OnFileProof(h: Hsm, role: Role, i: Input, ghost w: H.World) returns (next: Role, out: Output)
    requires i.who < |w.devices| && Plays(h, role, w.devices[i.who], w.master) && i.FileProof?
    modifies h.Repr()
    ensures Steps(h, next, w, EventOf(i, None))
    ensures out.Sent? ==> role.listener == H.OffersFile(i.fields)
                          && H.Next(w, EventOf(i, None)).released == w.released + [H.FileSent(i.who, i.fields, |w.signed|)]
    ensures (out == Nothing || out.Sent?) && AsProved(i, out)
    ensures old(h.Synced()) ==> (out.Sent? <==> GuardOpens(w, i) && i.fields.group != 0)
    ensures old(h.Synced()) ==> h.Synced() && h.Stored() == old(h.Stored()) && FromFiles(i, out, h.Stored())
  {
    hide Hsm.Ready, Hsm.Synced, Hsm.Stored, ResponseOf, H.ChallengeBytes, K.ReceiveProof, R.Accepted, R.Window;
    next, out := role.(listener := H.Deaf), Nothing;
    if role.listener.OffersFile? {
      var r := Release(h, role.listener.challenge, i.fields, i.proof);
      if r.Some? {
        out := Sent(r.value);
      }
    }
  }

  /** listen, on the proofs for a directory. */
  method OnListProof(h: Hsm, role: Role, i: Input, ghost w: H.World) returns (next: Role, out: Output)
    requires i.who < |w.devices| && Plays(h, role, w.devices[i.who], w.master) && i.ListProof?
    modifies h.Repr()
    ensures Steps(h, next, w, EventOf(i, None))
    ensures out.Listed? ==> H.Next(w, EventOf(i, None)).released
                            == w.released + H.Listed(i.who, i.requesterNonce, i.targetNonce, i.proofs, |w.signed|)
    ensures (out == Nothing || out.Listed?) && AsProved(i, out)
    ensures out.Listed? <==> GuardOpens(w, i)
    ensures old(h.Synced()) ==> h.Synced() && h.Stored() == old(h.Stored()) && FromFiles(i, out, h.Stored())
  {
    hide Hsm.Ready, Hsm.Synced, Hsm.Stored, InGroups, Listing, Directory, Groups, H.ListingBytes, K.ReceiveProof, R.Accepted, R.Window;
    next, out := role.(listener := H.Deaf), Nothing;
    if role.listener.OffersList? {
      var list := Disclose(h, role.listener.requesterNonce, role.listener.targetNonce, i.requesterNonce, i.targetNonce, i.proofs);
      if list.Some? {
        out := Listed(list.value);
      }
    }
  }

  /** A challenge, or the wish to ask for something. */
  method Request(h: Hsm, role: Role, i: Input, ghost w: H.World) returns (next: Role, out: Output)
    requires i.who < |w.devices| && Plays(h, role, w.devices[i.who], w.master)
    requires !i.FileProof? && !i.ListProof? && !i.FileRequest? && !i.ListRequest?
    ensures Steps(h, next, w, EventOf(i, None)) && !out.Sent? && !out.Listed?
  {
    hide Plays, Steps, H.Next, EventOf;
    if i.FileChallenge? {
      next, out := OnFileChallenge(h, role, i, w);
    } else if i.ListChallenge? {
      next, out := OnListChallenge(h, role, i, w);
    } else {
      next := Turn(h, role, i, w);
      out := Nothing;
    }
  }

  /** A request to a device that listens. */
  method Respond(h: Hsm, role: Role, i: Input, ghost w: H.World) returns (next: Role, out: Output, ghost e: H.Event)
    requires i.who < |w.devices| && Plays(h, role, w.devices[i.who], w.master) && IsInput(i)
    requires i.FileRequest? || i.ListRequest?
    ensures e.who == i.who && H.Sized(e) && (e == EventOf(i, None) || e.FileRequestArrives?)
    ensures Steps(h, next, w, e) && !out.Sent? && !out.Listed?
  {
    hide Plays, Steps, H.Next;
    if i.FileRequest? {
      GroupFits(h, role, i, w);
      e := EventOf(i, if h.IsOccupied(i.slot) then Some(h.names[i.slot].group) else None);
      next, out := OnFileRequest(h, role, i, w);
    } else {
      e := EventOf(i, None);
      next := OnListRequest(h, role, i, w);
      out := Nothing;
    }
  }

  /** Whatever reaches a device. */
  method Take(h: Hsm, role: Role, i: Input, ghost w: H.World) returns (next: Role, out: Output, ghost e: H.Event)
    requires i.who < |w.devices| && Plays(h, role, w.devices[i.who], w.master) && IsInput(i)
    modifies h.Repr()
    ensures e.who == i.who && H.Sized(e) && (e == EventOf(i, None) || e.FileRequestArrives?)
    ensures Steps(h, next, w, e)
    ensures out.Sent? ==> i.FileProof? && H.Next(w, e).released == w.released + [H.FileSent(i.who, i.fields, |w.signed|)]
    ensures out.Listed? ==> i.ListProof? && H.Next(w, e).released
                            == w.released + H.Listed(i.who, i.requesterNonce, i.targetNonce, i.proofs, |w.signed|)
    ensures AsProved(i, out)
    ensures i.FileProof? && old(h.Synced()) ==> (out.Sent? <==> GuardOpens(w, i) && i.fields.group != 0)
    ensures i.ListProof? ==> (out.Listed? <==> GuardOpens(w, i))
    ensures old(h.Synced()) ==> h.Synced() && h.Stored() == old(h.Stored()) && FromFiles(i, out, h.Stored())
  {
    hide Plays, Steps, H.Next, Hsm.Synced, Hsm.Stored, InGroups, Directory, ResponseOf, GuardOpens;
    if i.FileProof? {
      e := EventOf(i, None);
      next, out := OnFileProof(h, role, i, w);
    } else if i.ListProof? {
      e := EventOf(i, None);
      next, out := OnListProof(h, role, i, w);
    } else if i.FileRequest? || i.ListRequest? {
      next, out, e := Respond(h, role, i, w);
    } else {
      e := EventOf(i, None);
      next, out := Request(h, role, i, w);
    }
  }

  lemma GroupFits(h: Hsm, role: Role, i: Input, w: H.World)
    requires i.who < |w.devices| && Plays(h, role, w.devices[i.who], w.master) && i.FileRequest?
    ensures h.Ready() && (h.IsOccupied(i.slot) ==> h.names[i.slot].group < 0x1_0000)
  {
    hide Store.Valid, P.Guard.Allocated, R.Ring.Valid;
  }

  // ---- any number of devices, and the network between them ----

  ghost predicate Joined(hs: seq<Hsm>, roles: seq<Role>, w: H.World)
    reads set k, o | 0 <= k < |hs| && o in hs[k].Repr() :: o
  {
    && |hs| == |roles| == |w.devices|
    && (forall k :: 0 <= k < |hs| ==> Plays(hs[k], roles[k], w.devices[k], w.master))
    && (forall k, l :: 0 <= k < l < |hs| ==> hs[k].Repr() !! hs[l].Repr())
  }

  lemma RunGrows(w0: H.World, run: seq<H.Event>, e: H.Event)
    requires H.IsRun(w0, run) && H.Possible(H.After(w0, run), e)
    ensures H.IsRun(w0, run + [e]) && H.After(w0, run + [e]) == H.Next(H.After(w0, run), e)
  {
    hide H.Next, H.Possible;
    assert (run + [e])[..|run + [e]| - 1] == run;
  }

  lemma RequestsUnforged(w: H.World, e: H.Event)
    ensures e.FileRequestArrives? || e.Reboot? ==> H.Unforged(w, e)
    ensures e.Reboot? ==> H.Sized(e)
  {
  }

  lemma OthersWait(w: H.World, e: H.Event, k: nat)
    requires e.who < |w.devices| && k < |w.devices|
    ensures |H.Next(w, e).devices| == |w.devices| && H.Next(w, e).master == w.master
    ensures k != e.who ==> H.Next(w, e).devices[k] == w.devices[k]
  {
    hide H.WillSign, H.WillSend, H.WillList;
  }

  ghost predicate FileSigned(w: H.World, i: Input)
    requires i.FileProof?
  {
    H.Authorised(w, H.FileSent(i.who, i.fields, |w.signed|))
  }

  ghost predicate GroupSigned(w: H.World, i: Input, g: nat)
    requires i.ListProof?
  {
    H.Authorised(w, H.GroupListed(i.who, i.requesterNonce, i.targetNonce, g, |w.signed|))
  }

  ghost predicate AllSigned(w: H.World, i: Input)
    requires i.ListProof?
  {
    forall k :: 0 <= k < |i.proofs| ==> GroupSigned(w, i, i.proofs[k].0)
  }

  /** One message reaches one device of many. The devices stay a state of a run of the handshake
      machine; a file that leaves, or a group that is listed, had been signed for before; and with
      distinct target nonces nothing is released twice under one of them. */
  method Deliver(hs: seq<Hsm>, roles: seq<Role>, i: Input, ghost w0: H.World, ghost run: seq<H.Event>)
    returns (next: seq<Role>, out: Output, ghost e: H.Event)
    requires H.Initial(w0) && H.IsRun(w0, run) && Joined(hs, roles, H.After(w0, run))
    requires i.who < |hs| && IsInput(i) && H.Unforged(H.After(w0, run), EventOf(i, None))
    modifies hs[i.who].Repr()
    ensures H.IsRun(w0, run + [e]) && Joined(hs, next, H.After(w0, run + [e]))
    ensures out.Sent? ==> i.FileProof? && FileSigned(H.After(w0, run), i)
    ensures H.Distinct(H.After(w0, run + [e]).nonces) ==> H.FreshReleases(H.After(w0, run), H.After(w0, run + [e]))
    ensures out.Sent? && H.Distinct(H.After(w0, run + [e]).nonces) ==> NotSentBefore(H.After(w0, run), i.fields)
    ensures out.Listed? ==> i.ListProof? && AllSigned(H.After(w0, run), i)
                            && forall m :: m in out.list ==> GroupSigned(H.After(w0, run), i, m.group)
    ensures AsProved(i, out)
    ensures H.Distinct(H.After(w0, run).nonces) && i.FileProof? && old(hs[i.who].Synced()) ==>
              (out.Sent? <==> RightProof(H.After(w0, run).master, roles[i.who], i) && i.fields.group != 0)
    ensures H.Distinct(H.After(w0, run).nonces) && i.ListProof? ==>
              (out.Listed? <==> RightProof(H.After(w0, run).master, roles[i.who], i))
    ensures old(hs[i.who].Synced()) ==>
              hs[i.who].Synced() && hs[i.who].Stored() == old(hs[i.who].Stored()) && FromFiles(i, out, hs[i.who].Stored())
  {
    hide FromFiles, GuardOpens, RightProof, Hsm.Synced, Hsm.Stored, Plays, H.Next, H.Unforged, H.After, H.IsRun, Hsm.Repr, FileSigned, GroupSigned, H.Initial, H.Distinct, H.FreshReleases, NotSentBefore;
    ghost var w := H.After(w0, run);
    forall k | 0 <= k < |hs| {
      Belongings(hs[k]);
    }
    if H.Distinct(w.nonces) {
      RightProofOpens(w0, run, roles[i.who], i, hs[i.who]);
    }
    var role;
    role, out, e := Take(hs[i.who], roles[i.who], i, w);
    next := roles[i.who := role];
    RequestsUnforged(w, e);
    OthersWait(w, e, i.who);
    RunGrows(w0, run, e);
    forall k | 0 <= k < |hs|
      ensures Plays(hs[k], next[k], H.Next(w, e).devices[k], w.master)
    {
      OthersWait(w, e, k);
    }
    if H.Distinct(H.After(w0, run + [e]).nonces) {
      H.NonceSpentOnce(w0, run, e);
    }
    if out.Sent? {
      FileAuthorised(w0, run, e, i);
      if H.Distinct(H.After(w0, run + [e]).nonces) {
        SentOnce(w0, run, e, i.who, i.fields);
      }
    } else if out.Listed? {
      ListAuthorised(w0, run, e, i);
      ListedSigned(w, i, out);
    }
  }

  /** With distinct target nonces the ring never stands in the way of a right proof. */
  lemma RightProofOpens(w0: H.World, run: seq<H.Event>, role: Role, i: Input, h: Hsm)
    requires H.Initial(w0) && H.IsRun(w0, run) && H.Distinct(H.After(w0, run).nonces)
    requires var w := H.After(w0, run); i.who < |w.devices| && Plays(h, role, w.devices[i.who], w.master)
    ensures GuardOpens(H.After(w0, run), i) <==> RightProof(H.After(w0, run).master, role, i)
  {
    hide H.After, H.IsRun, H.Initial, H.Distinct, Hsm.Ready, H.WillSend, H.WillList, K.ReceiveProof, H.ChallengeBytes, H.ListingBytes;
    H.RightProofPasses(w0, run, i.who);
    var w := H.After(w0, run);
    var d := w.devices[i.who];
    assert d.listener == role.listener;
    match i {
      case FileProof(who, c, proof) => assert GuardOpens(w, i) == H.WillSend(w.master, d, c, proof);
      case ListProof(who, m, n, proofs) => assert GuardOpens(w, i) == H.WillList(w.master, d, m, n, proofs);
      case _ =>
    }
  }

  lemma FileAuthorised(w0: H.World, run: seq<H.Event>, e: H.Event, i: Input)
    requires H.Initial(w0) && H.IsRun(w0, run) && H.IsRun(w0, run + [e]) && e.who < |H.After(w0, run).devices|
    requires i.FileProof?
    requires var w := H.After(w0, run);
             H.After(w0, run + [e]) == H.Next(w, e) && H.Next(w, e).released == w.released + [H.FileSent(i.who, i.fields, |w.signed|)]
    ensures FileSigned(H.After(w0, run), i)
  {
    hide H.Next, H.After, H.IsRun, H.Initial, H.Authorised;
    var w := H.After(w0, run);
    H.AuthorisedRelease(w0, run + [e], |w.released|);
    H.AuthorisedBefore(w, e, H.FileSent(i.who, i.fields, |w.signed|));
  }

  ghost predicate NotSentBefore(w: H.World, c: H.Challenge) {
    forall l :: 0 <= l < |w.released| && w.released[l].FileSent? ==> w.released[l].challenge != c
  }

  lemma SentOnce(w0: H.World, run: seq<H.Event>, e: H.Event, who: nat, c: H.Challenge)
    requires H.Initial(w0) && H.IsRun(w0, run) && H.IsRun(w0, run + [e]) && e.who < |H.After(w0, run).devices|
    requires var w := H.After(w0, run);
             H.After(w0, run + [e]) == H.Next(w, e) && H.Next(w, e).released == w.released + [H.FileSent(who, c, |w.signed|)]
    requires H.Distinct(H.After(w0, run + [e]).nonces)
    ensures NotSentBefore(H.After(w0, run), c)
  {
    hide H.Next, H.After, H.IsRun, H.Initial, H.Distinct;
    var w, end := H.After(w0, run), H.After(w0, run + [e]);
    forall l | 0 <= l < |w.released| && w.released[l].FileSent?
      ensures w.released[l].challenge != c
    {
      assert end.released[l] == w.released[l] && end.released[|w.released|] == H.FileSent(who, c, |w.signed|);
      H.ProofUsedOnce(w0, run + [e], |w.released|, l);
    }
  }

  lemma GroupAuthorised(w0: H.World, run: seq<H.Event>, e: H.Event, i: Input, k: nat)
    requires H.Initial(w0) && H.IsRun(w0, run) && H.IsRun(w0, run + [e]) && e.who < |H.After(w0, run).devices|
    requires i.ListProof? && k < |i.proofs|
    requires var w := H.After(w0, run);
             && H.After(w0, run + [e]) == H.Next(w, e)
             && H.Next(w, e).released == w.released + H.Listed(i.who, i.requesterNonce, i.targetNonce, i.proofs, |w.signed|)
    ensures GroupSigned(H.After(w0, run), i, i.proofs[k].0)
  {
    hide H.Next, H.After, H.IsRun, H.Initial, H.Authorised;
    var w := H.After(w0, run);
    H.AuthorisedRelease(w0, run + [e], |w.released| + k);
    H.AuthorisedBefore(w, e, H.GroupListed(i.who, i.requesterNonce, i.targetNonce, i.proofs[k].0, |w.signed|));
  }

  lemma ListedSigned(w: H.World, i: Input, out: Output)
    requires i.ListProof? && out.Listed? && AllSigned(w, i) && AsProved(i, out)
    ensures forall m :: m in out.list ==> GroupSigned(w, i, m.group)
  {
    hide GroupSigned;
  }

  lemma ListAuthorised(w0: H.World, run: seq<H.Event>, e: H.Event, i: Input)
    requires H.Initial(w0) && H.IsRun(w0, run) && H.IsRun(w0, run + [e]) && e.who < |H.After(w0, run).devices|
    requires i.ListProof?
    requires var w := H.After(w0, run);
             && H.After(w0, run + [e]) == H.Next(w, e)
             && H.Next(w, e).released == w.released + H.Listed(i.who, i.requesterNonce, i.targetNonce, i.proofs, |w.signed|)
    ensures AllSigned(H.After(w0, run), i)
  {
    hide H.Next, H.After, H.IsRun, H.Initial, GroupSigned;
    forall k | 0 <= k < |i.proofs|
      ensures GroupSigned(H.After(w0, run), i, i.proofs[k].0)
    {
      GroupAuthorised(w0, run, e, i, k);
    }
  }

  /** A device is switched off and on: a fresh object stands for it, with an empty ring. */
  method Restart(hs: seq<Hsm>, roles: seq<Role>, who: nat, provisioned: bytes, ghost w0: H.World, ghost run: seq<H.Event>)
    returns (after: seq<Hsm>, next: seq<Role>)
    requires H.Initial(w0) && H.IsRun(w0, run) && Joined(hs, roles, H.After(w0, run)) && who < |hs|
    modifies hs[who].Repr()
    ensures H.IsRun(w0, run + [H.Reboot(who)]) && Joined(after, next, H.After(w0, run + [H.Reboot(who)]))
  {
    hide Plays, H.Next, H.Unforged, H.After, H.IsRun, Hsm.Repr, H.Initial, Hsm.Ready;
    ghost var w := H.After(w0, run);
    forall k | 0 <= k < |hs| {
      Belongings(hs[k]);
    }
    var h := PowerCycle(hs[who], roles[who], who, provisioned, w);
    after, next := hs[who := h], roles[who := Role(H.Quiet, H.Deaf)];
    RequestsUnforged(w, H.Reboot(who));
    OthersWait(w, H.Reboot(who), who);
    RunGrows(w0, run, H.Reboot(who));
    forall k | 0 <= k < |hs|
      ensures Plays(after[k], next[k], H.Next(w, H.Reboot(who)).devices[k], w.master)
    {
      OthersWait(w, H.Reboot(who), k);
    }
  }

  method PowerCycle(h: Hsm, role: Role, who: nat, provisioned: bytes, ghost w: H.World) returns (next: Hsm)
    requires who < |w.devices| && Plays(h, role, w.devices[who], w.master)
    modifies h.Repr()
    ensures Steps(next, Role(H.Quiet, H.Deaf), w, H.Reboot(who)) && fresh(next.Repr() - h.Repr())
  {
    hide Hsm.Ready;
    next := h.Reboot(provisioned);
  }
}
