/** The HSM-to-HSM handshake of commands.c (receive, interrogate, listen): its messages, its guards,
    and every run of any number of devices that share K_master over a network which drops,
    reorders, replays and invents messages but cannot forge a MAC. */
module HandshakeRuns {
  import opened Bytes
  import K = KeySchedule
  import P = Pin
  import opened ReplayRing

  // ---- messages ----

  /** receive_challenge_t; the proof repeats these fields. */
  datatype Challenge = Challenge(slot: nat, group: nat, requesterNonce: nat, targetNonce: nat)

  predicate IsChallenge(c: Challenge) {
    c.slot < 256 && c.group < 0x1_0000 && c.requesterNonce < 0x1_0000_0000 && c.targetNonce < 0x1_0000_0000
  }

  /** The 11 bytes that a receive proof signs. */
  function ChallengeBytes(c: Challenge): (b: bytes)
    ensures |b| == 11
  {
    Le(c.slot, 1) + Le(c.group, 2) + Le(c.requesterNonce, 4) + Le(c.targetNonce, 4)
  }

  /** The 10 bytes that an interrogate proof signs, under the same key. */
  function ListingBytes(requesterNonce: nat, targetNonce: nat, group: nat): (b: bytes)
    ensures |b| == 10
  {
    Le(requesterNonce, 4) + Le(targetNonce, 4) + Le(group, 2)
  }

  lemma ChallengeBytesInjective(c: Challenge, d: Challenge)
    requires IsChallenge(c) && IsChallenge(d) && ChallengeBytes(c) == ChallengeBytes(d)
    ensures c == d
  {
    hide Le;
    assert Pow256(1) == 256 && Pow256(2) == 0x1_0000 && Pow256(3) == 0x100_0000 && Pow256(4) == 0x1_0000_0000;
    var s, t := Le(c.slot, 1), Le(d.slot, 1);
    var g, h := s + Le(c.group, 2), t + Le(d.group, 2);
    SplitEqual(g + Le(c.requesterNonce, 4), Le(c.targetNonce, 4), h + Le(d.requesterNonce, 4), Le(d.targetNonce, 4));
    SplitEqual(g, Le(c.requesterNonce, 4), h, Le(d.requesterNonce, 4));
    SplitEqual(s, Le(c.group, 2), t, Le(d.group, 2));
    FieldInjective(c.slot, d.slot, 1);
    FieldInjective(c.group, d.group, 2);
    FieldInjective(c.requesterNonce, d.requesterNonce, 4);
    FieldInjective(c.targetNonce, d.targetNonce, 4);
  }

  lemma ListingBytesInjective(m: nat, n: nat, g: nat, m': nat, n': nat, g': nat)
    requires m < 0x1_0000_0000 && n < 0x1_0000_0000 && g < 0x1_0000 && m' < 0x1_0000_0000 && n' < 0x1_0000_0000 && g' < 0x1_0000
    requires ListingBytes(m, n, g) == ListingBytes(m', n', g')
    ensures m == m' && n == n' && g == g'
  {
    hide Le;
    assert Pow256(1) == 256 && Pow256(2) == 0x1_0000 && Pow256(3) == 0x100_0000 && Pow256(4) == 0x1_0000_0000;
    SplitEqual(Le(m, 4) + Le(n, 4), Le(g, 2), Le(m', 4) + Le(n', 4), Le(g', 2));
    SplitEqual(Le(m, 4), Le(n, 4), Le(m', 4), Le(n', 4));
    FieldInjective(m, m', 4);
    FieldInjective(n, n', 4);
    FieldInjective(g, g', 2);
  }

  /** The packed structs, read back field by field. */
  function ParseChallenge(b: bytes): Challenge
    requires |b| == 11
  {
    Challenge(Un(b[..1]), Un(b[1..3]), Un(b[3..7]), Un(b[7..11]))
  }

  lemma ChallengeRoundTrip(c: Challenge)
    requires IsChallenge(c)
    ensures ParseChallenge(ChallengeBytes(c)) == c
  {
    hide Le, Un;
    var b := ChallengeBytes(c);
    assert b[..1] == Le(c.slot, 1) && b[1..3] == Le(c.group, 2) && b[3..7] == Le(c.requesterNonce, 4) && b[7..11] == Le(c.targetNonce, 4);
    assert Pow256(1) == 256;
    LeUn(c.slot, 1);
    Field16(c.group);
    Field32(c.requesterNonce);
    Field32(c.targetNonce);
  }

  function ParseListing(b: bytes): (nat, nat, nat)
    requires |b| == 10
  {
    (Un(b[..4]), Un(b[4..8]), Un(b[8..10]))
  }

  lemma ListingRoundTrip(m: nat, n: nat, g: nat)
    requires m < 0x1_0000_0000 && n < 0x1_0000_0000 && g < 0x1_0000
    ensures ParseListing(ListingBytes(m, n, g)) == (m, n, g)
  {
    hide Le, Un;
    var b := ListingBytes(m, n, g);
    assert b[..4] == Le(m, 4) && b[4..8] == Le(n, 4) && b[8..10] == Le(g, 2);
    Field32(m);
    Field32(n);
    Field16(g);
  }

  // ---- the devices and what they have done ----

  datatype Requester =
    | Quiet
    | WantsFile(slot: nat, nonce: nat)
    | WantsList(nonce: nat)

  datatype Listener =
    | Deaf
    | OffersFile(challenge: Challenge)
    | OffersList(requesterNonce: nat, targetNonce: nat)

  datatype Device = Device(perms: seq<P.Permission>, requester: Requester, listener: Listener, accepted: seq<Handshake>)

  /** A MAC that a device computed, and what it computed it for. */
  datatype Purpose = ForFile(challenge: Challenge) | ForList(requesterNonce: nat, targetNonce: nat)

  datatype Signature = Signature(signer: nat, group: nat, message: bytes, purpose: Purpose)

  /** A file sent, or a directory entry's group disclosed; since counts the signatures made before. */
  datatype Release =
    | FileSent(listener: nat, challenge: Challenge, since: nat)
    | GroupListed(listener: nat, requesterNonce: nat, targetNonce: nat, group: nat, since: nat)

  datatype World = World(master: bytes, devices: seq<Device>, signed: seq<Signature>, released: seq<Release>, nonces: seq<nat>)

  /** Everything a device or the network may do next; message contents come from the network. */
  datatype Event =
    | AskFile(who: nat, slot: nat, nonce: nat)
    | AskList(who: nat, nonce: nat)
    | FileChallengeArrives(who: nat, challenge: Challenge)
    | ListChallengeArrives(who: nat, requesterNonce: nat, targetNonce: nat)
    | FileRequestArrives(who: nat, slot: nat, requesterNonce: nat, group: nat, nonce: nat)
    | ListRequestArrives(who: nat, requesterNonce: nat, nonce: nat)
    | FileProofArrives(who: nat, fields: Challenge, proof: bytes)
    | ListProofArrives(who: nat, requesterNonce: nat, targetNonce: nat, proofs: seq<(nat, bytes)>)
    | Abandon(who: nat)
    | Reboot(who: nat)

  const RECEIVE: byte := 0x43
  const INTERROGATE: byte := 0x49

  function FileTuple(c: Challenge): Handshake {
    Handshake(c.requesterNonce, c.targetNonce, c.group, RECEIVE)
  }

  function ListTuple(requesterNonce: nat, targetNonce: nat): Handshake {
    Handshake(requesterNonce, targetNonce, 0, INTERROGATE)
  }

  /** The receive groups of a device, table order, as interrogate signs for them. */
  function ReceiveGroups(perms: seq<P.Permission>): seq<nat> {
    if perms == [] then []
    else ReceiveGroups(perms[..|perms| - 1]) + (if perms[|perms| - 1].receive then [perms[|perms| - 1].group] else [])
  }

  function ListSignatures(who: nat, groups: seq<nat>, m: nat, n: nat): (s: seq<Signature>)
    ensures |s| == |groups|
    ensures forall i :: 0 <= i < |s| ==> s[i] == Signature(who, groups[i], ListingBytes(m, n, groups[i]), ForList(m, n))
  {
    if groups == [] then []
    else
      var g := groups[|groups| - 1];
      ListSignatures(who, groups[..|groups| - 1], m, n) + [Signature(who, g, ListingBytes(m, n, g), ForList(m, n))]
  }

  /** The check of receive before it signs. */
  predicate WillSign(d: Device, c: Challenge) {
    && d.requester.WantsFile? && c.slot == d.requester.slot && c.requesterNonce == d.requester.nonce
    && P.Permitted(d.perms, c.group, P.Receiving)
  }

  /** The checks of listen before it sends a file. */
  predicate WillSend(master: bytes, d: Device, c: Challenge, proof: bytes) {
    && d.listener == OffersFile(c)
    && proof == K.ReceiveProof(master, c.group, ChallengeBytes(c))
    && FileTuple(c) !in Window(d.accepted)
  }

  /** The checks of listen before it discloses a directory: every proof must verify. */
  predicate WillList(master: bytes, d: Device, m: nat, n: nat, proofs: seq<(nat, bytes)>) {
    && d.listener == OffersList(m, n) && |proofs| <= 8
    && (forall i :: 0 <= i < |proofs| ==> proofs[i].1 == K.ReceiveProof(master, proofs[i].0, ListingBytes(m, n, proofs[i].0)))
    && ListTuple(m, n) !in Window(d.accepted)
  }

  function Listed(who: nat, m: nat, n: nat, proofs: seq<(nat, bytes)>, since: nat): (r: seq<Release>)
    ensures |r| == |proofs|
    ensures forall i :: 0 <= i < |r| ==> r[i] == GroupListed(who, m, n, proofs[i].0, since)
  {
    seq(|proofs|, i requires 0 <= i < |proofs| => GroupListed(who, m, n, proofs[i].0, since))
  }

  function Next(w: World, e: Event): World
    requires e.who < |w.devices|
  {
    var d := w.devices[e.who];
    match e
    case AskFile(who, slot, nonce) => w.(devices := w.devices[who := d.(requester := WantsFile(slot, nonce))])
    case AskList(who, nonce) => w.(devices := w.devices[who := d.(requester := WantsList(nonce))])
    case FileChallengeArrives(who, c) =>
      w.(devices := w.devices[who := d.(requester := Quiet)],
         signed := if WillSign(d, c) then w.signed + [Signature(who, c.group, ChallengeBytes(c), ForFile(c))] else w.signed)
    case ListChallengeArrives(who, m, n) =>
      w.(devices := w.devices[who := d.(requester := Quiet)],
         signed := if d.requester == WantsList(m) then w.signed + ListSignatures(who, ReceiveGroups(d.perms), m, n) else w.signed)
    case FileRequestArrives(who, slot, m, group, nonce) =>
      w.(devices := w.devices[who := d.(listener := OffersFile(Challenge(slot, group, m, nonce)))],
         nonces := w.nonces + [nonce])
    case ListRequestArrives(who, m, nonce) =>
      w.(devices := w.devices[who := d.(listener := OffersList(m, nonce))], nonces := w.nonces + [nonce])
    case FileProofArrives(who, c, proof) =>
      if WillSend(w.master, d, c, proof) then
        w.(devices := w.devices[who := d.(listener := Deaf, accepted := Accept(d.accepted, FileTuple(c)))],
           released := w.released + [FileSent(who, c, |w.signed|)])
      else w.(devices := w.devices[who := d.(listener := Deaf)])
    case ListProofArrives(who, m, n, proofs) =>
      if WillList(w.master, d, m, n, proofs) then
        w.(devices := w.devices[who := d.(listener := Deaf, accepted := Accept(d.accepted, ListTuple(m, n)))],
           released := w.released + Listed(who, m, n, proofs, |w.signed|))
      else w.(devices := w.devices[who := d.(listener := Deaf)])
    case Abandon(who) => w.(devices := w.devices[who := d.(requester := Quiet, listener := Deaf)])
    case Reboot(who) => w.(devices := w.devices[who := d.(requester := Quiet, listener := Deaf, accepted := [])])
  }

  /** Fields have the widths of the C structs. */
  predicate Sized(e: Event) {
    match e
    case AskFile(_, slot, nonce) => slot < 256 && nonce < 0x1_0000_0000
    case AskList(_, nonce) => nonce < 0x1_0000_0000
    case FileChallengeArrives(_, c) => IsChallenge(c)
    case ListChallengeArrives(_, m, n) => m < 0x1_0000_0000 && n < 0x1_0000_0000
    case FileRequestArrives(_, slot, m, group, nonce) =>
      slot < 256 && m < 0x1_0000_0000 && group < 0x1_0000 && nonce < 0x1_0000_0000
    case ListRequestArrives(_, m, nonce) => m < 0x1_0000_0000 && nonce < 0x1_0000_0000
    case FileProofArrives(_, c, _) => IsChallenge(c)
    case ListProofArrives(_, m, n, proofs) =>
      m < 0x1_0000_0000 && n < 0x1_0000_0000 && forall i :: 0 <= i < |proofs| ==> proofs[i].0 < 0x1_0000
    case Abandon(_) => true
    case Reboot(_) => true
  }

  /** Some device computed this MAC, for whatever group and message. */
  ghost predicate WasComputed(w: World, mac: bytes) {
    exists k :: 0 <= k < |w.signed| && mac == K.ReceiveProof(w.master, w.signed[k].group, w.signed[k].message)
  }

  /** The network cannot compute MACs: one it delivers that verifies is one that some device computed. */
  ghost predicate Unforged(w: World, e: Event) {
    match e
    case FileProofArrives(_, c, proof) =>
      proof == K.ReceiveProof(w.master, c.group, ChallengeBytes(c)) ==> WasComputed(w, proof)
    case ListProofArrives(_, m, n, proofs) =>
      forall i :: 0 <= i < |proofs| ==>
        proofs[i].1 == K.ReceiveProof(w.master, proofs[i].0, ListingBytes(m, n, proofs[i].0)) ==>
        WasComputed(w, proofs[i].1)
    case _ => true
  }

  ghost predicate Possible(w: World, e: Event) {
    e.who < |w.devices| && Sized(e) && Unforged(w, e)
  }

  ghost predicate IsRun(w: World, run: seq<Event>)
    decreases |run|, 0
  {
    run == [] || (IsRun(w, run[..|run| - 1]) && Possible(After(w, run[..|run| - 1]), run[|run| - 1]))
  }

  ghost function After(w: World, run: seq<Event>): World
    requires IsRun(w, run)
    decreases |run|, 1
  {
    if run == [] then w else Next(After(w, run[..|run| - 1]), run[|run| - 1])
  }

  predicate Initial(w: World) {
    && w.signed == [] && w.released == [] && w.nonces == []
    && forall i :: 0 <= i < |w.devices| ==>
         var d := w.devices[i];
         d.requester == Quiet && d.listener == Deaf && d.accepted == []
         && forall k :: 0 <= k < |d.perms| ==> d.perms[k].group < 0x1_0000
  }

  // ---- authorised release ----

  /** Some entry of the group grants receiving. */
  predicate MayReceive(perms: seq<P.Permission>, group: nat) {
    exists i :: 0 <= i < |perms| && perms[i].group == group && perms[i].receive
  }

  /** Every signature was made by a device provisioned to receive its group, over the bytes of its
      purpose. */
  ghost predicate Honest(w: World, s: Signature) {
    && s.signer < |w.devices| && MayReceive(w.devices[s.signer].perms, s.group)
    && match s.purpose
       case ForFile(c) => IsChallenge(c) && s.group == c.group && s.message == ChallengeBytes(c)
                          && P.Permitted(w.devices[s.signer].perms, s.group, P.Receiving)
       case ForList(m, n) => m < 0x1_0000_0000 && n < 0x1_0000_0000 && s.group < 0x1_0000 && s.message == ListingBytes(m, n, s.group)
  }

  /** A release rests on an earlier signature for exactly its contents, or on one whose MAC is also the
      MAC of its contents, by a collision of SHA-256. */
  ghost predicate Justified(w: World, r: Release) {
    r.since <= |w.signed| && exists k :: 0 <= k < r.since && Honest(w, w.signed[k]) && Covers(w.master, w.signed[k], r)
  }

  predicate Covers(master: bytes, s: Signature, r: Release) {
    Matches(s, r) || K.ProofsCollide(master, s.group, s.message, GroupOf(r), MessageOf(r))
  }

  function GroupOf(r: Release): nat {
    match r
    case FileSent(_, c, _) => c.group
    case GroupListed(_, _, _, g, _) => g
  }

  /** The message whose MAC listen verified before the release. */
  function MessageOf(r: Release): bytes {
    match r
    case FileSent(_, c, _) => ChallengeBytes(c)
    case GroupListed(_, m, n, g, _) => ListingBytes(m, n, g)
  }

  predicate Matches(s: Signature, r: Release) {
    match r
    case FileSent(_, c, _) => s.group == c.group && s.purpose == ForFile(c)
    case GroupListed(_, m, n, g, _) => s.group == g && s.purpose == ForList(m, n)
  }

  ghost predicate Inv(w: World) {
    && (forall i :: 0 <= i < |w.devices| ==> forall k :: 0 <= k < |w.devices[i].perms| ==> w.devices[i].perms[k].group < 0x1_0000)
    && (forall k :: 0 <= k < |w.signed| ==> Honest(w, w.signed[k]))
    && (forall k :: 0 <= k < |w.released| ==> Justified(w, w.released[k]))
  }

  lemma {:induction false} GroupsMayReceive(perms: seq<P.Permission>, i: nat)
    requires i < |ReceiveGroups(perms)|
    ensures MayReceive(perms, ReceiveGroups(perms)[i])
    decreases |perms|
  {
    var front := perms[..|perms| - 1];
    if i < |ReceiveGroups(front)| {
      GroupsMayReceive(front, i);
      var k :| 0 <= k < |front| && front[k].group == ReceiveGroups(front)[i] && front[k].receive;
      assert perms[k] == front[k];
    } else {
      assert perms[|perms| - 1].receive;
    }
  }

  /** interrogate signs for exactly the groups of which some permission entry grants receiving. */
  lemma {:induction false} ReceiveGroupsExact(perms: seq<P.Permission>, group: nat)
    ensures group in ReceiveGroups(perms) <==> MayReceive(perms, group)
    decreases |perms|
  {
    if group in ReceiveGroups(perms) {
      var i :| 0 <= i < |ReceiveGroups(perms)| && ReceiveGroups(perms)[i] == group;
      GroupsMayReceive(perms, i);
    }
    if perms != [] {
      ReceiveGroupsExact(perms[..|perms| - 1], group);
    }
  }

  lemma SamePerms(w: World, e: Event)
    requires e.who < |w.devices|
    ensures |Next(w, e).devices| == |w.devices|
    ensures forall i :: 0 <= i < |w.devices| ==> Next(w, e).devices[i].perms == w.devices[i].perms
    ensures w.signed <= Next(w, e).signed && w.released <= Next(w, e).released && Next(w, e).master == w.master
  {
    hide WillSign, WillSend, WillList, ChallengeBytes, ListingBytes;
  }

  lemma StillHonest(w: World, v: World, s: Signature)
    requires Honest(w, s) && |v.devices| == |w.devices|
    requires forall i :: 0 <= i < |w.devices| ==> v.devices[i].perms == w.devices[i].perms
    ensures Honest(v, s)
  {
    hide ChallengeBytes, ListingBytes;
  }

  lemma StillJustified(w: World, v: World, r: Release)
    requires Justified(w, r) && |v.devices| == |w.devices| && w.signed <= v.signed && v.master == w.master
    requires forall i :: 0 <= i < |w.devices| ==> v.devices[i].perms == w.devices[i].perms
    ensures Justified(v, r)
  {
    hide Honest, Covers;
    forall k | 0 <= k < |w.signed| && Honest(w, w.signed[k])
      ensures Honest(v, w.signed[k]) && v.signed[k] == w.signed[k]
    {
      StillHonest(w, v, w.signed[k]);
    }
  }

  /** New signatures are honest. */
  lemma NewSignatures(w: World, e: Event, k: nat)
    requires Inv(w) && Possible(w, e) && |w.signed| <= k < |Next(w, e).signed|
    ensures Honest(w, Next(w, e).signed[k])
  {
    hide ChallengeBytes, ListingBytes, Justified;
    var d := w.devices[e.who];
    match e {
      case FileChallengeArrives(who, c) =>
        PermittedMayReceive(d.perms, c.group);
      case ListChallengeArrives(who, m, n) =>
        var groups := ReceiveGroups(d.perms);
        GroupsMayReceive(d.perms, k - |w.signed|);
        var i :| 0 <= i < |d.perms| && d.perms[i].group == groups[k - |w.signed|] && d.perms[i].receive;
      case _ =>
    }
  }

  lemma PermittedMayReceive(perms: seq<P.Permission>, group: nat)
    requires P.Permitted(perms, group, P.Receiving)
    ensures MayReceive(perms, group)
  {
  }

  /** A signature whose MAC is that of a release covers it: either group and message are the same, and
      then the 11-byte message of a file proof can only come from a file signature and the 10-byte
      message of a listing proof only from a listing one, or there is a collision. */
  lemma SameMac(w: World, s: Signature, r: Release)
    requires Honest(w, s) && GroupOf(r) < 0x1_0000
    requires match r
             case FileSent(_, c, _) => IsChallenge(c)
             case GroupListed(_, m, n, _, _) => m < 0x1_0000_0000 && n < 0x1_0000_0000
    requires K.ReceiveProof(w.master, s.group, s.message) == K.ReceiveProof(w.master, GroupOf(r), MessageOf(r))
    ensures Covers(w.master, s, r)
  {
    hide ChallengeBytes, ListingBytes, K.ReceiveProof, MayReceive, P.Permitted, K.ProofsCollide;
    if s.group != GroupOf(r) || s.message != MessageOf(r) {
      K.EqualProofs(w.master, s.group, s.message, GroupOf(r), MessageOf(r));
    } else if r.FileSent? && s.purpose.ForFile? {
      ChallengeBytesInjective(r.challenge, s.purpose.challenge);
    } else if r.GroupListed? && s.purpose.ForList? {
      ListingBytesInjective(r.requesterNonce, r.targetNonce, r.group, s.purpose.requesterNonce, s.purpose.targetNonce, s.group);
    }
  }

  /** New releases are justified. */
  lemma NewReleases(w: World, e: Event, k: nat)
    requires Inv(w) && Possible(w, e) && |w.released| <= k < |Next(w, e).released|
    ensures Justified(w, Next(w, e).released[k])
  {
    hide ChallengeBytes, ListingBytes, K.ReceiveProof, WillSign, Window, Accept, ReceiveGroups, MayReceive, P.Permitted, Covers, Honest;
    var r := Next(w, e).released[k];
    match e {
      case FileProofArrives(who, c, proof) =>
        assert WasComputed(w, proof);
        var s :| 0 <= s < |w.signed| && proof == K.ReceiveProof(w.master, w.signed[s].group, w.signed[s].message);
        SameMac(w, w.signed[s], r);
      case ListProofArrives(who, m, n, proofs) =>
        var i := k - |w.released|;
        assert WasComputed(w, proofs[i].1);
        var s :| 0 <= s < |w.signed| && proofs[i].1 == K.ReceiveProof(w.master, w.signed[s].group, w.signed[s].message);
        SameMac(w, w.signed[s], r);
      case _ =>
    }
  }

  lemma NextKeepsInv(w: World, e: Event)
    requires Inv(w) && Possible(w, e)
    ensures Inv(Next(w, e))
  {
    hide Next, Possible, Honest, Justified;
    assert e.who < |w.devices| by { InWorld(w, e); }
    SamePerms(w, e);
    var v := Next(w, e);
    forall k | 0 <= k < |v.signed|
      ensures Honest(v, v.signed[k])
    {
      if k >= |w.signed| {
        NewSignatures(w, e, k);
      }
      StillHonest(w, v, v.signed[k]);
    }
    forall k | 0 <= k < |v.released|
      ensures Justified(v, v.released[k])
    {
      if k >= |w.released| {
        NewReleases(w, e, k);
      }
      StillJustified(w, v, v.released[k]);
    }
  }

  lemma InWorld(w: World, e: Event)
    requires Possible(w, e)
    ensures e.who < |w.devices|
  {
  }

  lemma {:induction false} RunKeepsInv(w: World, run: seq<Event>)
    requires Initial(w) && IsRun(w, run)
    ensures Inv(After(w, run))
    decreases |run|
  {
    hide Next, Possible;
    if run != [] {
      RunKeepsInv(w, run[..|run| - 1]);
      NextKeepsInv(After(w, run[..|run| - 1]), run[|run| - 1]);
    }
  }

  /** The signature that a release rests on: made by a device that may receive the group, over exactly
      the group, nonces and, for a file, slot released; or its MAC is also that of the release, by a
      collision of SHA-256 inside the two HMACs or on the way to their keys. */
  ghost predicate RestsOn(w: World, s: Signature, r: Release) {
    && s.signer < |w.devices| && MayReceive(w.devices[s.signer].perms, s.group)
    && (K.ProofsCollide(w.master, s.group, s.message, GroupOf(r), MessageOf(r))
        || match r
           case FileSent(_, c, _) => s == Signature(s.signer, c.group, ChallengeBytes(c), ForFile(c))
             && P.Permitted(w.devices[s.signer].perms, c.group, P.Receiving)
           case GroupListed(_, m, n, g, _) => s == Signature(s.signer, g, ListingBytes(m, n, g), ForList(m, n)))
  }

  /** Some device had signed for the release before it. */
  ghost predicate Authorised(w: World, r: Release) {
    r.since <= |w.signed| && exists j :: 0 <= j < r.since && RestsOn(w, w.signed[j], r)
  }

  /** Authorised release. In every run, whenever listen sends a file, some device provisioned to
      receive the file's group had earlier signed exactly that slot, group and pair of nonces; and
      whenever it discloses directory entries of a group, some device provisioned to receive that
      group had earlier signed exactly that pair of nonces and that group for a listing; collisions
      aside. */
  lemma AuthorisedRelease(w: World, run: seq<Event>, k: nat)
    requires Initial(w) && IsRun(w, run) && k < |After(w, run).released|
    ensures Authorised(After(w, run), After(w, run).released[k])
  {
    hide ChallengeBytes, ListingBytes, K.ProofsCollide;
    RunKeepsInv(w, run);
    assert Justified(After(w, run), After(w, run).released[k]);
  }

  /** What a step releases rests on signatures made before that step. */
  lemma AuthorisedBefore(w: World, e: Event, r: Release)
    requires e.who < |w.devices| && Authorised(Next(w, e), r) && r.since == |w.signed|
    ensures Authorised(w, r)
  {
    hide Next, ChallengeBytes, ListingBytes, K.ProofsCollide, MayReceive, P.Permitted;
    SamePerms(w, e);
    var v := Next(w, e);
    var j :| 0 <= j < r.since && RestsOn(v, v.signed[j], r);
    assert w.signed[j] == v.signed[j];
  }

  // ---- no proof is used twice ----

  predicate Distinct(s: seq<nat>) {
    forall i, j :: 0 <= i < j < |s| ==> s[i] != s[j]
  }

  /** The target nonce a listening device is waiting to see proved. */
  function Pending(d: Device): (bool, nat) {
    match d.listener
    case Deaf => (false, 0)
    case OffersFile(c) => (true, c.targetNonce)
    case OffersList(_, n) => (true, n)
  }

  function NonceOf(r: Release): nat {
    match r
    case FileSent(_, c, _) => c.targetNonce
    case GroupListed(_, _, n, _, _) => n
  }

  /** Pending nonces were issued, are pending only once, and have released nothing yet; released
      nonces were issued, and one that released a file released nothing else. */
  ghost predicate OnceOnly(w: World) {
    && (forall i :: 0 <= i < |w.devices| && Pending(w.devices[i]).0 ==> Pending(w.devices[i]).1 in w.nonces)
    && (forall i, j :: 0 <= i < j < |w.devices| && Pending(w.devices[i]).0 && Pending(w.devices[j]).0 ==>
          Pending(w.devices[i]).1 != Pending(w.devices[j]).1)
    && (forall k :: 0 <= k < |w.released| ==> NonceOf(w.released[k]) in w.nonces)
    && (forall i, k :: 0 <= i < |w.devices| && Pending(w.devices[i]).0 && 0 <= k < |w.released| ==>
          Pending(w.devices[i]).1 != NonceOf(w.released[k]))
    && (forall k, l :: 0 <= k < |w.released| && 0 <= l < |w.released| && k != l && w.released[k].FileSent? ==>
          NonceOf(w.released[k]) != NonceOf(w.released[l]))
  }

  /** Two worlds whose devices, other than one, wait for the same nonces. */
  predicate OthersWait(w: World, v: World, who: nat) {
    && |v.devices| == |w.devices| && who < |w.devices|
    && forall i :: 0 <= i < |w.devices| && i != who ==> Pending(v.devices[i]) == Pending(w.devices[i])
  }

  lemma PendingKept(w: World, v: World, who: nat)
    requires OnceOnly(w) && OthersWait(w, v, who) && v.nonces == w.nonces && v.released == w.released
    requires !Pending(v.devices[who]).0 || Pending(v.devices[who]) == Pending(w.devices[who])
    ensures OnceOnly(v)
  {
  }

  lemma PendingSet(w: World, v: World, who: nat, nonce: nat)
    requires OnceOnly(w) && OthersWait(w, v, who) && v.nonces == w.nonces + [nonce] && v.released == w.released
    requires Distinct(v.nonces) && Pending(v.devices[who]) == (true, nonce)
    ensures OnceOnly(v)
  {
    NewNonce(w.nonces, nonce);
  }

  lemma PendingSpent(w: World, v: World, who: nat, new_: seq<Release>)
    requires OnceOnly(w) && OthersWait(w, v, who) && v.nonces == w.nonces && v.released == w.released + new_
    requires Pending(w.devices[who]).0 && !Pending(v.devices[who]).0
    requires forall k :: 0 <= k < |new_| ==> NonceOf(new_[k]) == Pending(w.devices[who]).1
    requires |new_| == 1 || forall k :: 0 <= k < |new_| ==> !new_[k].FileSent?
    ensures OnceOnly(v)
  {
    forall k | 0 <= k < |v.released|
      ensures NonceOf(v.released[k]) == if k < |w.released| then NonceOf(w.released[k]) else Pending(w.devices[who]).1
    {
    }
  }

  lemma NewNonce(s: seq<nat>, n: nat)
    requires Distinct(s + [n])
    ensures n !in s
  {
    forall i | 0 <= i < |s|
      ensures s[i] != n
    {
      assert (s + [n])[i] == s[i] && (s + [n])[|s|] == n;
    }
  }

  lemma NextOnceOnly(w: World, e: Event)
    requires OnceOnly(w) && Possible(w, e) && Distinct(Next(w, e).nonces)
    ensures OnceOnly(Next(w, e))
  {
    hide OnceOnly, ChallengeBytes, ListingBytes, K.ReceiveProof, WillSign, Sized, Unforged, Window, Accept,
         ReceiveGroups, Distinct;
    var v, d := Next(w, e), w.devices[e.who];
    match e {
      case FileRequestArrives(who, slot, m, group, nonce) => PendingSet(w, v, who, nonce);
      case ListRequestArrives(who, m, nonce) => PendingSet(w, v, who, nonce);
      case FileProofArrives(who, c, proof) =>
        if WillSend(w.master, d, c, proof) {
          PendingSpent(w, v, who, [FileSent(who, c, |w.signed|)]);
        } else {
          PendingKept(w, v, who);
        }
      case ListProofArrives(who, m, n, proofs) =>
        if WillList(w.master, d, m, n, proofs) {
          PendingSpent(w, v, who, Listed(who, m, n, proofs, |w.signed|));
        } else {
          PendingKept(w, v, who);
        }
      case _ => PendingKept(w, v, e.who);
    }
  }

  lemma NoncesGrow(w: World, e: Event)
    requires e.who < |w.devices|
    ensures w.nonces <= Next(w, e).nonces
  {
    hide WillSign, WillSend, WillList;
  }

  lemma {:induction false} RunOnceOnly(w: World, run: seq<Event>)
    requires Initial(w) && IsRun(w, run) && Distinct(After(w, run).nonces)
    ensures OnceOnly(After(w, run))
    decreases |run|
  {
    hide Next, Possible, OnceOnly;
    if run == [] {
      NothingPending(w);
    } else {
      var before := After(w, run[..|run| - 1]);
      InWorld(before, run[|run| - 1]);
      NoncesGrow(before, run[|run| - 1]);
      RunOnceOnly(w, run[..|run| - 1]);
      NextOnceOnly(before, run[|run| - 1]);
    }
  }

  lemma NothingPending(w: World)
    requires Initial(w)
    ensures OnceOnly(w)
  {
  }

  /** With distinct target nonces, no proof justifies two releases: the message a file release rests
      on is not the message of any other release. */
  lemma ProofUsedOnce(w: World, run: seq<Event>, k: nat, l: nat)
    requires Initial(w) && IsRun(w, run) && Distinct(After(w, run).nonces)
    requires k < |After(w, run).released| && l < |After(w, run).released| && k != l
    requires After(w, run).released[k].FileSent?
    ensures NonceOf(After(w, run).released[k]) != NonceOf(After(w, run).released[l])
    ensures After(w, run).released[l].FileSent? ==> After(w, run).released[k].challenge != After(w, run).released[l].challenge
  {
    RunOnceOnly(w, run);
  }

  /** What a step releases stands under nonces that had released nothing before. */
  predicate FreshReleases(w: World, v: World) {
    && w.released <= v.released
    && forall k, l :: |w.released| <= k < |v.released| && 0 <= l < |w.released| ==> NonceOf(v.released[k]) != NonceOf(w.released[l])
  }

  /** With distinct target nonces, no step of a run sends a file or lists a group under a target nonce
      that has already released anything. */
  lemma NonceSpentOnce(w: World, run: seq<Event>, e: Event)
    requires Initial(w) && IsRun(w, run + [e]) && Distinct(After(w, run + [e]).nonces)
    ensures IsRun(w, run) && FreshReleases(After(w, run), After(w, run + [e]))
  {
    hide Next, Possible, OnceOnly, FreshReleases, Initial, Distinct;
    assert (run + [e])[..|run + [e]| - 1] == run;
    var before := After(w, run);
    InWorld(before, e);
    NoncesGrow(before, e);
    StillDistinct(before.nonces, Next(before, e).nonces);
    RunOnceOnly(w, run);
    StepReleasesFresh(before, e);
  }

  lemma StillDistinct(s: seq<nat>, t: seq<nat>)
    requires s <= t && Distinct(t)
    ensures Distinct(s)
  {
    forall i, j | 0 <= i < j < |s|
      ensures s[i] != s[j]
    {
      assert t[i] == s[i] && t[j] == s[j];
    }
  }

  lemma StepReleasesFresh(w: World, e: Event)
    requires OnceOnly(w) && e.who < |w.devices|
    ensures FreshReleases(w, Next(w, e))
  {
    hide ChallengeBytes, ListingBytes, K.ReceiveProof, WillSign, Window, Accept, ReceiveGroups, Distinct;
    var d := w.devices[e.who];
    match e {
      case FileProofArrives(who, c, proof) =>
        assert WillSend(w.master, d, c, proof) ==> Pending(d) == (true, c.targetNonce);
      case ListProofArrives(who, m, n, proofs) =>
        assert WillList(w.master, d, m, n, proofs) ==> Pending(d) == (true, n);
      case _ =>
    }
  }

  // ---- a fresh nonce is always accepted ----

  predicate Unspent(accepted: seq<Handshake>, targetNonce: nat) {
    forall i :: 0 <= i < |accepted| ==> accepted[i].targetNonce != targetNonce
  }

  /** The ring refuses no tuple whose target nonce it has not accepted before. */
  lemma FreshTuples(accepted: seq<Handshake>, c: Challenge, m: nat, n: nat)
    ensures Unspent(accepted, c.targetNonce) ==> FileTuple(c) !in Window(accepted)
    ensures Unspent(accepted, n) ==> ListTuple(m, n) !in Window(accepted)
  {
  }

  /** Two handshakes have one tuple exactly when both nonces and, for files, the group agree; the slot
      does not count, and a file request is never taken for a listing. */
  lemma TuplesInjective(c: Challenge, d: Challenge, m: nat, n: nat, m': nat, n': nat)
    ensures FileTuple(c) == FileTuple(d)
            <==> c.requesterNonce == d.requesterNonce && c.targetNonce == d.targetNonce && c.group == d.group
    ensures ListTuple(m, n) == ListTuple(m', n') <==> m == m' && n == n'
    ensures FileTuple(c) != ListTuple(m, n)
  {
  }

  /** Accepted target nonces were issued, and none of them is pending on the device that accepted it. */
  ghost predicate SpentIsPast(w: World) {
    forall i :: 0 <= i < |w.devices| ==> NoncesPast(w.devices[i], w.nonces)
  }

  predicate NoncesPast(d: Device, nonces: seq<nat>) {
    && (forall k :: 0 <= k < |d.accepted| ==> d.accepted[k].targetNonce in nonces)
    && (Pending(d).0 ==> Unspent(d.accepted, Pending(d).1))
  }

  lemma NextSpentIsPast(w: World, e: Event)
    requires SpentIsPast(w) && OnceOnly(w) && e.who < |w.devices| && Distinct(Next(w, e).nonces)
    ensures SpentIsPast(Next(w, e))
  {
    hide Next, NoncesPast, OnceOnly, Distinct;
    var v := Next(w, e);
    NoncesGrow(w, e);
    OnlyOneMoves(w, e);
    OwnNoncesPast(w, e);
    forall i | 0 <= i < |w.devices| && i != e.who
      ensures NoncesPast(v.devices[i], v.nonces)
    {
      StillPast(w.devices[i], w.nonces, v.nonces);
    }
  }

  lemma OnlyOneMoves(w: World, e: Event)
    requires e.who < |w.devices|
    ensures |Next(w, e).devices| == |w.devices|
    ensures forall i :: 0 <= i < |w.devices| && i != e.who ==> Next(w, e).devices[i] == w.devices[i]
  {
    hide WillSign, WillSend, WillList;
  }

  lemma StillPast(d: Device, s: seq<nat>, t: seq<nat>)
    requires NoncesPast(d, s) && s <= t
    ensures NoncesPast(d, t)
  {
  }

  lemma OwnNoncesPast(w: World, e: Event)
    requires SpentIsPast(w) && OnceOnly(w) && e.who < |w.devices| && Distinct(Next(w, e).nonces)
    ensures NoncesPast(Next(w, e).devices[e.who], Next(w, e).nonces)
  {
    hide ChallengeBytes, ListingBytes, K.ReceiveProof, WillSign, Accept, ReceiveGroups, Distinct;
    var d := w.devices[e.who];
    assert NoncesPast(d, w.nonces);
    match e {
      case FileRequestArrives(_, _, _, _, nonce) => NewNonce(w.nonces, nonce);
      case ListRequestArrives(_, _, nonce) => NewNonce(w.nonces, nonce);
      case FileProofArrives(_, c, proof) =>
        if WillSend(w.master, d, c, proof) {
          AcceptedPast(d, FileTuple(c), w.nonces);
        }
      case ListProofArrives(_, m, n, proofs) =>
        if WillList(w.master, d, m, n, proofs) {
          AcceptedPast(d, ListTuple(m, n), w.nonces);
        }
      case _ =>
    }
  }

  lemma AcceptedPast(d: Device, t: Handshake, nonces: seq<nat>)
    requires NoncesPast(d, nonces) && t.targetNonce in nonces
    ensures NoncesPast(d.(listener := Deaf, accepted := Accept(d.accepted, t)), nonces)
  {
  }

  lemma {:induction false} RunSpentIsPast(w: World, run: seq<Event>)
    requires Initial(w) && IsRun(w, run) && Distinct(After(w, run).nonces)
    ensures SpentIsPast(After(w, run))
    decreases |run|
  {
    hide Next, Possible, OnceOnly, SpentIsPast, Distinct;
    if run == [] {
      NothingSpent(w);
    } else {
      var before := After(w, run[..|run| - 1]);
      InWorld(before, run[|run| - 1]);
      NoncesGrow(before, run[|run| - 1]);
      StillDistinct(before.nonces, Next(before, run[|run| - 1]).nonces);
      RunSpentIsPast(w, run[..|run| - 1]);
      RunOnceOnly(w, run[..|run| - 1]);
      NextSpentIsPast(before, run[|run| - 1]);
    }
  }

  lemma NothingSpent(w: World)
    requires Initial(w)
    ensures SpentIsPast(w)
  {
  }

  /** With distinct target nonces the guards of listen come down to the pending challenge and the
      MACs: in no run does the replay ring refuse a right proof of a pending challenge. */
  lemma RightProofPasses(w: World, run: seq<Event>, who: nat)
    requires Initial(w) && IsRun(w, run) && Distinct(After(w, run).nonces) && who < |After(w, run).devices|
    ensures var end, d := After(w, run), After(w, run).devices[who];
            && (forall c, proof :: WillSend(end.master, d, c, proof)
                 <==> d.listener == OffersFile(c) && proof == K.ReceiveProof(end.master, c.group, ChallengeBytes(c)))
            && (forall m, n, proofs: seq<(nat, bytes)> :: WillList(end.master, d, m, n, proofs)
                 <==> d.listener == OffersList(m, n) && |proofs| <= 8
                      && forall i :: 0 <= i < |proofs| ==> proofs[i].1 == K.ReceiveProof(end.master, proofs[i].0, ListingBytes(m, n, proofs[i].0)))
  {
    hide ChallengeBytes, ListingBytes, K.ReceiveProof, Window, Distinct, FileTuple, ListTuple;
    RunSpentIsPast(w, run);
    var d := After(w, run).devices[who];
    assert NoncesPast(d, After(w, run).nonces);
    match d.listener {
      case OffersFile(c) => FreshTuples(d.accepted, c, 0, 0);
      case OffersList(m, n) => FreshTuples(d.accepted, Challenge(0, 0, 0, 0), m, n);
      case Deaf =>
    }
  }

  // ---- the replay window backs the nonces up ----

  predicate Spaced(accepted: seq<Handshake>) {
    forall i, j :: 0 <= i < j < |accepted| && j - i < 8 ==> accepted[i] != accepted[j]
  }

  ghost predicate AllSpaced(w: World) {
    forall i :: 0 <= i < |w.devices| ==> Spaced(w.devices[i].accepted)
  }

  lemma AcceptSpaced(accepted: seq<Handshake>, t: Handshake)
    requires Spaced(accepted)
    ensures Spaced(Accept(accepted, t))
  {
    if t !in Window(accepted) {
      forall i | 0 <= i < |accepted| && |accepted| - i < 8
        ensures accepted[i] != t
      {
        var k := if |accepted| <= 8 then i else i - (|accepted| - 8);
        assert Window(accepted)[k] == accepted[i];
      }
    }
  }

  lemma NextSpaced(w: World, e: Event)
    requires AllSpaced(w) && e.who < |w.devices|
    ensures AllSpaced(Next(w, e))
  {
    hide Spaced, Window, Accept, WillSign, WillSend, WillList, ChallengeBytes, ListingBytes, K.ReceiveProof;
    var d := w.devices[e.who];
    assert Spaced([]) by {
      NoneSpaced();
    }
    match e {
      case FileProofArrives(_, c, _) => AcceptSpaced(d.accepted, FileTuple(c));
      case ListProofArrives(_, m, n, _) => AcceptSpaced(d.accepted, ListTuple(m, n));
      case _ =>
    }
  }

  lemma NoneSpaced()
    ensures Spaced([])
  {
  }

  /** In every run, whatever nonces the devices draw, no two of any eight consecutive acceptances of
      one device since it was switched on carry the same tuple. */
  lemma {:induction false} AcceptancesDistinct(w: World, run: seq<Event>)
    requires Initial(w) && IsRun(w, run)
    ensures AllSpaced(After(w, run))
    decreases |run|
  {
    hide Next, Possible, Spaced;
    if run == [] {
      NoneSpaced();
    } else {
      var before := After(w, run[..|run| - 1]);
      InWorld(before, run[|run| - 1]);
      AcceptancesDistinct(w, run[..|run| - 1]);
      NextSpaced(before, run[|run| - 1]);
    }
  }
}
