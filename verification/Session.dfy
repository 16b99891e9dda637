/** Whole sessions of one device: any sequence of host commands and power cycles is answered as by a
    plain map from slot to file and a PIN state. */
module Session {
  import opened Bytes
  import opened BlobModel
  import opened FlashDevice
  import opened HsmModel
  import opened Commands
  import opened Transfer
  import opened Wrappers
  import P = Pin
  import K = KeySchedule

  /** Host packets with the nonce a write draws, and power cycles. receive and interrogate also take
      what the transfer link brings: the file of the peer, if the handshake came to that, and whether
      the peer answered. */
  datatype Command =
    | Write(pkt: bytes, nonce: bytes)
    | Read(pkt: bytes)
    | List(pkt: bytes)
    | Delete(pkt: bytes)
    | ChangePin(pkt: bytes)
    | Receive(pkt: bytes, arrived: Option<Response>, nonce: bytes)
    | Interrogate(pkt: bytes, answered: bool)
    | PowerCycle

  datatype Reply = Refused | Granted | Contents(data: bytes) | Listed(list: seq<Meta>)

  datatype State = State(pin: P.State, files: map<nat, File>)

  /** sizeof(write_command_t): the buffer of host packets. A longer packet never reaches a handler
      intact (Transport.Overruns). */
  const MAX_PACKET: nat := 8251

  predicate IsCommand(c: Command) {
    match c
    case Write(pkt, nonce) => |pkt| <= MAX_PACKET && |nonce| == 12
    case Receive(_, arrived, nonce) => (arrived.Some? ==> IsResponse(arrived.value)) && |nonce| == 12
    case _ => true
  }

  // ---- the plain map ----

  datatype Device = Device(master: bytes, perms: seq<P.Permission>, provisioned: bytes)

  /** The PIN that a command is tried with, when its packet is long enough to hold it. */
  function Tried(c: Command): Option<bytes> {
    match c
    case Write(pkt, _) => PinOf(pkt, WRITE_MIN)
    case Read(pkt) => PinOf(pkt, 7)
    case List(pkt) => PinOf(pkt, 6)
    case Delete(pkt) => PinOf(pkt, 7)
    case ChangePin(pkt) => PinOf(pkt, 12)
    case Receive(pkt, _, _) => PinOf(pkt, 8)
    case Interrogate(pkt, _) => PinOf(pkt, 6)
    case PowerCycle => None
  }

  function PinOf(pkt: bytes, min: nat): (pin: Option<bytes>)
    requires min >= 6
    ensures pin.Some? ==> |pin.value| == 6
  {
    if |pkt| < min then None else Some(pkt[..6])
  }

  function PinAfter(d: Device, p: P.State, c: Command): P.State {
    if c.PowerCycle? then P.Attempted(d.master, p, P.PowerUp(d.provisioned))
    else if Tried(c).None? then p
    else if c.ChangePin? then P.Attempted(d.master, p, P.Change(c.pkt[..6], c.pkt[6..12]))
    else P.Attempted(d.master, p, P.Check(Tried(c).value))
  }

  /** The PIN that a command is tried with is the one in force. */
  predicate Passes(d: Device, p: P.State, c: Command) {
    Tried(c).Some? && K.PinHash(d.master, Tried(c).value) == p.hash
  }

  /** What a command does to the files, and its reply; right tells whether its PIN passes. */
  function Effect(d: Device, files: map<nat, File>, right: bool, c: Command): (map<nat, File>, Reply)
    requires IsCommand(c) && (right ==> Tried(c).Some?)
  {
    match c
    case Write(pkt, _) =>
      var (ok, changed) := WriteSpec(d.master, d.perms, right, files, pkt);
      (changed, if ok then Granted else Refused)
    case Read(pkt) => (files, Found(d, files, right, pkt))
    case List(_) => (files, if right then Listed(Directory(files, SLOTS)) else Refused)
    case Delete(pkt) =>
      if right && pkt[6] as nat in files then (files - {pkt[6] as nat}, Granted) else (files, Refused)
    case ChangePin(_) => (files, if right then Granted else Refused)
    case Receive(pkt, arrived, _) =>
      if right && arrived.Some? && Acceptable(d, arrived.value, pkt[7] as nat)
      then (files[pkt[7] as nat := FileOf(d, arrived.value, pkt[..6])], Granted)
      else (files, Refused)
    case Interrogate(_, answered) => (files, if right && answered then Granted else Refused)
    case PowerCycle => (files, Granted)
  }

  function Found(d: Device, files: map<nat, File>, right: bool, pkt: bytes): Reply {
    if |pkt| < 7 then Refused
    else
      match ReadSpec(d.master, d.perms, right, files, pkt[..6], pkt[6] as nat)
      case None => Refused
      case Some(data) => Contents(data)
  }

  function Answer(d: Device, st: State, c: Command): (State, Reply)
    requires IsCommand(c)
  {
    var (files, reply) := Effect(d, st.files, Passes(d, st.pin, c), c);
    (State(PinAfter(d, st.pin, c), files), reply)
  }

  /** store_received_blob takes the file. */
  predicate Acceptable(d: Device, r: Response, slot: nat) {
    |r.contents| <= MAX_CONTENTS && P.Permitted(d.perms, r.group, P.Receiving) && slot < SLOTS
  }

  function FileOf(d: Device, r: Response, pin: bytes): File
    requires IsResponse(r)
  {
    File(Terminated(r.name), r.group, r.uuid, K.PinHash(d.master, pin), r.contents)
  }

  predicate AreCommands(cs: seq<Command>) {
    forall i :: 0 <= i < |cs| ==> IsCommand(cs[i])
  }

  function Answers(d: Device, st: State, cs: seq<Command>): (r: (State, seq<Reply>))
    requires AreCommands(cs)
    ensures |r.1| == |cs|
  {
    if cs == [] then (st, [])
    else
      var (mid, replies) := Answers(d, st, cs[..|cs| - 1]);
      var (end, reply) := Answer(d, mid, cs[|cs| - 1]);
      (end, replies + [reply])
  }

  // ---- the device ----

  /** The device in sync, as the map sees it. */
  ghost function Abstract(h: Hsm): State
    reads h.Repr()
    requires h.Synced()
  {
    State(h.guard.Ram(), h.Stored())
  }

  ghost predicate Running(h: Hsm, d: Device)
    reads h.Repr()
  {
    && h.Synced() && h.guard.initialized && h.Flash().reliable
    && h.guard.master == d.master && h.perms == d.perms && P.Sized(P.Provisioned(d.provisioned))
  }

  /** The host commands that change the files. */
  method Change(h: Hsm, c: Command, d: Device) returns (reply: Reply)
    requires Running(h, d) && IsCommand(c) && (c.Write? || c.Delete?)
    modifies h.Owned()
    ensures Running(h, d)
    ensures (Abstract(h), reply) == Answer(d, old(Abstract(h)), c)
  {
    hide Hsm.Ready, Hsm.Stored, WriteSpec, ReadSpec, K.PinHash, P.Permitted, Directory, P.Provisioned,
         P.Attempted, ParseWrite;
    match c {
      case Write(pkt, nonce) =>
        var ok := h.Write(pkt, nonce);
        reply := if ok then Granted else Refused;
      case Delete(pkt) =>
        var ok := h.DeleteFile(pkt);
        reply := if ok then Granted else Refused;
    }
  }

  /** receive and interrogate, apart from the messages on the link. */
  method Ask(h: Hsm, c: Command, d: Device) returns (reply: Reply)
    requires Running(h, d) && IsCommand(c) && (c.Receive? || c.Interrogate?)
    modifies h.Owned()
    ensures Running(h, d)
    ensures (Abstract(h), reply) == Answer(d, old(Abstract(h)), c)
  {
    hide Hsm.Ready, Hsm.Stored, K.PinHash, P.Permitted, P.Provisioned, Terminated;
    var ok := Begin(h, c.pkt, if c.Receive? then 8 else 6);
    if c.Interrogate? {
      return if ok && c.answered then Granted else Refused;
    }
    if !ok || c.arrived.None? {
      return Refused;
    }
    ok := h.StoreReceived(c.pkt[7] as nat, c.arrived.value, c.pkt[..6], c.nonce);
    reply := if ok then Granted else Refused;
  }

  /** The host commands that leave the files as they are. */
  method Query(h: Hsm, c: Command, d: Device) returns (reply: Reply)
    requires Running(h, d) && IsCommand(c) && (c.Read? || c.List? || c.ChangePin?)
    modifies h.Owned()
    ensures Running(h, d)
    ensures (Abstract(h), reply) == Answer(d, old(Abstract(h)), c)
  {
    hide Hsm.Ready, Hsm.Stored, WriteSpec, ReadSpec, K.PinHash, P.Permitted, Directory, P.Provisioned,
         P.Attempted;
    match c {
      case Read(pkt) =>
        var ok, data := h.Read(pkt);
        reply := if ok then Contents(data) else Refused;
      case List(pkt) =>
        var ok, list := h.List(pkt);
        reply := if ok then Listed(list) else Refused;
      case ChangePin(pkt) =>
        var ok := h.ChangePin(pkt);
        reply := if ok then Granted else Refused;
    }
  }

  /** One command or power cycle; after the latter a fresh object stands for the restarted device. */
  method Execute(h: Hsm, c: Command, d: Device) returns (next: Hsm, reply: Reply, ghost added: set<object>)
    requires Running(h, d) && IsCommand(c) && Abstract(h).pin.count < 0xFFFF_FFFF
    modifies h.Owned()
    ensures Running(next, d) && fresh(added) && next.Owned() <= h.Owned() + added
    ensures (Abstract(next), reply) == Answer(d, old(Abstract(h)), c)
  {
    hide Hsm.Ready, Hsm.Stored, WriteSpec, ReadSpec, K.PinHash, P.Permitted, Directory, P.Provisioned,
         P.Attempted;
    if c.PowerCycle? {
      next := h.Reboot(d.provisioned);
      reply := Granted;
      added := next.Owned() - h.Owned();
    } else {
      next, added := h, {};
      if c.Write? || c.Delete? {
        reply := Change(h, c, d);
      } else if c.Receive? || c.Interrogate? {
        reply := Ask(h, c, d);
      } else {
        reply := Query(h, c, d);
      }
    }
  }

  /** A whole session: the code, its flash and its RAM tables on one side, the map on the other. */
  method Serve(h: Hsm, cs: seq<Command>, d: Device) returns (end: Hsm, replies: seq<Reply>)
    requires Running(h, d) && AreCommands(cs) && Abstract(h).pin.count + |cs| < 0xFFFF_FFFF
    modifies h.Owned()
    ensures Running(end, d)
    ensures (Abstract(end), replies) == Answers(d, old(Abstract(h)), cs)
  {
    hide Hsm.Ready, Hsm.Stored, Hsm.Repr, Hsm.Owned, Hsm.Synced, Answer, Abstract;
    end, replies := h, [];
    ghost var allocated_: set<object> := {};
    var i := 0;
    assert cs[..i] == [];
    while i < |cs|
      invariant 0 <= i <= |cs| && Running(end, d) && end.Synced()
      invariant fresh(allocated_) && end.Owned() <= h.Owned() + allocated_
      invariant Abstract(end).pin.count <= old(Abstract(h)).pin.count + i
      invariant (Abstract(end), replies) == Answers(d, old(Abstract(h)), cs[..i])
    {
      var reply;
      ghost var added;
      CountGrows(d, Abstract(end), cs[i]);
      end, reply, added := Execute(end, cs[i], d);
      allocated_ := allocated_ + added;
      assert cs[..i + 1][..i] == cs[..i];
      replies := replies + [reply];
      i := i + 1;
    }
    assert cs[..i] == cs;
  }

  lemma CountGrows(d: Device, st: State, c: Command)
    requires IsCommand(c)
    ensures Answer(d, st, c).0.pin.count <= st.pin.count + 1
  {
    hide WriteSpec, ReadSpec, K.PinHash, P.Permitted, Directory, P.Provisioned;
  }

  // ---- what a session keeps ----

  /** The file that an accepted command stores, and where. */
  function Stores(d: Device, c: Command): Option<(nat, File)>
    requires IsCommand(c)
  {
    match c
    case Write(pkt, _) =>
      if |pkt| < WRITE_MIN || ParseWrite(pkt).len > |pkt| - WRITE_MIN then None
      else
        var w := ParseWrite(pkt);
        Some((w.slot, File(Terminated(w.name), w.group, w.uuid, K.PinHash(d.master, w.pin), pkt[WRITE_MIN..WRITE_MIN + w.len])))
    case Receive(pkt, arrived, _) =>
      if |pkt| < 8 || arrived.None? then None else Some((pkt[7] as nat, FileOf(d, arrived.value, pkt[..6])))
    case _ => None
  }

  /** What slot t holds, told from the acknowledged commands alone. */
  function LastStored(d: Device, first: Option<File>, cs: seq<Command>, replies: seq<Reply>, t: nat): Option<File>
    requires AreCommands(cs) && |replies| == |cs|
  {
    if cs == [] then first
    else
      var n, c := |cs| - 1, cs[|cs| - 1];
      var stored := Stores(d, c);
      if replies[n] == Granted && stored.Some? && stored.value.0 == t then Some(stored.value.1)
      else if replies[n] == Granted && c.Delete? && |c.pkt| >= 7 && c.pkt[6] as nat == t then None
      else LastStored(d, first, cs[..n], replies[..n], t)
  }

  function At(files: map<nat, File>, t: nat): Option<File> {
    if t in files then Some(files[t]) else None
  }

  /** After any session a slot holds the file of the last acknowledged command that stored there,
      unless an acknowledged delete came later: refused commands, PIN changes, reads and power
      cycles change no file. */
  lemma {:induction false} SlotHoldsLastStored(d: Device, st: State, cs: seq<Command>, t: nat)
    requires AreCommands(cs)
    ensures var (end, replies) := Answers(d, st, cs);
            At(end.files, t) == LastStored(d, At(st.files, t), cs, replies, t)
    decreases |cs|
  {
    hide Answer, Stores;
    if cs != [] {
      var n := |cs| - 1;
      SlotHoldsLastStored(d, st, cs[..n], t);
      var (mid, replies) := Answers(d, st, cs[..n]);
      AnswerKeeps(d, mid, cs[n], t);
      assert Answers(d, st, cs).1[..n] == replies;
    }
  }

  lemma AnswerKeeps(d: Device, st: State, c: Command, t: nat)
    requires IsCommand(c)
    ensures var (end, reply) := Answer(d, st, c);
            At(end.files, t) == if reply == Granted && Stores(d, c).Some? && Stores(d, c).value.0 == t then Some(Stores(d, c).value.1)
                                else if reply == Granted && c.Delete? && |c.pkt| >= 7 && c.pkt[6] as nat == t then None
                                else At(st.files, t)
  {
    hide ReadSpec, K.PinHash, P.Permitted, Directory, P.Provisioned, P.Attempted, Terminated, ParseWrite;
  }

  /** When a read is answered with a file: its PIN is the current one and the one the file was stored
      under, and the group is non-zero and readable. */
  lemma ReadableIff(d: Device, st: State, pkt: bytes)
    requires |pkt| >= 7
    ensures var reply, t := Answer(d, st, Read(pkt)).1, pkt[6] as nat;
            reply.Contents? <==>
              && t in st.files && K.PinHash(d.master, pkt[..6]) == st.pin.hash == st.files[t].owner
              && st.files[t].group != 0 && P.Permitted(d.perms, st.files[t].group, P.Reading)
    ensures var reply, t := Answer(d, st, Read(pkt)).1, pkt[6] as nat;
            reply.Contents? ==> reply.data == st.files[t].name + st.files[t].contents
  {
    hide K.PinHash, P.Permitted;
  }

  /** When a write packet is granted, and what is then stored: the counterpart of ReadableIff. */
  lemma WritableIff(d: Device, st: State, pin: bytes, slot: byte, group: nat, name: bytes, uuid: bytes, contents: bytes, nonce: bytes)
    requires |pin| == 6 && group < 0x1_0000 && |name| == 32 && |uuid| == 16 && |contents| <= MAX_PACKET - WRITE_MIN && |nonce| == 12
    ensures var c := Write(WritePacket(pin, slot, group, name, uuid, contents), nonce);
            && IsCommand(c)
            && (Answer(d, st, c).1 == Granted <==>
                  && K.PinHash(d.master, pin) == st.pin.hash && P.Permitted(d.perms, group, P.Writing)
                  && slot as nat < SLOTS && |contents| <= MAX_CONTENTS)
            && Answer(d, st, c).0.files
               == if Answer(d, st, c).1 == Granted
                  then st.files[slot as nat := File(Terminated(name), group, uuid, K.PinHash(d.master, pin), contents)]
                  else st.files
  {
    hide K.PinHash, P.Permitted, WritePacket, ParseWrite, Terminated, P.Attempted;
    PacketRoundTrip(pin, slot, group, name, uuid, contents);
  }

  // ---- the PIN over a session ----

  /** The state before command i, and its reply. */
  function Before(d: Device, st: State, cs: seq<Command>, i: nat): State
    requires AreCommands(cs) && i <= |cs|
  {
    Answers(d, st, cs[..i]).0
  }

  function ReplyTo(d: Device, st: State, cs: seq<Command>, i: nat): Reply
    requires AreCommands(cs) && i < |cs|
  {
    Answer(d, Before(d, st, cs, i), cs[i]).1
  }

  /** The replies of a session are those. */
  lemma {:induction false} RepliesAre(d: Device, st: State, cs: seq<Command>, i: nat)
    requires AreCommands(cs) && i < |cs|
    ensures Answers(d, st, cs).1[i] == ReplyTo(d, st, cs, i)
    decreases |cs|
  {
    hide Answer;
    var n := |cs| - 1;
    if i < n {
      RepliesAre(d, st, cs[..n], i);
      EarlierBefore(d, st, cs, i);
    }
  }

  lemma EarlierBefore(d: Device, st: State, cs: seq<Command>, i: nat)
    requires AreCommands(cs) && i < |cs|
    ensures Before(d, st, cs[..|cs| - 1], i) == Before(d, st, cs, i)
  {
    assert cs[..|cs| - 1][..i] == cs[..i];
  }

  /** Command i was tried with a PIN other than the one in force. */
  predicate WrongAt(d: Device, st: State, cs: seq<Command>, i: nat)
    requires AreCommands(cs) && i < |cs|
  {
    Tried(cs[i]).Some? && !Passes(d, Before(d, st, cs, i).pin, cs[i])
  }

  /** Command i was tried with the PIN in force, or powered up a device without one. */
  predicate ClearsAt(d: Device, st: State, cs: seq<Command>, i: nat)
    requires AreCommands(cs) && i < |cs|
  {
    || Passes(d, Before(d, st, cs, i).pin, cs[i])
    || (cs[i].PowerCycle? && Before(d, st, cs, i).pin.hash == Fill(255, 32))
  }

  /** Command i is a wrong attempt with no successful one after it. */
  predicate WrongSince(d: Device, st: State, cs: seq<Command>, i: nat)
    requires AreCommands(cs) && i < |cs|
  {
    WrongAt(d, st, cs, i) && forall j :: i < j < |cs| ==> !ClearsAt(d, st, cs, j)
  }

  ghost function Wrongs(d: Device, st: State, cs: seq<Command>): set<nat>
    requires AreCommands(cs)
  {
    set i: nat | i < |cs| && WrongSince(d, st, cs, i)
  }

  ghost predicate Cleared(d: Device, st: State, cs: seq<Command>)
    requires AreCommands(cs)
  {
    exists i: nat :: i < |cs| && ClearsAt(d, st, cs, i)
  }

  /** Over any session the counter is the number of wrong attempts after the last successful one,
      on top of the initial count when there has been none. */
  lemma {:induction false} CounterCounts(d: Device, st: State, cs: seq<Command>)
    requires AreCommands(cs) && st.pin.count + |cs| < 0xFFFF_FFFF
    ensures Answers(d, st, cs).0.pin.count == |Wrongs(d, st, cs)| + if Cleared(d, st, cs) then 0 else st.pin.count
    ensures |Wrongs(d, st, cs)| <= |cs|
    decreases |cs|
  {
    hide Answer, Answers, K.PinHash, WrongAt, ClearsAt, Wrongs, Cleared;
    if cs == [] {
      NoCommands(d, st);
    } else {
      CounterCounts(d, st, cs[..|cs| - 1]);
      PinStep(d, st, cs);
      WrongsStep(d, st, cs);
    }
  }

  lemma NoCommands(d: Device, st: State)
    ensures Answers(d, st, []) == (st, []) && Wrongs(d, st, []) == {} && !Cleared(d, st, [])
  {
  }

  lemma WrongsStep(d: Device, st: State, cs: seq<Command>)
    requires AreCommands(cs) && cs != []
    ensures var n, front := |cs| - 1, cs[..|cs| - 1];
            && n !in Wrongs(d, st, front)
            && Wrongs(d, st, cs) == (if ClearsAt(d, st, cs, n) then {}
                                     else if WrongAt(d, st, cs, n) then Wrongs(d, st, front) + {n} else Wrongs(d, st, front))
            && (Cleared(d, st, cs) <==> Cleared(d, st, front) || ClearsAt(d, st, cs, n))
  {
    hide Answer, Answers, K.PinHash, WrongAt, ClearsAt;
    var n, front := |cs| - 1, cs[..|cs| - 1];
    NotBoth(d, st, cs, n);
    forall i: nat | i < n
      ensures WrongSince(d, st, cs, i) <==> WrongSince(d, st, front, i) && !ClearsAt(d, st, cs, n)
      ensures ClearsAt(d, st, cs, i) == ClearsAt(d, st, front, i)
    {
      SinceStep(d, st, cs, i);
    }
    assert WrongSince(d, st, cs, n) <==> WrongAt(d, st, cs, n);
    assert Wrongs(d, st, cs) == (if ClearsAt(d, st, cs, n) then {}
                                 else if WrongAt(d, st, cs, n) then Wrongs(d, st, front) + {n} else Wrongs(d, st, front));
  }

  lemma NotBoth(d: Device, st: State, cs: seq<Command>, i: nat)
    requires AreCommands(cs) && i < |cs|
    ensures !(WrongAt(d, st, cs, i) && ClearsAt(d, st, cs, i))
  {
    hide Before, K.PinHash;
  }

  lemma SinceStep(d: Device, st: State, cs: seq<Command>, i: nat)
    requires AreCommands(cs) && i < |cs| - 1
    ensures var n, front := |cs| - 1, cs[..|cs| - 1];
            && (WrongSince(d, st, cs, i) <==> WrongSince(d, st, front, i) && !ClearsAt(d, st, cs, n))
            && ClearsAt(d, st, cs, i) == ClearsAt(d, st, front, i)
  {
    hide Answer, Answers, K.PinHash, WrongAt, ClearsAt;
    var n, front := |cs| - 1, cs[..|cs| - 1];
    forall k: nat | k < n
      ensures WrongAt(d, st, cs, k) == WrongAt(d, st, front, k) && ClearsAt(d, st, cs, k) == ClearsAt(d, st, front, k)
    {
      SameAt(d, st, cs, k);
    }
  }

  lemma SameAt(d: Device, st: State, cs: seq<Command>, i: nat)
    requires AreCommands(cs) && i < |cs| - 1
    ensures var front := cs[..|cs| - 1];
            WrongAt(d, st, cs, i) == WrongAt(d, st, front, i) && ClearsAt(d, st, cs, i) == ClearsAt(d, st, front, i)
  {
    hide Answer, Answers, K.PinHash, Tried, Before;
    EarlierBefore(d, st, cs, i);
  }

  /** The last command's effect on the counter. */
  lemma PinStep(d: Device, st: State, cs: seq<Command>)
    requires AreCommands(cs) && cs != []
    ensures var n := |cs| - 1;
            var before, after := Answers(d, st, cs[..n]).0.pin, Answers(d, st, cs).0.pin;
            && (WrongAt(d, st, cs, n) ==> after.count == (before.count + 1) % P.UINT32)
            && (ClearsAt(d, st, cs, n) ==> after.count == 0)
            && (!WrongAt(d, st, cs, n) && !ClearsAt(d, st, cs, n) && before.count != 0xFFFF_FFFF ==> after.count == before.count)
  {
    hide PinAfter, Tried, K.PinHash;
    LastPin(d, st, cs);
    CountAfter(d, Answers(d, st, cs[..|cs| - 1]).0.pin, cs[|cs| - 1]);
  }

  lemma LastPin(d: Device, st: State, cs: seq<Command>)
    requires AreCommands(cs) && cs != []
    ensures var n := |cs| - 1;
            Answers(d, st, cs).0.pin == PinAfter(d, Answers(d, st, cs[..n]).0.pin, cs[n])
  {
    hide PinAfter, Effect, Passes;
  }

  lemma CountAfter(d: Device, p: P.State, c: Command)
    ensures var clears := Passes(d, p, c) || (c.PowerCycle? && p.hash == Fill(255, 32));
            && (Tried(c).Some? && !Passes(d, p, c) ==> PinAfter(d, p, c).count == (p.count + 1) % P.UINT32)
            && (clears ==> PinAfter(d, p, c).count == 0)
            && (Tried(c).None? && !clears && p.count != 0xFFFF_FFFF ==> PinAfter(d, p, c).count == p.count)
  {
    hide K.PinHash, P.Provisioned;
  }

  /** The PIN that command i set: by a change that was granted, or the provisioned one on the power-up
      of a device without a PIN. */
  function SetAt(d: Device, st: State, cs: seq<Command>, i: nat): Option<bytes>
    requires AreCommands(cs) && i < |cs|
  {
    if cs[i].ChangePin? && |cs[i].pkt| >= 12 && ReplyTo(d, st, cs, i) == Granted
    then Some(cs[i].pkt[6..12])
    else if cs[i].PowerCycle? && Before(d, st, cs, i).pin.hash == Fill(255, 32)
    then Some(P.Provisioned(d.provisioned))
    else None
  }

  /** The PIN in force is the one that was set last. */
  lemma {:induction false} HashIsLastSet(d: Device, st: State, cs: seq<Command>, i: nat)
    requires AreCommands(cs) && i < |cs| && SetAt(d, st, cs, i).Some?
    requires forall j: nat :: i < j < |cs| ==> SetAt(d, st, cs, j) == None
    ensures Answers(d, st, cs).0.pin.hash == K.PinHash(d.master, SetAt(d, st, cs, i).value)
    decreases |cs|
  {
    hide Answer, Answers, Before, K.PinHash, ReplyTo, SetAt;
    var n := |cs| - 1;
    HashStep(d, st, cs);
    if i < n {
      forall j: nat | i <= j < n
        ensures SetAt(d, st, cs, j) == SetAt(d, st, cs[..n], j)
      {
        SetEarlier(d, st, cs, j);
      }
      HashIsLastSet(d, st, cs[..n], i);
    }
  }

  /** Once a PIN is set, and until another is, a command is answered only when it is tried with that
      PIN; the one alternative is a SHA-256 collision inside the hashes of the two PINs. */
  lemma OnlyTheLastPin(d: Device, st: State, cs: seq<Command>, i: nat, c: Command)
    requires AreCommands(cs) && IsCommand(c) && i < |cs| && SetAt(d, st, cs, i).Some?
    requires forall j: nat :: i < j < |cs| ==> SetAt(d, st, cs, j) == None
    requires !c.PowerCycle? && Answer(d, Answers(d, st, cs).0, c).1 != Refused
    ensures var pin := SetAt(d, st, cs, i).value;
            Tried(c).Some? && (Tried(c).value == pin || K.PinsCollide(d.master, Tried(c).value, pin))
  {
    hide Answer, Answers, SetAt, K.PinHash, K.PinsCollide, Tried;
    HashIsLastSet(d, st, cs, i);
    AnsweredPasses(d, Answers(d, st, cs).0, c);
    var pin := SetAt(d, st, cs, i).value;
    if Tried(c).value != pin {
      K.EqualPinHashes(d.master, Tried(c).value, pin);
    }
  }

  /** A command that is answered was tried with the PIN in force. */
  lemma AnsweredPasses(d: Device, st: State, c: Command)
    requires IsCommand(c) && !c.PowerCycle? && Answer(d, st, c).1 != Refused
    ensures Tried(c).Some? && K.PinHash(d.master, Tried(c).value) == st.pin.hash
  {
    hide K.PinHash, P.Permitted, ParseWrite, Terminated, P.Attempted, Directory;
  }

  ghost predicate PinKept(d: Device, st: State, cs: seq<Command>)
    requires AreCommands(cs)
  {
    forall i: nat :: i < |cs| ==> SetAt(d, st, cs, i) == None
  }

  lemma {:induction false} HashKept(d: Device, st: State, cs: seq<Command>)
    requires AreCommands(cs) && PinKept(d, st, cs)
    ensures Answers(d, st, cs).0.pin.hash == st.pin.hash
    decreases |cs|
  {
    hide Answer, Answers, Before, K.PinHash, ReplyTo, SetAt;
    if cs == [] {
      NoCommands(d, st);
    } else {
      var n := |cs| - 1;
      HashStep(d, st, cs);
      forall j: nat | j < n
        ensures SetAt(d, st, cs[..n], j) == None
      {
        SetEarlier(d, st, cs, j);
      }
      HashKept(d, st, cs[..n]);
    }
  }

  lemma SetEarlier(d: Device, st: State, cs: seq<Command>, i: nat)
    requires AreCommands(cs) && i < |cs| - 1
    ensures SetAt(d, st, cs, i) == SetAt(d, st, cs[..|cs| - 1], i)
  {
    hide Answer, Answers, K.PinHash;
    EarlierBefore(d, st, cs, i);
  }

  lemma HashStep(d: Device, st: State, cs: seq<Command>)
    requires AreCommands(cs) && cs != []
    ensures var n := |cs| - 1;
            Answers(d, st, cs).0.pin.hash
            == if SetAt(d, st, cs, n).Some? then K.PinHash(d.master, SetAt(d, st, cs, n).value) else Answers(d, st, cs[..n]).0.pin.hash
  {
    hide WriteSpec, ReadSpec, K.PinHash, P.Permitted, Directory, P.Provisioned, Terminated, ParseWrite;
  }

  /** The header documents a lock after five wrong PINs. There is none: after any session that does
      not change the PIN, however many attempts were wrong, the right one is still answered. */
  lemma NoLockout(d: Device, st: State, cs: seq<Command>, pin: bytes)
    requires AreCommands(cs) && PinKept(d, st, cs) && |pin| == 6 && K.PinHash(d.master, pin) == st.pin.hash
    ensures var end := Answers(d, st, cs).0;
            Answer(d, end, List(pin)).1 == Listed(Directory(end.files, SLOTS))
  {
    hide Answers, K.PinHash, Directory;
    HashKept(d, st, cs);
    assert pin[..6] == pin;
  }

  /** No accepted command of a session stores to slot t. */
  ghost predicate NothingStored(d: Device, st: State, cs: seq<Command>, t: nat)
    requires AreCommands(cs)
  {
    forall i: nat :: i < |cs| && ReplyTo(d, st, cs, i) == Granted && Stores(d, cs[i]).Some? ==> Stores(d, cs[i]).value.0 != t
  }

  /** A PIN change locks the files stored under an earlier PIN: as long as the PIN is not changed
      again and nothing else is stored there, every read of such a file is refused, whatever PIN it
      is tried with. */
  lemma LockedFiles(d: Device, st: State, cs: seq<Command>, t: nat, i: nat)
    requires AreCommands(cs) && t in st.files && st.files[t].owner != st.pin.hash
    requires PinKept(d, st, cs) && NothingStored(d, st, cs, t)
    requires i < |cs| && cs[i].Read? && |cs[i].pkt| >= 7 && cs[i].pkt[6] as nat == t
    ensures Answers(d, st, cs).1[i] == Refused
  {
    hide Answers, Answer, K.PinHash, SetAt, Stores;
    KeptPrefix(d, st, cs, t, i);
    HashKept(d, st, cs[..i]);
    LockedKept(d, st, cs[..i], t);
    RepliesAre(d, st, cs, i);
    ReadableIff(d, Before(d, st, cs, i), cs[i].pkt);
    ReadReply(d, Before(d, st, cs, i), cs[i].pkt);
  }

  lemma ReadReply(d: Device, st: State, pkt: bytes)
    ensures Answer(d, st, Read(pkt)).1.Contents? || Answer(d, st, Read(pkt)).1 == Refused
  {
    hide ReadSpec;
  }

  lemma KeptPrefix(d: Device, st: State, cs: seq<Command>, t: nat, i: nat)
    requires AreCommands(cs) && PinKept(d, st, cs) && NothingStored(d, st, cs, t) && i <= |cs|
    ensures PinKept(d, st, cs[..i]) && NothingStored(d, st, cs[..i], t)
  {
    hide Answers, Answer, K.PinHash, Stores;
    forall k: nat | k < i
      ensures Before(d, st, cs[..i], k) == Before(d, st, cs, k)
    {
      assert cs[..i][..k] == cs[..k];
    }
    forall k: nat | k < i
      ensures SetAt(d, st, cs[..i], k) == None
    {
      assert SetAt(d, st, cs, k) == None;
    }
    forall k: nat | k < i && ReplyTo(d, st, cs[..i], k) == Granted && Stores(d, cs[..i][k]).Some?
      ensures Stores(d, cs[..i][k]).value.0 != t
    {
      assert ReplyTo(d, st, cs, k) == Granted;
    }
  }

  lemma {:induction false} LockedKept(d: Device, st: State, cs: seq<Command>, t: nat)
    requires AreCommands(cs) && t in st.files && NothingStored(d, st, cs, t)
    ensures var end := Answers(d, st, cs).0; t in end.files ==> end.files[t] == st.files[t]
    decreases |cs|
  {
    hide Answer, Stores;
    if cs != [] {
      var n := |cs| - 1;
      StoredPrefix(d, st, cs, t);
      LockedKept(d, st, cs[..n], t);
      AnswerKeeps(d, Before(d, st, cs, n), cs[n], t);
    }
  }

  lemma StoredPrefix(d: Device, st: State, cs: seq<Command>, t: nat)
    requires AreCommands(cs) && cs != [] && NothingStored(d, st, cs, t)
    ensures NothingStored(d, st, cs[..|cs| - 1], t)
    ensures ReplyTo(d, st, cs, |cs| - 1) == Granted && Stores(d, cs[|cs| - 1]).Some? ==> Stores(d, cs[|cs| - 1]).value.0 != t
  {
    hide Answers, Answer, Stores;
    var n := |cs| - 1;
    forall k: nat | k < n && ReplyTo(d, st, cs[..n], k) == Granted && Stores(d, cs[..n][k]).Some?
      ensures Stores(d, cs[..n][k]).value.0 != t
    {
      EarlierBefore(d, st, cs, k);
      assert ReplyTo(d, st, cs, k) == Granted;
    }
  }

  /** Files of a session fit their slots, and their names end with NUL. */
  predicate Sound(files: map<nat, File>) {
    forall t :: t in files ==> t < SLOTS && |files[t].name| == 32 && files[t].name[31] == 0 && |files[t].contents| <= MAX_CONTENTS
  }

  lemma {:induction false} SessionSound(d: Device, st: State, cs: seq<Command>)
    requires AreCommands(cs) && Sound(st.files)
    ensures Sound(Answers(d, st, cs).0.files)
    decreases |cs|
  {
    hide Answer;
    if cs != [] {
      var n := |cs| - 1;
      SessionSound(d, st, cs[..n]);
      AnswerSound(d, Answers(d, st, cs[..n]).0, cs[n]);
    }
  }

  lemma AnswerSound(d: Device, st: State, c: Command)
    requires IsCommand(c) && Sound(st.files)
    ensures Sound(Answer(d, st, c).0.files)
  {
    hide ReadSpec, K.PinHash, P.Permitted, Directory, P.Provisioned, P.Attempted, ParseWrite;
  }
}
