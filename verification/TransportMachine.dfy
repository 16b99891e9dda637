/** write_packet and read_packet as two machines that run byte by byte against each other over two
    lossless FIFOs, in any interleaving. */
module TransportMachine {
  import opened Bytes
  import opened Transport

  /** write_packet on its way: pos frame bytes are sent; k bytes of the awaited ACK are read. */
  datatype Sender =
    | Sending(pos: nat)
    | Awaiting(pos: nat, k: nat)
    | SendStopped(status: Status)

  /** read_packet on its way. Acking has sent k bytes of an ACK, after the header or after a block. */
  datatype Receiver =
    | Syncing
    | WantCmd
    | WantLow(cmd: byte)
    | WantHigh(cmd: byte, low: byte)
    | Acking(k: nat, cmd: byte, len: nat, got: bytes)
    | WantBody(cmd: byte, len: nat, got: bytes)
    | ReceiveStopped(status: Status, cmd: byte, got: bytes)

  /** The packet being sent and the receiver's limit do not change; fwd and rev are the FIFOs. */
  datatype Link = Link(cmd: byte, payload: bytes, limit: nat, s: Sender, r: Receiver, fwd: bytes, rev: bytes)

  /** Where write_packet pauses for an acknowledgement: after the header and after every block. */
  predicate Pause(pos: nat, total: nat) {
    pos == 4 || (pos > 4 && ((pos - 4) % 256 == 0 || pos == total))
  }

  predicate IsLink(l: Link) {
    Acked(l.cmd) && |l.payload| < 0x1_0000 && (l.limit == 0 || |l.payload| <= l.limit)
  }

  function Total(l: Link): nat {
    4 + |l.payload|
  }

  function Wire(l: Link): (w: bytes)
    requires IsLink(l)
    ensures |w| == Total(l)
  {
    Frame(l.cmd, l.payload)
  }

  // ---- the sender's step ----

  predicate SenderEnabled(l: Link) {
    match l.s
    case Sending(_) => true
    case Awaiting(_, _) => l.rev != []
    case SendStopped(_) => false
  }

  function SenderStep(l: Link): (m: Link)
    requires IsLink(l) && SenderEnabled(l) && (l.s.Sending? ==> l.s.pos < Total(l))
    ensures m.cmd == l.cmd && m.payload == l.payload && m.limit == l.limit
  {
    match l.s
    case Sending(pos) =>
      l.(fwd := l.fwd + [Wire(l)[pos]],
         s := if Pause(pos + 1, Total(l)) then Awaiting(pos + 1, 0) else Sending(pos + 1))
    case Awaiting(pos, k) =>
      var b := l.rev[0];
      var next :=
        if (k == 0 && b != MAGIC) || (k == 1 && b != ACK) then SendStopped(NoAck)
        else if k < 3 then Awaiting(pos, k + 1)
        else if pos == Total(l) then SendStopped(Ok)
        else Sending(pos);
      l.(rev := l.rev[1..], s := next)
  }

  // ---- the receiver's step ----

  predicate ReceiverEnabled(l: Link) {
    l.r.Acking? || (!l.r.ReceiveStopped? && l.fwd != [])
  }

  function AckByte(k: nat): byte {
    if k == 0 then MAGIC else if k == 1 then ACK else 0
  }

  /** The receiver once the ACK it was sending is complete. */
  function AfterAck(l: Link, cmd: byte, len: nat, got: bytes): Receiver {
    if got == [] && l.limit != 0 && len > l.limit then ReceiveStopped(BadLen, cmd, got)
    else if |got| >= len then ReceiveStopped(Ok, cmd, got)
    else WantBody(cmd, len, got)
  }

  function ReceiverStep(l: Link): (m: Link)
    requires ReceiverEnabled(l)
    ensures m.cmd == l.cmd && m.payload == l.payload && m.limit == l.limit
  {
    match l.r
    case Acking(k, cmd, len, got) =>
      l.(rev := l.rev + [AckByte(k)],
         r := if k < 3 then Acking(k + 1, cmd, len, got) else AfterAck(l, cmd, len, got))
    case Syncing => l.(fwd := l.fwd[1..], r := if l.fwd[0] == MAGIC then WantCmd else Syncing)
    case WantCmd => l.(fwd := l.fwd[1..], r := WantLow(l.fwd[0]))
    case WantLow(cmd) => l.(fwd := l.fwd[1..], r := WantHigh(cmd, l.fwd[0]))
    case WantHigh(cmd, low) =>
      l.(fwd := l.fwd[1..], r := Acking(0, cmd, low as nat + 256 * l.fwd[0] as nat, []))
    case WantBody(cmd, len, got) =>
      var more := got + [l.fwd[0]];
      l.(fwd := l.fwd[1..],
         r := if |more| % 256 == 0 || |more| == len then Acking(0, cmd, len, more) else WantBody(cmd, len, more))
  }

  datatype Who = SenderMoves | ReceiverMoves

  predicate Enabled(l: Link, who: Who) {
    if who == SenderMoves then SenderEnabled(l) else ReceiverEnabled(l)
  }

  // ---- the invariant ----

  /** The receiver that has read pos frame bytes and owes no acknowledgement. */
  function Reading(l: Link, pos: nat): Receiver
    requires IsLink(l) && pos <= Total(l)
  {
    if pos == 0 then Syncing
    else if pos == 1 then WantCmd
    else if pos == 2 then WantLow(l.cmd)
    else if pos == 3 then WantHigh(l.cmd, Wire(l)[2])
    else if pos == Total(l) then ReceiveStopped(Ok, l.cmd, l.payload)
    else WantBody(l.cmd, |l.payload|, l.payload[..pos - 4])
  }

  /** The next pause at or after pos. */
  function NextPause(pos: nat, total: nat): (p: nat)
    requires 4 <= total && pos <= total
    ensures pos <= p <= total && Pause(p, total) && p <= pos + 256
    ensures forall q :: pos <= q < p ==> !Pause(q, total)
  {
    if pos <= 4 then 4
    else
      var k := (pos - 4 + 255) / 256;
      NoPauseBefore(pos, k, total);
      if 4 + 256 * k < total then 4 + 256 * k else total
  }

  lemma NoPauseBefore(pos: nat, k: nat, total: nat)
    requires 4 < pos <= total && k == (pos - 4 + 255) / 256
    ensures pos <= 4 + 256 * k < pos + 256 && Pause(4 + 256 * k, total)
    ensures forall q: nat :: pos <= q < 4 + 256 * k && q < total ==> !Pause(q, total)
  {
    assert 4 + 256 * k - 4 == 256 * k;
    forall q: nat | pos <= q < 4 + 256 * k && q < total
      ensures !Pause(q, total)
    {
      assert q - 4 == 256 * (k - 1) + (q - 4 - 256 * (k - 1));
    }
  }

  /** A block is on its way: the sender is inside it or waiting at its end, the receiver somewhere
      behind, and no acknowledgement is in flight. */
  ghost predicate BlockInFlight(l: Link, read: nat, sent: nat)
    requires IsLink(l)
  {
    && read <= sent <= NextPauseAfter(l, read) && read < Total(l)
    && l.s == (if sent == NextPauseAfter(l, read) then Awaiting(sent, 0) else Sending(sent))
    && l.r == Reading(l, read)
    && l.fwd == Wire(l)[read..sent] && l.rev == []
  }

  function NextPauseAfter(l: Link, read: nat): nat
    requires IsLink(l)
  {
    if read >= Total(l) then Total(l) else NextPause(read + 1, Total(l))
  }

  /** The acknowledgement of the block ending at pos is on its way: the receiver has sent its first
      j bytes and the sender has read the first k of those. */
  ghost predicate AckInFlight(l: Link, pos: nat, k: nat, j: nat)
    requires IsLink(l)
  {
    && 4 <= pos <= Total(l) && Pause(pos, Total(l)) && k <= j <= 4 && k < 4
    && l.s == Awaiting(pos, k)
    && l.r == (if j < 4 then Acking(j, l.cmd, |l.payload|, l.payload[..pos - 4]) else Reading(l, pos))
    && l.fwd == [] && l.rev == Acks(1)[k..j]
  }

  predicate Finished(l: Link) {
    l.s == SendStopped(Ok) && l.r == ReceiveStopped(Ok, l.cmd, l.payload) && l.fwd == [] && l.rev == []
  }

  ghost predicate Inv(l: Link) {
    && IsLink(l)
    && ((exists read: nat, sent: nat :: BlockInFlight(l, read, sent))
        || (exists pos: nat, k: nat, j: nat :: AckInFlight(l, pos, k, j))
        || Finished(l))
  }

  function Start(cmd: byte, payload: bytes, limit: nat): Link {
    Link(cmd, payload, limit, Sending(0), Syncing, [], [])
  }

  lemma StartInv(cmd: byte, payload: bytes, limit: nat)
    requires IsLink(Start(cmd, payload, limit))
    ensures Inv(Start(cmd, payload, limit))
  {
    var l := Start(cmd, payload, limit);
    assert NextPauseAfter(l, 0) == 4;
    assert Wire(l)[0..0] == [];
    assert BlockInFlight(l, 0, 0);
  }

  // ---- every step keeps the invariant ----

  lemma PauseReached(l: Link, read: nat, at: nat)
    requires IsLink(l) && read < at <= NextPauseAfter(l, read) && read < Total(l)
    ensures Pause(at, Total(l)) <==> at == NextPauseAfter(l, read)
    ensures at < NextPauseAfter(l, read) ==> NextPauseAfter(l, at) == NextPauseAfter(l, read)
  {
    hide NextPause;
    if at < NextPauseAfter(l, read) {
      var p, q := NextPauseAfter(l, read), NextPauseAfter(l, at);
      assert !Pause(at, Total(l));
      assert Pause(p, Total(l)) && Pause(q, Total(l));
    }
  }

  lemma SenderKeepsBlock(l: Link, read: nat, sent: nat)
    requires IsLink(l) && BlockInFlight(l, read, sent) && SenderEnabled(l)
    ensures l.s.Sending? && l.s.pos < Total(l)
    ensures BlockInFlight(SenderStep(l), read, sent + 1)
  {
    hide Frame, NextPause, Reading, Pause;
    PauseReached(l, read, sent + 1);
    assert Wire(l)[read..sent] + [Wire(l)[sent]] == Wire(l)[read..sent + 1];
    assert NextPauseAfter(SenderStep(l), read) == NextPauseAfter(l, read);
    SameReading(l, SenderStep(l), read);
  }

  lemma SameReading(l: Link, m: Link, pos: nat)
    requires IsLink(l) && IsLink(m) && l.cmd == m.cmd && l.payload == m.payload && l.limit == m.limit && pos <= Total(l)
    ensures Reading(l, pos) == Reading(m, pos)
  {
  }

  lemma LengthField(n: nat)
    requires n < 0x1_0000
    ensures ((n % 256) as byte) as nat + 256 * ((n / 256) as byte) as nat == n
  {
  }

  /** The receiver's reaction to one more frame byte. */
  lemma ReceiverReads(l: Link, read: nat)
    requires IsLink(l) && read < Total(l) && l.r == Reading(l, read) && l.fwd != [] && l.fwd[0] == Wire(l)[read]
    ensures ReceiverStep(l).r
         == if Pause(read + 1, Total(l)) then Acking(0, l.cmd, |l.payload|, l.payload[..read + 1 - 4]) else Reading(l, read + 1)
    ensures ReceiverStep(l).fwd == l.fwd[1..]
  {
    LengthField(|l.payload|);
    if read >= 4 {
      assert l.payload[..read - 4] + [l.payload[read - 4]] == l.payload[..read + 1 - 4];
    }
  }

  lemma ReceiverKeepsBlock(l: Link, read: nat, sent: nat)
    requires IsLink(l) && BlockInFlight(l, read, sent) && ReceiverEnabled(l)
    ensures read < sent <= NextPauseAfter(l, read) && read < Total(l)
    ensures if read + 1 == NextPauseAfter(l, read) then AckInFlight(ReceiverStep(l), read + 1, 0, 0)
            else BlockInFlight(ReceiverStep(l), read + 1, sent)
  {
    hide Frame, NextPause, Pause;
    assert read < sent by {
      if read == sent {
        assert Wire(l)[read..sent] == [];
        NotAcking(l, read);
      }
    }
    assert l.fwd[0] == Wire(l)[read] && l.fwd[1..] == Wire(l)[read + 1..sent];
    ReceiverReads(l, read);
    PauseReached(l, read, read + 1);
    var next := ReceiverStep(l);
    SameReading(l, next, read + 1);
    assert next.rev == l.rev by {
      NotAcking(l, read);
    }
    assert Acks(1)[0..0] == [];
  }

  lemma NotAcking(l: Link, pos: nat)
    requires IsLink(l) && pos < Total(l) && l.r == Reading(l, pos)
    ensures !l.r.Acking? && !l.r.ReceiveStopped?
  {
  }

  lemma AckBytesAre()
    ensures Acks(1) == [MAGIC, ACK, 0, 0]
    ensures forall k :: 0 <= k < 4 ==> Acks(1)[k] == AckByte(k)
  {
    assert Acks(0) == [];
  }

  lemma ReceiverKeepsAck(l: Link, pos: nat, k: nat, j: nat)
    requires IsLink(l) && AckInFlight(l, pos, k, j) && ReceiverEnabled(l)
    ensures j < 4 && AckInFlight(ReceiverStep(l), pos, k, j + 1)
  {
    hide Frame, Pause, Acks;
    AckBytesAre();
    var next := ReceiverStep(l);
    assert Acks(1)[k..j] + [Acks(1)[j]] == Acks(1)[k..j + 1];
    SameReading(l, next, pos);
    if pos == Total(l) {
      assert l.payload[..pos - 4] == l.payload;
    }
  }

  lemma SenderKeepsAck(l: Link, pos: nat, k: nat, j: nat)
    requires IsLink(l) && AckInFlight(l, pos, k, j) && SenderEnabled(l)
    ensures l.s.Awaiting? && k < j <= 4
    ensures var next := SenderStep(l);
            if k < 3 then AckInFlight(next, pos, k + 1, j)
            else if pos < Total(l) then BlockInFlight(next, pos, pos)
            else Finished(next)
  {
    hide Frame, Pause, Acks, NextPause;
    AckBytesAre();
    var next := SenderStep(l);
    assert Acks(1)[k..j][1..] == Acks(1)[k + 1..j];
    SameReading(l, next, pos);
    assert Wire(l)[pos..pos] == [];
  }

  lemma StepInBlock(l: Link, who: Who, read: nat, sent: nat)
    requires IsLink(l) && Enabled(l, who) && BlockInFlight(l, read, sent)
    ensures Inv(Move(l, who)) && StepsLeft(Move(l, who)) == StepsLeft(l) - 1
  {
    hide BlockInFlight, AckInFlight, SenderStep, ReceiverStep, StepsLeft, Finished, NextPauseAfter, AckBytes;
    StepsOfBlock(l, read, sent);
    if who == SenderMoves {
      SenderKeepsBlock(l, read, sent);
      StepsOfBlock(SenderStep(l), read, sent + 1);
    } else {
      ReceiverKeepsBlock(l, read, sent);
      PauseReached(l, read, read + 1);
      if read + 1 == NextPauseAfter(l, read) {
        StepsOfAck(ReceiverStep(l), read + 1, 0, 0);
        BlockEnds(l, read, sent);
      } else {
        StepsOfBlock(ReceiverStep(l), read + 1, sent);
        AckBytesInBlock(l, read, read + 1);
      }
    }
  }

  lemma StepInAck(l: Link, who: Who, pos: nat, k: nat, j: nat)
    requires IsLink(l) && Enabled(l, who) && AckInFlight(l, pos, k, j)
    ensures Inv(Move(l, who)) && StepsLeft(Move(l, who)) == StepsLeft(l) - 1
  {
    hide BlockInFlight, AckInFlight, SenderStep, ReceiverStep, StepsLeft, AckBytes, NextPauseAfter;
    StepsOfAck(l, pos, k, j);
    if who == SenderMoves {
      SenderKeepsAck(l, pos, k, j);
      if k < 3 {
        StepsOfAck(SenderStep(l), pos, k + 1, j);
      } else if pos < Total(l) {
        StepsOfBlock(SenderStep(l), pos, pos);
      } else {
        StepsAtEnd(SenderStep(l));
        AtTotal(l, pos, k, j);
      }
    } else {
      ReceiverKeepsAck(l, pos, k, j);
      StepsOfAck(ReceiverStep(l), pos, k, j + 1);
    }
  }

  lemma AtTotal(l: Link, pos: nat, k: nat, j: nat)
    requires IsLink(l) && AckInFlight(l, pos, k, j) && pos >= Total(l)
    ensures pos == Total(l)
  {
  }

  lemma StepKeepsInv(l: Link, who: Who)
    requires Inv(l) && Enabled(l, who)
    ensures Inv(Move(l, who)) && StepsLeft(Move(l, who)) == StepsLeft(l) - 1
  {
    hide BlockInFlight, AckInFlight, Move, StepsLeft;
    if read: nat, sent: nat :| BlockInFlight(l, read, sent) {
      StepInBlock(l, who, read, sent);
    } else if pos: nat, k: nat, j: nat :| AckInFlight(l, pos, k, j) {
      StepInAck(l, who, pos, k, j);
    }
  }

  /** One step of either machine; a sender that would run past its frame stays where it is. */
  function Move(l: Link, who: Who): Link
    requires IsLink(l) && Enabled(l, who)
  {
    if who == SenderMoves then
      if l.s.Sending? && l.s.pos >= Total(l) then l else SenderStep(l)
    else ReceiverStep(l)
  }

  // ---- steps left ----

  /** ACK bytes exchanged for the pauses at or before pos, when pos is inside a block. */
  function AckBytes(pos: nat, total: nat): nat {
    if pos < 4 then 0
    else if pos == total then 4 * (1 + (pos - 4 + 255) / 256)
    else 4 * (1 + (pos - 4) / 256)
  }

  /** Every step sends or reads one byte; this many of them are still to come. */
  ghost function StepsLeft(l: Link): int {
    2 * (Total(l) + AckBytes(Total(l), Total(l))) - SenderDone(l) - ReceiverDone(l)
  }

  ghost function SenderDone(l: Link): int {
    match l.s
    case Sending(pos) => pos + AckBytes(pos, Total(l))
    case Awaiting(pos, k) => pos + AckBytes(pos, Total(l)) - 4 + k
    case SendStopped(_) => Total(l) + AckBytes(Total(l), Total(l))
  }

  ghost function ReceiverDone(l: Link): int {
    match l.r
    case Syncing => 0
    case WantCmd => 1
    case WantLow(_) => 2
    case WantHigh(_, _) => 3
    case Acking(k, _, _, got) => 4 + |got| + AckBytes(4 + |got|, Total(l)) - 4 + k
    case WantBody(_, _, got) => 4 + |got| + AckBytes(4 + |got|, Total(l))
    case ReceiveStopped(_, _, _) => Total(l) + AckBytes(Total(l), Total(l))
  }

  ghost function StepsAt(l: Link, sender: int, receiver: int): int {
    2 * (Total(l) + AckBytes(Total(l), Total(l))) - sender - receiver
  }

  lemma StepsOfBlock(l: Link, read: nat, sent: nat)
    requires IsLink(l) && BlockInFlight(l, read, sent)
    ensures StepsLeft(l) == StepsAt(l, sent + AckBytes(read, Total(l)), read + AckBytes(read, Total(l)))
    ensures StepsLeft(l) > 0
    ensures |l.fwd| <= 256 && |l.rev| <= 4
  {
    hide Frame;
    AckBytesInBlock(l, read, sent);
  }

  lemma NextPauseIs(l: Link, read: nat)
    requires IsLink(l) && 4 <= read < Total(l)
    ensures var p := 4 + 256 * ((read - 4) / 256 + 1);
            NextPauseAfter(l, read) == if p < Total(l) then p else Total(l)
  {
  }

  lemma AckBytesInBlock(l: Link, read: nat, sent: nat)
    requires IsLink(l) && read <= sent <= NextPauseAfter(l, read) && read < Total(l)
    ensures sent < NextPauseAfter(l, read) ==> AckBytes(sent, Total(l)) == AckBytes(read, Total(l))
    ensures AckBytes(NextPauseAfter(l, read), Total(l)) == AckBytes(read, Total(l)) + 4
    ensures AckBytes(read, Total(l)) < AckBytes(Total(l), Total(l))
  {
    if read >= 4 {
      NextPauseIs(l, read);
      hide NextPauseAfter;
      var q := (read - 4) / 256;
      assert AckBytes(read, Total(l)) == 4 * (1 + q);
      if sent < NextPauseAfter(l, read) {
        assert (sent - 4) / 256 == q;
      }
    }
  }

  lemma BlockEnds(l: Link, read: nat, sent: nat)
    requires IsLink(l) && BlockInFlight(l, read, sent) && read + 1 == NextPauseAfter(l, read) && ReceiverEnabled(l)
    ensures sent == read + 1
    ensures AckBytes(read + 1, Total(l)) == AckBytes(read, Total(l)) + 4
  {
    hide Frame, NextPause;
    AckBytesInBlock(l, read, sent);
    if read == sent {
      assert Wire(l)[read..sent] == [];
      NotAcking(l, read);
    }
  }

  lemma StepsOfAck(l: Link, pos: nat, k: nat, j: nat)
    requires IsLink(l) && AckInFlight(l, pos, k, j)
    ensures StepsLeft(l) == StepsAt(l, pos + AckBytes(pos, Total(l)) - 4 + k, pos + AckBytes(pos, Total(l)) - 4 + j)
    ensures StepsLeft(l) > 0
    ensures |l.fwd| <= 256 && |l.rev| <= 4
  {
    hide Frame, Acks;
    assert AckBytes(pos, Total(l)) <= AckBytes(Total(l), Total(l));
    if pos == Total(l) {
      assert l.payload[..pos - 4] == l.payload;
    }
  }

  lemma StepsAtEnd(l: Link)
    requires Finished(l)
    ensures StepsLeft(l) == 0
  {
  }

  // ---- all interleavings ----

  predicate IsSchedule(l: Link, schedule: seq<Who>)
    requires IsLink(l)
    decreases |schedule|, 0
  {
    schedule == [] || (IsSchedule(l, schedule[..|schedule| - 1])
                       && Enabled(After(l, schedule[..|schedule| - 1]), schedule[|schedule| - 1]))
  }

  function After(l: Link, schedule: seq<Who>): (m: Link)
    requires IsLink(l) && IsSchedule(l, schedule)
    ensures IsLink(m) && m.cmd == l.cmd && m.payload == l.payload && m.limit == l.limit
    decreases |schedule|, 1
  {
    if schedule == [] then l else Move(After(l, schedule[..|schedule| - 1]), schedule[|schedule| - 1])
  }

  /** Only a finished link is stuck. */
  lemma NoDeadlock(l: Link)
    requires Inv(l)
    ensures Finished(l) <==> !SenderEnabled(l) && !ReceiverEnabled(l)
    ensures Finished(l) <==> StepsLeft(l) == 0
    ensures StepsLeft(l) >= 0 && |l.fwd| <= 256 && |l.rev| <= 4
  {
    hide StepsLeft, Acks, Frame;
    if read: nat, sent: nat :| BlockInFlight(l, read, sent) {
      StepsOfBlock(l, read, sent);
      NotAcking(l, read);
      if l.s.Awaiting? {
        assert read < sent && |l.fwd| == sent - read;
      }
    } else if pos: nat, k: nat, j: nat :| AckInFlight(l, pos, k, j) {
      StepsOfAck(l, pos, k, j);
      if j == 4 {
        assert |l.rev| == j - k > 0;
      }
    } else {
      StepsAtEnd(l);
    }
  }

  /** Transport correctness. For every acknowledged packet type, every payload, every limit that
      admits it and every interleaving of the two machines: at most 256 bytes are in flight forward
      and 4 backward; each step takes exactly one off the bytes still to move, so no run is longer
      than their number; and a run can only stop when both sides have returned success, the receiver
      holds exactly the payload and both FIFOs are empty. */
  lemma {:induction false} EveryInterleaving(cmd: byte, payload: bytes, limit: nat, schedule: seq<Who>)
    requires IsLink(Start(cmd, payload, limit)) && IsSchedule(Start(cmd, payload, limit), schedule)
    ensures var l := After(Start(cmd, payload, limit), schedule);
            && |l.fwd| <= 256 && |l.rev| <= 4
            && |schedule| + StepsLeft(l) == 2 * (4 + |payload|) + 8 * AckCount(|payload|)
            && StepsLeft(l) >= 0
            && (!SenderEnabled(l) && !ReceiverEnabled(l) <==>
                  l.s == SendStopped(Ok) && l.r == ReceiveStopped(Ok, cmd, payload) && l.fwd == [] && l.rev == [])
    ensures Inv(After(Start(cmd, payload, limit), schedule))
    decreases |schedule|
  {
    hide Inv, StepsLeft, Move, SenderEnabled, ReceiverEnabled;
    var start := Start(cmd, payload, limit);
    if schedule == [] {
      StartInv(cmd, payload, limit);
      StepsAtStart(cmd, payload, limit);
    } else {
      EveryInterleaving(cmd, payload, limit, schedule[..|schedule| - 1]);
      StepKeepsInv(After(start, schedule[..|schedule| - 1]), schedule[|schedule| - 1]);
    }
    NoDeadlock(After(start, schedule));
  }

  lemma StepsAtStart(cmd: byte, payload: bytes, limit: nat)
    ensures StepsLeft(Start(cmd, payload, limit)) == 2 * (4 + |payload|) + 8 * AckCount(|payload|)
  {
  }
}
