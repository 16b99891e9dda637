/** Each end of the product machine, run alone on whatever its FIFO holds, does what the code does:
    the machine's steps are those of write_packet and read_packet. */
module TransportAlone {
  import opened Bytes
  import opened Transport
  import opened TransportMachine

  // ---- the sender alone ----

  predicate SenderOk(l: Link) {
    && IsLink(l)
    && match l.s
       case Sending(pos) => pos < Total(l)
       case Awaiting(pos, k) => 4 <= pos <= Total(l) && k < 4
       case SendStopped(_) => true
  }

  function SenderFuel(l: Link): nat
    requires SenderOk(l)
  {
    |l.rev| + match l.s
              case Sending(pos) => Total(l) - pos
              case Awaiting(pos, _) => Total(l) - pos
              case SendStopped(_) => 0
  }

  lemma SenderGoesOn(l: Link)
    requires SenderOk(l) && SenderEnabled(l)
    ensures SenderOk(SenderStep(l)) && SenderFuel(SenderStep(l)) < SenderFuel(l)
  {
  }

  /** The sender's steps until it stops or waits for bytes that are not there. */
  function SenderAlone(l: Link): Link
    requires SenderOk(l)
    decreases SenderFuel(l)
  {
    if SenderEnabled(l) then
      SenderGoesOn(l);
      SenderAlone(SenderStep(l))
    else l
  }

  lemma SenderUnfold(l: Link)
    requires SenderOk(l) && SenderEnabled(l)
    ensures SenderOk(SenderStep(l)) && SenderAlone(l) == SenderAlone(SenderStep(l))
  {
    SenderGoesOn(l);
  }

  /** Sending up to the next pause. */
  lemma {:induction false} SenderBlock(l: Link, pos: nat, pause: nat)
    requires IsLink(l) && l.s == Sending(pos) && pos < pause <= Total(l) && 4 <= pause && Pause(pause, Total(l))
    requires forall q :: pos < q < pause ==> !Pause(q, Total(l))
    ensures SenderAlone(l) == SenderAlone(l.(fwd := l.fwd + Wire(l)[pos..pause], s := Awaiting(pause, 0)))
    decreases pause - pos
  {
    hide SenderAlone, Frame, Pause;
    SenderUnfold(l);
    var next := SenderStep(l);
    if pos + 1 < pause {
      SenderBlock(next, pos + 1, pause);
      assert l.fwd + [Wire(l)[pos]] + Wire(l)[pos + 1..pause] == l.fwd + Wire(l)[pos..pause];
    } else {
      assert Wire(l)[pos..pause] == [Wire(l)[pos]];
    }
  }

  /** What the sender becomes on an acknowledgement with this outcome. */
  predicate AfterTakeAck(l: Link, pos: nat, m: Link)
    requires IsLink(l) && 4 <= pos <= Total(l)
  {
    var (status, rest) := TakeAck(l.rev);
    match status
    case Ok => SenderOk(l.(rev := rest, s := AckedAt(l, pos))) && m == SenderAlone(l.(rev := rest, s := AckedAt(l, pos)))
    case NoAck => m == l.(rev := rest, s := SendStopped(NoAck))
    case _ => rest == [] && m == l.(rev := rest, s := m.s) && m.s.Awaiting?
  }

  function AckedAt(l: Link, pos: nat): Sender {
    if pos == Total(l) then SendStopped(Ok) else Sending(pos)
  }

  lemma SenderTakesAck(l: Link, pos: nat)
    requires IsLink(l) && 4 <= pos <= Total(l) && l.s == Awaiting(pos, 0)
    ensures AfterTakeAck(l, pos, SenderAlone(l))
  {
    hide Frame;
    if l.rev != [] {
      SenderUnfold(l);
      var l1 := SenderStep(l);
      if l.rev[0] == MAGIC && |l.rev| > 1 {
        SenderUnfold(l1);
        var l2 := SenderStep(l1);
        if l.rev[1] == ACK && |l.rev| > 2 {
          SenderUnfold(l2);
          var l3 := SenderStep(l2);
          assert l3.rev == l.rev[3..];
          if |l.rev| > 3 {
            SenderUnfold(l3);
            assert SenderStep(l3).rev == l.rev[4..];
          }
        }
      }
    }
  }

  /** The outcome of the machine, for an outcome of write_packet. */
  predicate SenderEnds(m: Link, before: bytes, sent: Sent) {
    && m.fwd == before + sent.out && m.rev == sent.rest
    && match sent.status
       case Ok => m.s == SendStopped(Ok)
       case NoAck => m.s == SendStopped(NoAck)
       case _ => m.s.Awaiting? && m.rev == []
  }

  lemma {:induction false} SenderBody(l: Link, pos: nat)
    requires IsLink(l) && 4 <= pos <= Total(l) && ((pos - 4) % 256 == 0 || pos == Total(l)) && l.s == AckedAt(l, pos)
    ensures SenderOk(l) && SenderEnds(SenderAlone(l), l.fwd, SendBody(l.payload[pos - 4..], true, l.rev))
    decreases Total(l) - pos
  {
    hide TakeAck, Frame, SenderAlone, SendBody;
    SendStep(l.payload[pos - 4..], l.rev);
    if pos == Total(l) {
      SenderStops(l);
    } else {
      var n := if Total(l) - pos > 256 then 256 else Total(l) - pos;
      var block := l.payload[pos - 4..][..n];
      SenderBlock(l, pos, pos + n);
      WireBody(l, pos, n);
      var sent := l.(fwd := l.fwd + block, s := Awaiting(pos + n, 0));
      SenderTakesAck(sent, pos + n);
      var (status, rest) := TakeAck(l.rev);
      if status == Ok {
        var next := sent.(rev := rest, s := AckedAt(l, pos + n));
        assert l.payload[pos - 4..][n..] == l.payload[pos + n - 4..];
        SenderBody(next, pos + n);
        EndsAfter(SenderAlone(next), l.fwd, block, SendBody(l.payload[pos + n - 4..], true, rest));
      } else {
        SenderFails(sent, pos + n, SenderAlone(sent), l.fwd, block);
      }
    }
  }

  /** A block before an outcome. */
  lemma EndsAfter(m: Link, before: bytes, block: bytes, tail: Sent)
    requires SenderEnds(m, before + block, tail)
    ensures SenderEnds(m, before, Before(block, tail))
  {
    assert before + block + tail.out == before + (block + tail.out);
  }

  /** No acknowledgement, or a bad one, after a block. */
  lemma SenderFails(l: Link, pos: nat, m: Link, before: bytes, block: bytes)
    requires IsLink(l) && 4 <= pos <= Total(l) && l.fwd == before + block
    requires AfterTakeAck(l, pos, m) && TakeAck(l.rev).0 != Ok
    ensures SenderEnds(m, before, Sent(TakeAck(l.rev).0, block, TakeAck(l.rev).1))
  {
    hide Frame, SenderAlone;
  }

  /** One pass of the loop of write_bytes. */
  lemma SendStep(payload: bytes, rx: bytes)
    ensures var n := if |payload| > 256 then 256 else |payload|;
            var (status, rest) := TakeAck(rx);
            SendBody(payload, true, rx)
            == if payload == [] then Sent(Ok, [], rx)
               else if status != Ok then Sent(status, payload[..n], rest)
               else Before(payload[..n], SendBody(payload[n..], true, rest))
  {
    hide TakeAck;
  }

  lemma SenderStops(l: Link)
    requires IsLink(l) && l.s.SendStopped?
    ensures SenderOk(l) && SenderAlone(l) == l
    ensures SendBody([], true, l.rev) == Sent(Ok, [], l.rev)
  {
  }

  lemma WireBody(l: Link, pos: nat, n: nat)
    requires IsLink(l) && 4 <= pos && pos + n <= Total(l)
    ensures Wire(l)[pos..pos + n] == l.payload[pos - 4..][..n]
  {
  }

  /** On any reverse stream the sender sends what write_packet sends, consumes what it consumes, and
      ends as it ends: with success, with a bad acknowledgement, or waiting for one on an empty FIFO. */
  lemma SenderIsSend(cmd: byte, payload: bytes, limit: nat, reverse: bytes)
    requires IsLink(Start(cmd, payload, limit))
    ensures SenderEnds(SenderAlone(Start(cmd, payload, limit).(rev := reverse)), [], Send(cmd, payload, reverse))
  {
    hide TakeAck, SenderAlone, SendBody;
    var l := Start(cmd, payload, limit).(rev := reverse);
    SenderBlock(l, 0, 4);
    var h := Header(cmd, |payload|);
    assert Wire(l)[0..4] == h && [] + h == h;
    var sent := l.(fwd := h, s := Awaiting(4, 0));
    SenderTakesAck(sent, 4);
    var (status, rest) := TakeAck(reverse);
    if status == Ok {
      SenderBody(sent.(rev := rest, s := AckedAt(l, 4)), 4);
      assert payload[0..] == payload;
      assert [] + (h + SendBody(payload, true, rest).out) == h + SendBody(payload, true, rest).out;
    }
  }

  // ---- the receiver alone ----

  function ReceiverFuel(l: Link): nat {
    5 * |l.fwd| + if l.r.Acking? then (if l.r.k < 4 then 4 - l.r.k else 1) else 0
  }

  /** The receiver's steps until it stops or waits for bytes that are not there. */
  function ReceiverAlone(l: Link): Link
    decreases ReceiverFuel(l)
  {
    if ReceiverEnabled(l) then ReceiverAlone(ReceiverStep(l)) else l
  }

  lemma ReceiverUnfold(l: Link)
    requires ReceiverEnabled(l)
    ensures ReceiverAlone(l) == ReceiverAlone(ReceiverStep(l))
  {
  }

  lemma {:induction false} ReceiverSyncs(l: Link)
    requires l.r == Syncing
    ensures var (found, rest) := Synced(l.fwd);
            ReceiverAlone(l) == if found then ReceiverAlone(l.(fwd := rest, r := WantCmd)) else l.(fwd := [])
    decreases |l.fwd|
  {
    hide ReceiverAlone;
    if l.fwd != [] {
      ReceiverUnfold(l);
      if l.fwd[0] != MAGIC {
        ReceiverSyncs(ReceiverStep(l));
      }
    } else {
      ReceiverStuck(l);
    }
  }

  lemma ReceiverStuck(l: Link)
    requires !ReceiverEnabled(l)
    ensures ReceiverAlone(l) == l
  {
  }

  lemma ReceiverAcks(l: Link, cmd: byte, len: nat, got: bytes)
    requires l.r == Acking(0, cmd, len, got)
    ensures ReceiverAlone(l) == ReceiverAlone(l.(rev := l.rev + Acks(1), r := AfterAck(l, cmd, len, got)))
  {
    hide ReceiverAlone;
    var l1 := ReceiverStep(l);
    var l2 := ReceiverStep(l1);
    var l3 := ReceiverStep(l2);
    ReceiverUnfold(l);
    ReceiverUnfold(l1);
    ReceiverUnfold(l2);
    ReceiverUnfold(l3);
    assert Acks(1) == [MAGIC, ACK, 0, 0];
    assert ReceiverStep(l3).rev == l.rev + Acks(1);
  }

  /** read_packet acknowledges after this many body bytes. */
  predicate BlockEndsAt(read: nat, len: nat) {
    read % 256 == 0 || read == len
  }

  /** Reading the rest of a block of which m bytes are missing. */
  lemma {:induction false} ReceiverBlock(l: Link, cmd: byte, len: nat, got: bytes, m: nat)
    requires l.r == WantBody(cmd, len, got) && m > 0 && BlockEndsAt(|got| + m, len)
    requires forall k :: |got| < k < |got| + m ==> !BlockEndsAt(k, len)
    ensures |l.fwd| >= m ==>
              ReceiverAlone(l) == ReceiverAlone(l.(fwd := l.fwd[m..], r := Acking(0, cmd, len, got + l.fwd[..m])))
    ensures |l.fwd| < m ==>
              ReceiverAlone(l).fwd == [] && ReceiverAlone(l).rev == l.rev && ReceiverAlone(l).r.WantBody?
    decreases m
  {
    hide ReceiverAlone;
    if l.fwd == [] {
      ReceiverStuck(l);
    } else {
      ReceiverUnfold(l);
      var next, more := ReceiverStep(l), got + [l.fwd[0]];
      if m > 1 {
        assert !BlockEndsAt(|got| + 1, len);
        ReceiverBlock(next, cmd, len, more, m - 1);
        if |l.fwd| >= m {
          assert l.fwd[1..][m - 1..] == l.fwd[m..];
          assert more + l.fwd[1..][..m - 1] == got + l.fwd[..m];
        }
      } else {
        assert l.fwd[..1] == [l.fwd[0]];
      }
    }
  }

  /** The outcome of the machine, for an outcome of read_packet. */
  predicate ReceiverEnds(m: Link, before: bytes, got: Received) {
    && m.rev == before + Acks(got.acks) && m.fwd == got.rest
    && match got.status
       case Ok => m.r == ReceiveStopped(Ok, got.cmd, got.data)
       case BadLen => m.r == ReceiveStopped(BadLen, got.cmd, got.data)
       case _ => m.fwd == [] && !m.r.ReceiveStopped? && !m.r.Acking?
  }

  /** The rest of a body at a block boundary. */
  function Rest(cmd: byte, len: nat, got: bytes, rx: bytes): Received
    requires |got| <= len
  {
    var body := ReceiveBody(len - |got|, rx);
    body.(cmd := cmd, data := got + body.data)
  }

  lemma {:induction false} ReceiverBody(l: Link, cmd: byte, len: nat, got: bytes)
    requires |got| <= len && (|got| % 256 == 0 || |got| == len)
    requires l.r == if |got| >= len then ReceiveStopped(Ok, cmd, got) else WantBody(cmd, len, got)
    ensures ReceiverEnds(ReceiverAlone(l), l.rev, Rest(cmd, len, got, l.fwd))
    decreases len - |got|
  {
    hide ReceiverAlone, Acks, ReceiveBody;
    NoAcks();
    BodyStep(len - |got|, l.fwd);
    if |got| == len {
      ReceiverStuck(l);
      assert l.rev + [] == l.rev && got + [] == got;
    } else {
      var n := if len - |got| < 256 then len - |got| else 256;
      BlockEnd(|got|, len, n);
      ReceiverBlock(l, cmd, len, got, n);
      if |l.fwd| >= n {
        var more := got + l.fwd[..n];
        var mid := l.(fwd := l.fwd[n..], r := Acking(0, cmd, len, more));
        ReceiverAcks(mid, cmd, len, more);
        var next := mid.(rev := l.rev + Acks(1), r := AfterAck(mid, cmd, len, more));
        ReceiverBody(next, cmd, len, more);
        var tail := ReceiveBody(len - |more|, l.fwd[n..]);
        AcksJoin(1, tail.acks);
        assert l.rev + Acks(1) + Acks(tail.acks) == l.rev + Acks(1 + tail.acks);
        assert got + (l.fwd[..n] + tail.data) == more + tail.data;
      } else {
        assert l.rev + [] == l.rev;
      }
    }
  }

  lemma BlockEnd(got: nat, len: nat, n: nat)
    requires got % 256 == 0 && got < len && n == if len - got < 256 then len - got else 256
    ensures BlockEndsAt(got + n, len) && forall k :: got < k < got + n ==> !BlockEndsAt(k, len)
  {
  }

  /** On any input stream the receiver sends the acknowledgements that read_packet sends, leaves what
      it leaves unread, and ends as it ends: with the packet, with a bad length, or waiting on an
      empty FIFO. */
  lemma ReceiverIsReceive(cmd: byte, payload: bytes, limit: nat, input: bytes)
    ensures ReceiverEnds(ReceiverAlone(Start(cmd, payload, limit).(fwd := input)), [], Receive(input, limit))
  {
    hide ReceiverAlone, Acks, ReceiveBody, Synced;
    NoAcks();
    var l := Start(cmd, payload, limit).(fwd := input);
    ReceiverSyncs(l);
    var (found, r) := Synced(input);
    if found {
      HeaderRead(l.(fwd := r, r := WantCmd));
      if |r| >= 3 {
        var len := r[1] as nat + 256 * r[2] as nat;
        var mid := l.(fwd := r[3..], r := Acking(0, r[0], len, []));
        ReceiverAcks(mid, r[0], len, []);
        var next := mid.(rev := [] + Acks(1), r := AfterAck(mid, r[0], len, []));
        if limit != 0 && len > limit {
          ReceiverStuck(next);
        } else {
          ReceiverBody(next, r[0], len, []);
          var body := ReceiveBody(len, r[3..]);
          AcksJoin(1, body.acks);
          assert [] + body.data == body.data;
          assert [] + Acks(1) + Acks(body.acks) == [] + Acks(1 + body.acks);
        }
      }
    }
  }

  /** Command and length; fewer than three bytes leave the receiver waiting. */
  lemma HeaderRead(l: Link)
    requires l.r == WantCmd
    ensures |l.fwd| >= 3 ==>
              ReceiverAlone(l)
              == ReceiverAlone(l.(fwd := l.fwd[3..], r := Acking(0, l.fwd[0], l.fwd[1] as nat + 256 * l.fwd[2] as nat, [])))
    ensures |l.fwd| < 3 ==>
              ReceiverAlone(l).fwd == [] && ReceiverAlone(l).rev == l.rev
              && !ReceiverAlone(l).r.ReceiveStopped? && !ReceiverAlone(l).r.Acking?
  {
    hide ReceiverAlone;
    if l.fwd == [] {
      ReceiverStuck(l);
    } else {
      ReceiverUnfold(l);
      var l1 := ReceiverStep(l);
      if |l.fwd| == 1 {
        ReceiverStuck(l1);
      } else {
        ReceiverUnfold(l1);
        var l2 := ReceiverStep(l1);
        if |l.fwd| == 2 {
          ReceiverStuck(l2);
        } else {
          ReceiverUnfold(l2);
          assert ReceiverStep(l2).fwd == l.fwd[3..];
        }
      }
    }
  }
}
