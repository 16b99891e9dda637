/** host_messaging.c: framed packets, acknowledged after the header and after every 256-byte block.
    The UART is a pair of byte FIFOs; a read from an empty one is a timeout. */
module Transport {
  import opened Bytes
  import opened Wrappers

  const MAGIC: byte := 0x25
  const ACK: byte := 0x41
  const DEBUG: byte := 0x44
  const ERROR: byte := 0x45

  datatype Status = Ok | Timeout | NoAck | BadLen

  /** Packet types whose sender waits for acknowledgements. */
  predicate Acked(cmd: byte) {
    cmd != ACK && cmd != DEBUG && cmd != ERROR
  }

  function Header(cmd: byte, len: nat): (h: bytes)
    requires len < 0x1_0000
    ensures |h| == 4
  {
    [MAGIC, cmd, (len % 256) as byte, (len / 256) as byte]
  }

  function Frame(cmd: byte, payload: bytes): bytes
    requires |payload| < 0x1_0000
  {
    Header(cmd, |payload|) + payload
  }

  /** Acknowledgements a packet of n payload bytes draws: one for the header, one per block. */
  function AckCount(n: nat): nat {
    1 + Blocks(n)
  }

  /** Blocks of at most 256 bytes in a body of n bytes. */
  function Blocks(n: nat): nat {
    (n + 255) / 256
  }

  lemma NoBlocks()
    ensures Blocks(0) == 0
  {
  }

  lemma FirstBlock(n: nat, k: nat)
    requires n > 0 && k == (if n > 256 then 256 else n)
    ensures Blocks(n) == 1 + Blocks(n - k)
  {
  }

  function Acks(k: nat): (a: bytes)
    ensures |a| == 4 * k
  {
    if k == 0 then [] else [MAGIC, ACK, 0, 0] + Acks(k - 1)
  }

  // ---- what the two ends do with a given input stream ----

  /** await_ack: two bytes are checked, two are skipped. Returns what is left of the stream. */
  function TakeAck(rx: bytes): (Status, bytes) {
    if rx == [] then (Timeout, rx)
    else if rx[0] != MAGIC then (NoAck, rx[1..])
    else if |rx| == 1 then (Timeout, [])
    else if rx[1] != ACK then (NoAck, rx[2..])
    else if |rx| < 4 then (Timeout, [])
    else (Ok, rx[4..])
  }

  datatype Sent = Sent(status: Status, out: bytes, rest: bytes)

  /** write_bytes: blocks of up to 256 bytes, each acknowledged before the next one. */
  function SendBody(payload: bytes, acked: bool, rx: bytes): Sent {
    if payload == [] then Sent(Ok, [], rx)
    else
      var n := if |payload| > 256 then 256 else |payload|;
      var (status, rest) := if acked then TakeAck(rx) else (Ok, rx);
      if status != Ok then Sent(status, payload[..n], rest)
      else
        var tail := SendBody(payload[n..], acked, rest);
        Sent(tail.status, payload[..n] + tail.out, tail.rest)
  }

  /** write_packet */
  function Send(cmd: byte, payload: bytes, rx: bytes): Sent
    requires |payload| < 0x1_0000
  {
    var h := Header(cmd, |payload|);
    var (status, rest) := if Acked(cmd) then TakeAck(rx) else (Ok, rx);
    if status != Ok then Sent(status, h, rest)
    else
      var body := SendBody(payload, Acked(cmd), rest);
      Sent(body.status, h + body.out, body.rest)
  }

  datatype Received = Received(status: Status, cmd: byte, data: bytes, acks: nat, rest: bytes)

  /** The bytes after the first magic byte; None when there is none. */
  function Synced(rx: bytes): (r: (bool, bytes))
    ensures r.0 ==> |r.1| < |rx|
    ensures !r.0 ==> r.1 == []
  {
    if rx == [] then (false, [])
    else if rx[0] == MAGIC then (true, rx[1..])
    else Synced(rx[1..])
  }

  /** The rest of a body of which len bytes are still missing: blocks, each acknowledged. */
  function ReceiveBody(len: nat, rx: bytes): Received {
    if len == 0 then Received(Ok, 0, [], 0, rx)
    else
      var n := if len < 256 then len else 256;
      if |rx| < n then Received(Timeout, 0, rx, 0, [])
      else
        var tail := ReceiveBody(len - n, rx[n..]);
        tail.(data := rx[..n] + tail.data, acks := 1 + tail.acks)
  }

  /** read_packet, with a size limit unless limit is 0. The header is acknowledged before the
      length is checked. */
  function Receive(rx: bytes, limit: nat): Received {
    var (found, r) := Synced(rx);
    if !found || r == [] then Received(Timeout, 0, [], 0, [])
    else if |r| < 3 then Received(Timeout, r[0], [], 0, [])
    else
      var len := r[1] as nat + 256 * r[2] as nat;
      if limit != 0 && len > limit then Received(BadLen, r[0], [], 1, r[3..])
      else
        var body := ReceiveBody(len, r[3..]);
        body.(cmd := r[0], acks := 1 + body.acks)
  }

  // ---- the code ----

  class Uart {
    var rx: bytes
    var tx: bytes

    constructor (input: bytes)
      ensures rx == input && tx == []
    {
      rx, tx := input, [];
    }

    /** uart_readbyte_timeout: -1 when nothing arrives in time. */
    method ReadByte() returns (b: int)
      modifies `rx
      ensures old(rx) == [] ==> b == -1 && rx == []
      ensures old(rx) != [] ==> b == old(rx)[0] as int && rx == old(rx)[1..]
    {
      if |rx| == 0 {
        return -1;
      }
      b := rx[0] as int;
      rx := rx[1..];
    }

    method WriteByte(b: byte)
      modifies `tx
      ensures tx == old(tx) + [b]
    {
      tx := tx + [b];
    }

    /** await_ack */
    method AwaitAck() returns (status: Status)
      modifies `rx
      ensures (status, rx) == TakeAck(old(rx))
    {
      var b := ReadByte();
      if b < 0 {
        return Timeout;
      }
      if b as byte != MAGIC {
        return NoAck;
      }
      b := ReadByte();
      if b < 0 {
        return Timeout;
      }
      if b as byte != ACK {
        return NoAck;
      }
      b := ReadByte();
      if b < 0 {
        return Timeout;
      }
      b := ReadByte();
      if b < 0 {
        return Timeout;
      }
      return Ok;
    }

    /** write_header */
    method WriteHeader(cmd: byte, len: nat) returns (status: Status)
      requires len < 0x1_0000
      modifies this
      ensures tx == old(tx) + Header(cmd, len)
      ensures (status, rx) == if Acked(cmd) then TakeAck(old(rx)) else (Ok, old(rx))
    {
      hide TakeAck;
      var h := Header(cmd, len);
      var i := 0;
      while i < 4
        invariant 0 <= i <= 4 && rx == old(rx) && tx == old(tx) + h[..i]
      {
        WriteByte(h[i]);
        i := i + 1;
      }
      if Acked(cmd) {
        status := AwaitAck();
      } else {
        status := Ok;
      }
    }

    /** write_bytes */
    method WriteBytes(p: bytes, shouldAck: bool) returns (status: Status)
      requires |p| < 0x1_0000
      modifies this
      ensures old(tx) <= tx && SendBody(p, shouldAck, old(rx)) == Sent(status, tx[|old(tx)|..], rx)
    {
      hide TakeAck, SendBody;
      var offset := 0;
      ghost var start, all := tx, SendBody(p, shouldAck, rx);
      assert p[offset..] == p && p[..offset] == [];
      while offset < |p|
        invariant 0 <= offset <= |p|
        invariant tx == start + p[..offset]
        invariant all == Before(p[..offset], SendBody(p[offset..], shouldAck, rx))
      {
        var block := if |p| - offset > 256 then 256 else |p| - offset;
        BlockFirst(p, offset, block, shouldAck, rx);
        WriteBlock(p[offset..offset + block]);
        assert tx == start + p[..offset + block];
        assert p[..offset + block] == p[..offset] + p[offset..offset + block];
        if shouldAck {
          status := AwaitAck();
          if status != Ok {
            return;
          }
        }
        BeforeTwice(p[..offset], p[offset..offset + block], SendBody(p[offset + block..], shouldAck, rx));
        offset := offset + block;
      }
      assert p[..offset] == p && p[offset..] == [];
      NothingLeft(shouldAck, rx);
      return Ok;
    }

    method WriteBlock(block: bytes)
      modifies `tx
      ensures tx == old(tx) + block
    {
      var i := 0;
      while i < |block|
        invariant 0 <= i <= |block| && tx == old(tx) + block[..i]
      {
        WriteByte(block[i]);
        i := i + 1;
      }
      assert block[..i] == block;
    }

    /** write_packet: for every reverse stream, exactly the bytes sent, the acknowledgement bytes
        consumed and the status of Send. */
    method WritePacket(cmd: byte, payload: bytes) returns (status: Status)
      requires |payload| < 0x1_0000
      modifies this
      ensures old(tx) <= tx && Send(cmd, payload, old(rx)) == Sent(status, tx[|old(tx)|..], rx)
    {
      hide TakeAck, Header;
      ghost var start := tx;
      status := WriteHeader(cmd, |payload|);
      assert tx[|start|..] == Header(cmd, |payload|);
      if status != Ok {
        return;
      }
      ghost var mid := tx;
      if |payload| > 0 {
        status := WriteBytes(payload, Acked(cmd));
      }
      assert tx[|mid|..] == SendBody(payload, Acked(cmd), if Acked(cmd) then TakeAck(old(rx)).1 else old(rx)).out;
      assert tx[|start|..] == mid[|start|..] + tx[|mid|..];
    }

    /** write_ack */
    method WriteAck()
      modifies this
      ensures rx == old(rx) && tx == old(tx) + Acks(1)
    {
      var status := WritePacket(ACK, []);
      assert Acks(1) == [MAGIC, ACK, 0, 0];
      assert tx == old(tx) + tx[|old(tx)|..];
    }

    /** read_packet and read_packet_timeout (timeouts differ only in when an empty FIFO is given up
        on), into a buffer of any capacity: for every input stream on which the body loop stays inside
        the buffer, the result, the buffer, the acknowledgements sent and what is left unread are those
        of Receive. The model stops at the first byte that belongs outside the buffer. */
    method ReadPacket(buf: array<byte>, limit: nat) returns (status: Status, cmd: byte, len: nat, overran: bool)
      modifies this, buf
      ensures overran <==> Overruns(old(rx), limit, buf.Length)
      ensures !overran ==>
                var r := Receive(old(rx), limit);
                && status == r.status && rx == r.rest && tx == old(tx) + Acks(r.acks)
                && (status == Ok ==> cmd == r.cmd && len == |r.data| && len <= buf.Length && buf[..len] == r.data)
    {
      hide ReceiveBody, Acks;
      NoAcks();
      cmd, len, overran := 0, 0, false;
      var found := Drain();
      if !found {
        return Timeout, cmd, len, false;
      }
      var b := ReadByte();
      if b < 0 {
        return Timeout, cmd, len, false;
      }
      cmd := b as byte;
      var lo := ReadByte();
      var hi := ReadByte();
      if lo < 0 || hi < 0 {
        return Timeout, cmd, len, false;
      }
      len := lo + 256 * hi;
      WriteAck();
      if limit != 0 && len > limit {
        return BadLen, cmd, len, false;
      }
      ghost var k := ReceiveBody(len, rx).acks;
      status, overran := ReadBody(buf, len);
      AcksJoin(1, k);
      assert old(tx) + Acks(1) + Acks(k) == old(tx) + Acks(1 + k);
    }

    /** Drop bytes until the magic byte. */
    method Drain() returns (found: bool)
      modifies `rx
      ensures (found, rx) == Synced(old(rx))
    {
      while true
        invariant Synced(rx) == Synced(old(rx))
        decreases |rx|
      {
        var b := ReadByte();
        if b < 0 {
          return false;
        }
        if b as byte == MAGIC {
          return true;
        }
      }
    }

    /** The body loop of read_packet. */
    method ReadBody(buf: array<byte>, len: nat) returns (status: Status, overran: bool)
      modifies this, buf
      ensures overran <==> len > buf.Length && |old(rx)| > buf.Length
      ensures !overran ==>
                var r := ReceiveBody(len, old(rx));
                && status == r.status && rx == r.rest && tx == old(tx) + Acks(r.acks)
                && (status == Ok ==> len <= buf.Length && buf[..len] == r.data)
    {
      hide Acks, ReceiveBody, After;
      var offset, remaining := 0, len;
      ghost var all, k := ReceiveBody(len, rx), 0;
      NoAcks();
      NothingRead(ReceiveBody(len, rx));
      assert buf[..0] == [];
      while remaining > 0
        invariant 0 <= remaining && offset + remaining == len && offset <= buf.Length && offset <= |old(rx)|
        invariant |old(rx)| == offset + |rx|
        invariant all == After(buf[..offset], k, ReceiveBody(remaining, rx))
        invariant tx == old(tx) + Acks(k)
      {
        var block := if remaining < 256 then remaining else 256;
        ghost var head, was := buf[..offset], rx;
        BodyStep(remaining, rx);
        AfterStops(head, k, Received(Timeout, 0, rx, 0, []));
        var got;
        got, overran := ReadBlock(buf, offset, block);
        if overran {
          return Timeout, true;
        }
        if !got {
          return Timeout, false;
        }
        WriteAck();
        AcksJoin(k, 1);
        assert old(tx) + Acks(k) + Acks(1) == old(tx) + Acks(k + 1);
        assert buf[..offset + block] == head + was[..block];
        AfterTwice(head, k, was[..block], ReceiveBody(remaining - block, was[block..]));
        offset := offset + block;
        remaining := remaining - block;
        k := k + 1;
      }
      BodyStep(0, rx);
      AfterStops(buf[..offset], k, ReceiveBody(0, rx));
      return Ok, false;
    }

    method ReadBlock(buf: array<byte>, offset: nat, block: nat) returns (got: bool, overran: bool)
      requires offset <= buf.Length
      modifies `rx, buf
      ensures overran <==> offset + block > buf.Length && |old(rx)| > buf.Length - offset
      ensures overran ==> buf[..] == old(buf[..offset]) + old(rx)[..buf.Length - offset]
      ensures !overran ==> (got <==> block <= |old(rx)|) && (!got ==> rx == [])
      ensures !overran && got ==>
                && offset + block <= buf.Length
                && rx == old(rx)[block..] && buf[..offset + block] == old(buf[..offset]) + old(rx)[..block]
    {
      var i := 0;
      while i < block
        invariant 0 <= i <= block && i <= |old(rx)| && offset + i <= buf.Length
        invariant rx == old(rx)[i..]
        invariant buf[..offset + i] == old(buf[..offset]) + old(rx)[..i]
      {
        var b := ReadByte();
        if b < 0 {
          return false, false;
        }
        if offset + i == buf.Length {
          return false, true;
        }
        buf[offset + i] := b as byte;
        i := i + 1;
      }
      return true, false;
    }
  }

  /** The body loop of read_packet leaves a buffer of this capacity: the length is not checked
      against a limit that fits, it exceeds the capacity, and more bytes than that arrive. */
  predicate Overruns(rx: bytes, limit: nat, capacity: nat) {
    var (found, r) := Synced(rx);
    && found && |r| >= 3
    && var len := r[1] as nat + 256 * r[2] as nat;
    (limit == 0 || len <= limit) && len > capacity && |r| - 3 > capacity
  }

  /** A caller that passes its capacity as the limit, or has room for any length, is safe on every
      stream; no other caller is. */
  lemma SafeLimit(limit: nat, capacity: nat)
    ensures (forall rx :: !Overruns(rx, limit, capacity)) <==> capacity >= 0xFFFF || 0 < limit <= capacity
  {
    if capacity < 0xFFFF && (limit == 0 || limit > capacity) {
      var len := capacity + 1;
      var rx := Header(0, len) + Fill(0, len);
      assert Synced(rx) == (true, rx[1..]);
      assert rx[1..][1] == (len % 256) as byte && rx[1..][2] == (len / 256) as byte;
      assert Overruns(rx, limit, capacity);
    }
  }

  function Before(p: bytes, tail: Sent): Sent {
    tail.(out := p + tail.out)
  }

  lemma BeforeTwice(p: bytes, q: bytes, tail: Sent)
    ensures Before(p, Before(q, tail)) == Before(p + q, tail)
  {
    assert p + (q + tail.out) == (p + q) + tail.out;
  }

  lemma BlockFirst(p: bytes, offset: nat, n: nat, acked: bool, rx: bytes)
    requires offset < |p| && n == if |p| - offset > 256 then 256 else |p| - offset
    ensures var (status, rest), block := if acked then TakeAck(rx) else (Ok, rx), p[offset..offset + n];
            SendBody(p[offset..], acked, rx)
            == if status != Ok then Sent(status, block, rest) else Before(block, SendBody(p[offset + n..], acked, rest))
  {
    hide TakeAck;
    var rest := p[offset..];
    assert rest[..n] == p[offset..offset + n] && rest[n..] == p[offset + n..];
  }

  lemma NothingLeft(acked: bool, rx: bytes)
    ensures SendBody([], acked, rx) == Sent(Ok, [], rx)
  {
  }

  function After(p: bytes, k: nat, tail: Received): Received {
    tail.(data := p + tail.data, acks := k + tail.acks)
  }

  lemma NothingRead(tail: Received)
    ensures After([], 0, tail) == tail
  {
    assert [] + tail.data == tail.data;
  }

  lemma AfterStops(p: bytes, k: nat, tail: Received)
    ensures var r := After(p, k, tail);
            r.status == tail.status && r.rest == tail.rest && r.acks == k + tail.acks && r.data == p + tail.data
  {
  }

  /** One pass of the body loop. */
  lemma BodyStep(len: nat, rx: bytes)
    ensures var n := if len < 256 then len else 256;
            ReceiveBody(len, rx)
            == if len == 0 then Received(Ok, 0, [], 0, rx)
               else if |rx| < n then Received(Timeout, 0, rx, 0, [])
               else After(rx[..n], 1, ReceiveBody(len - n, rx[n..]))
  {
  }

  lemma AfterTwice(p: bytes, k: nat, q: bytes, tail: Received)
    ensures After(p, k, After(q, 1, tail)) == After(p + q, k + 1, tail)
  {
    assert p + (q + tail.data) == (p + q) + tail.data;
  }

  lemma NoAcks()
    ensures Acks(0) == []
  {
  }

  lemma {:induction false} AcksJoin(j: nat, k: nat)
    ensures Acks(j) + Acks(k) == Acks(j + k)
  {
    if j > 0 {
      AcksJoin(j - 1, k);
      Regroup([MAGIC, ACK, 0, 0], Acks(j - 1), Acks(k));
    } else {
      assert [] + Acks(k) == Acks(k);
    }
  }

  lemma Regroup(a: bytes, b: bytes, c: bytes)
    ensures (a + b) + c == a + (b + c)
  {
  }

  // ---- both ends together ----

  lemma TakeGoodAck(rest: bytes)
    ensures TakeAck(Acks(1) + rest) == (Ok, rest)
  {
    assert Acks(1) == [MAGIC, ACK, 0, 0];
  }

  lemma OneAckFirst(k: nat, rest: bytes)
    ensures Acks(1 + k) + rest == Acks(1) + (Acks(k) + rest)
  {
    hide Acks;
    AcksJoin(1, k);
    Regroup(Acks(1), Acks(k), rest);
  }

  lemma {:induction false} SendBodyOk(payload: bytes, acked: bool, rest: bytes)
    ensures SendBody(payload, acked, if acked then Acks(Blocks(|payload|)) + rest else rest) == Sent(Ok, payload, rest)
  {
    hide TakeAck, Acks, Blocks;
    NoBlocks();
    if payload == [] {
      NoAcks();
      assert [] + rest == rest;
    } else {
      var n := if |payload| > 256 then 256 else |payload|;
      var k := Blocks(|payload| - n);
      FirstBlock(|payload|, n);
      OneAckFirst(k, rest);
      TakeGoodAck(Acks(k) + rest);
      SendBodyOk(payload[n..], acked, rest);
      assert payload[..n] + payload[n..] == payload;
    }
  }

  /** Given the acknowledgements due, write_packet sends exactly the frame and consumes exactly them;
      for the three unacknowledged types it consumes nothing. */
  lemma SendFrame(cmd: byte, payload: bytes, rest: bytes)
    requires |payload| < 0x1_0000
    ensures Send(cmd, payload, if Acked(cmd) then Acks(AckCount(|payload|)) + rest else rest)
         == Sent(Ok, Frame(cmd, payload), rest)
  {
    hide TakeAck, Acks, Header;
    var k := Blocks(|payload|);
    OneAckFirst(k, rest);
    TakeGoodAck(Acks(k) + rest);
    SendBodyOk(payload, Acked(cmd), rest);
  }

  /** A write with nobody at the other end succeeds exactly for the types 'A', 'D' and 'E', and for
      those it consumes nothing, whatever is on the reverse line. */
  lemma Unacknowledged(cmd: byte, payload: bytes, rx: bytes)
    requires |payload| < 0x1_0000
    ensures Send(cmd, payload, []).status == Ok <==> cmd in {0x41, 0x44, 0x45}
    ensures cmd in {0x41, 0x44, 0x45} ==> Send(cmd, payload, rx) == Sent(Ok, Frame(cmd, payload), rx)
  {
    hide SendBody, Frame;
    if cmd in {0x41, 0x44, 0x45} {
      SendFrame(cmd, payload, []);
      SendFrame(cmd, payload, rx);
    }
  }

  lemma {:induction false} ReceiveBodyOk(payload: bytes, rest: bytes)
    ensures ReceiveBody(|payload|, payload + rest) == Received(Ok, 0, payload, Blocks(|payload|), rest)
  {
    hide Blocks;
    NoBlocks();
    if payload == [] {
      assert payload + rest == rest;
    } else {
      var n := if |payload| < 256 then |payload| else 256;
      assert (payload + rest)[..n] == payload[..n] && (payload + rest)[n..] == payload[n..] + rest;
      ReceiveBodyOk(payload[n..], rest);
      assert payload[..n] + payload[n..] == payload;
      FirstBlock(|payload|, n);
    }
  }

  lemma {:induction false} SyncedAfter(junk: bytes, r: bytes)
    requires MAGIC !in junk
    ensures Synced(junk + [MAGIC] + r) == (true, r)
  {
    if junk == [] {
      assert [] + [MAGIC] + r == [MAGIC] + r;
    } else {
      assert junk + [MAGIC] + r == [junk[0]] + (junk[1..] + [MAGIC] + r);
      SyncedAfter(junk[1..], r);
    }
  }

  /** Round trip: after any bytes without the magic byte, a frame is received as it was sent,
      whatever bytes its payload contains, unless it exceeds the limit. */
  lemma ReceiveFrame(junk: bytes, cmd: byte, payload: bytes, rest: bytes, limit: nat)
    requires MAGIC !in junk && |payload| < 0x1_0000
    ensures Receive(junk + Frame(cmd, payload) + rest, limit)
         == if limit == 0 || |payload| <= limit then Received(Ok, cmd, payload, AckCount(|payload|), rest)
            else Received(BadLen, cmd, [], 1, payload + rest)
  {
    hide Synced, ReceiveBody;
    var lo, hi := (|payload| % 256) as byte, (|payload| / 256) as byte;
    var r := [cmd, lo, hi] + (payload + rest);
    assert junk + Frame(cmd, payload) + rest == junk + [MAGIC] + r;
    SyncedAfter(junk, r);
    assert r[3..] == payload + rest;
    ReceiveBodyOk(payload, rest);
  }

  // ---- acknowledgement accounting, for every stream ----

  lemma {:induction false} BodyAcks(len: nat, rx: bytes)
    ensures var r := ReceiveBody(len, rx);
            r.status == Ok ==> |r.data| == len && r.acks == Blocks(len) && |r.rest| + len == |rx|
    decreases len
  {
    hide Blocks;
    NoBlocks();
    if len > 0 {
      var n := if len < 256 then len else 256;
      if |rx| >= n {
        BodyAcks(len - n, rx[n..]);
        FirstBlock(len, n);
      }
    }
  }

  lemma {:induction false} BodyConsumed(payload: bytes, acked: bool, rx: bytes)
    ensures var s := SendBody(payload, acked, rx);
            s.status == Ok ==> s.out == payload && |rx| == |s.rest| + (if acked then 4 * Blocks(|payload|) else 0)
  {
    hide Blocks;
    NoBlocks();
    if payload != [] {
      var n := if |payload| > 256 then 256 else |payload|;
      var (status, rest) := if acked then TakeAck(rx) else (Ok, rx);
      if status == Ok {
        BodyConsumed(payload[n..], acked, rest);
        assert payload[..n] + payload[n..] == payload;
        FirstBlock(|payload|, n);
      }
    }
  }

  /** A complete read_packet of n bytes sends exactly AckCount(n) acknowledgements; a write_packet
      that succeeds has consumed exactly as many, or none for an unacknowledged type. */
  lemma AckConservation(rx: bytes, limit: nat, cmd: byte, payload: bytes, reverse: bytes)
    requires |payload| < 0x1_0000
    ensures var r := Receive(rx, limit); r.status == Ok ==> r.acks == AckCount(|r.data|)
    ensures var s := Send(cmd, payload, reverse);
            s.status == Ok ==> |reverse| - |s.rest| == if Acked(cmd) then 4 * AckCount(|payload|) else 0
  {
    var (found, r) := Synced(rx);
    if found && |r| >= 3 {
      BodyAcks(r[1] as nat + 256 * r[2] as nat, r[3..]);
    }
    BodyConsumed(payload, Acked(cmd), if Acked(cmd) then TakeAck(reverse).1 else reverse);
  }

  datatype Packet = Packet(cmd: byte, payload: bytes)

  /** Acknowledgements left over by a run of packets: those nobody waited for. */
  function Surplus(run: seq<Packet>): nat {
    if run == [] then 0
    else Surplus(run[..|run| - 1]) + (if Acked(run[|run| - 1].cmd) then 0 else AckCount(|run[|run| - 1].payload|))
  }

  /** The reverse channel after a run of packets, each written by one side and read by the other;
      None when a write or a read failed. */
  function Residue(run: seq<Packet>): Option<bytes>
    requires forall i :: 0 <= i < |run| ==> |run[i].payload| < 0x1_0000
  {
    if run == [] then Some([])
    else
      var p := run[|run| - 1];
      match Residue(run[..|run| - 1])
      case None => None
      case Some(reverse) =>
        var got := Receive(Frame(p.cmd, p.payload), 0);
        var sent := Send(p.cmd, p.payload, reverse + Acks(got.acks));
        if got.status == Ok && sent.status == Ok && got.data == p.payload then Some(sent.rest) else None
  }

  /** After any run of packets of any types and lengths, the reverse channel holds exactly the
      acknowledgements of the unacknowledged packets. */
  lemma {:induction false} RunResidue(run: seq<Packet>)
    requires forall i :: 0 <= i < |run| ==> |run[i].payload| < 0x1_0000
    ensures Residue(run) == Some(Acks(Surplus(run)))
    decreases |run|
  {
    hide Send, Receive, Acks, Frame;
    if run == [] {
      NoAcks();
    } else {
      var p, k := run[|run| - 1], Surplus(run[..|run| - 1]);
      RunResidue(run[..|run| - 1]);
      var n := AckCount(|p.payload|);
      assert [] + Frame(p.cmd, p.payload) + [] == Frame(p.cmd, p.payload);
      ReceiveFrame([], p.cmd, p.payload, [], 0);
      AcksJoin(k, n);
      AcksJoin(n, k);
      SendFrame(p.cmd, p.payload, if Acked(p.cmd) then Acks(k) else Acks(k + n));
    }
  }

  /** Nothing is left over exactly when every packet was of an acknowledged type. */
  lemma {:induction false} NoSurplus(run: seq<Packet>)
    ensures Surplus(run) == 0 <==> forall i :: 0 <= i < |run| ==> Acked(run[i].cmd)
    decreases |run|
  {
    if run != [] {
      NoSurplus(run[..|run| - 1]);
    }
  }

  /** A stale acknowledgement is itself a frame, and is read as one. */
  lemma StaleAck(k: nat, rest: bytes, limit: nat)
    ensures Receive(Acks(k + 1) + rest, limit) == Received(Ok, ACK, [], 1, Acks(k) + rest)
  {
    hide Receive;
    assert Frame(ACK, []) == [MAGIC, ACK, 0, 0];
    assert Acks(k + 1) + rest == [] + Frame(ACK, []) + (Acks(k) + rest);
    ReceiveFrame([], ACK, [], Acks(k) + rest, limit);
  }

  /** After a run of packets, the next frame on the reverse channel is what the next read of it
      returns if and only if none of the packets was of an unacknowledged type; otherwise that read
      takes a left-over acknowledgement for the packet. */
  lemma NextReadAfterRun(run: seq<Packet>, cmd: byte, payload: bytes, rest: bytes, limit: nat)
    requires forall i :: 0 <= i < |run| ==> |run[i].payload| < 0x1_0000
    requires |payload| < 0x1_0000 && (limit == 0 || |payload| <= limit)
    ensures Residue(run).Some?
    ensures var got := Receive(Residue(run).value + Frame(cmd, payload) + rest, limit);
            && (got == Received(Ok, cmd, payload, AckCount(|payload|), rest) <==> forall i :: 0 <= i < |run| ==> Acked(run[i].cmd))
            && ((exists i :: 0 <= i < |run| && !Acked(run[i].cmd)) ==> got.status == Ok && got.cmd == ACK && got.data == [])
  {
    hide Receive, Frame, Acks, Residue, Surplus;
    RunResidue(run);
    NoSurplus(run);
    var n := Surplus(run);
    var next := Frame(cmd, payload) + rest;
    assert Acks(n) + Frame(cmd, payload) + rest == Acks(n) + next;
    if n == 0 {
      NoAcks();
      assert Acks(n) + Frame(cmd, payload) + rest == [] + Frame(cmd, payload) + rest;
      ReceiveFrame([], cmd, payload, rest, limit);
    } else {
      StaleAck(n - 1, next, limit);
      FrameSize(cmd, payload);
    }
  }

  lemma FrameSize(cmd: byte, payload: bytes)
    requires |payload| < 0x1_0000
    ensures |Frame(cmd, payload)| == 4 + |payload|
  {
  }
}
