/**
 PtpRuntime as src/lib.c, src/transport.c and src/packet.c change it: one connection, its
 growing buffer, its transaction number, its kill switch and its lock.
 */
module Runtime {
  import opened Octets
  import opened Packets
  import opened Transport
  import opened IpTransport
  import opened Transactions

  const DEFAULT_SIZE := 1_000_000
  const EXTRA := 100

  /** The device at the other end. */
  class Endpoint {
    var link: Link
    /** All bytes accepted so far, and the longest write ever tried. */
    ghost var wire: bytes
    ghost var widest: nat

    constructor (link: Link)
      ensures this.link == link && wire == [] && widest == 0
    {
      this.link := link;
      wire := [];
      widest := 0;
    }

    /** ptp_cmd_read, ptpip_cmd_read */
    method Read(max: nat) returns (rc: int, chunk: bytes)
      requires link.tail <= 0
      modifies this`link
      ensures rc == ReadSize(old(link), max) && link == AfterRead(old(link), max)
      ensures chunk == old(link).incoming[..Count(rc)]
    {
      rc := ReadSize(link, max);
      chunk := link.incoming[..Count(rc)];
      link := AfterRead(link, max);
    }

    /** ptp_cmd_write, ptpip_cmd_write */
    method Write(p: bytes) returns (rc: int)
      modifies this
      ensures widest == if old(widest) > |p| then old(widest) else |p|
      ensures link == old(link).(outputs := link.outputs)
      ensures old(link).outputs == [] ==> rc < 0 && link == old(link)
      ensures old(link).outputs != [] ==>
        link.outputs == old(link).outputs[1..] && rc == Min(old(link).outputs[0], |p|)
      ensures rc <= |p| && wire == old(wire) + p[..Count(rc)]
    {
      widest := if widest > |p| then widest else |p|;
      if link.outputs == [] {
        rc := -1;
      } else {
        rc := Min(link.outputs[0], |p|);
        link := link.(outputs := link.outputs[1..]);
      }
      wire := wire + p[..Count(rc)];
    }
  }

  datatype ConnectionType = PtpIp | PtpIpUsb | PtpUsb

  class PtpRuntime {
    const endpoint: Endpoint
    const connection: ConnectionType
    const maxPacketSize: nat
    const responseWaitDefault: nat

    var operationKillSwitch: bool
    var transaction: nat
    var session: nat
    var data: array<byte>
    var dataPhaseLength: nat
    var waitForResponse: nat
    /** How often the calling thread holds the recursive mutex. */
    var locks: nat

    ghost predicate Valid()
      reads this, endpoint
    {
      && data.Length >= DEFAULT_SIZE && maxPacketSize >= 1 && responseWaitDefault >= 1
      && endpoint.link.tail <= 0
    }

    ghost function Cfg(): Config {
      Config(maxPacketSize, responseWaitDefault)
    }

    ghost function Now(): (s: State)
      reads this, endpoint
      requires Valid()
      ensures ValidState(s)
    {
      State(operationKillSwitch, transaction, session, endpoint.link)
    }

    /** ptp_new, and a backend that has connected to the endpoint. */
    constructor (endpoint: Endpoint, connection: ConnectionType, maxPacketSize: nat, patience: nat)
      requires maxPacketSize >= 1 && patience >= 1 && endpoint.link.tail <= 0
      ensures Valid() && fresh(data) && this.endpoint == endpoint && this.connection == connection
      ensures Cfg() == Config(maxPacketSize, patience)
      ensures Now() == State(false, 0, 0, endpoint.link) && locks == 0
    {
      this.endpoint := endpoint;
      this.connection := connection;
      this.maxPacketSize := maxPacketSize;
      responseWaitDefault := patience;
      operationKillSwitch := false;
      transaction, session, dataPhaseLength, waitForResponse, locks := 0, 0, 0, patience, 0;
      data := new byte[DEFAULT_SIZE];
    }

    /** ptp_buffer_resize; asking for less than there is would be its panic. */
    method BufferResize(size: nat)
      requires size >= data.Length
      modifies this`data
      ensures fresh(data) && data.Length == size + 100
      ensures data[..old(data.Length)] == old(data[..])
    {
      var bigger := new byte[size + EXTRA](i requires 0 <= i reads this, data => if i < data.Length then data[i] else 0);
      data := bigger;
    }

    // ----- Sending -----

    /** One round of ptp_send_packet. */
    method WriteSome(ghost p: bytes, sent: nat, length: nat) returns (rc: int)
      requires Valid() && sent < length <= data.Length && p == data[..length]
      modifies endpoint
      ensures Valid() && rc <= length - sent
      ensures endpoint.widest <= Larger(old(endpoint.widest), maxPacketSize)
      ensures var before := Behind(old(endpoint.wire), Transmit(old(endpoint.link), p[sent..], maxPacketSize));
        if rc < 0 then before == Sent(false, endpoint.wire, endpoint.link)
        else if rc == length - sent then before == Sent(true, endpoint.wire, endpoint.link)
        else before == Behind(endpoint.wire, Transmit(endpoint.link, p[sent + rc..], maxPacketSize))
      ensures rc >= 0 ==> |endpoint.link.outputs| < old(|endpoint.link.outputs|)
    {
      var max := Min(length - sent, maxPacketSize);
      var chunk := data[sent..sent + max];
      PrefixSlice(data[..], length, sent, sent + max);
      assert chunk == data[..][sent..sent + max] && data[..][..length] == data[..length];
      ShortWrite(endpoint.link, p[sent..], endpoint.wire, maxPacketSize);
      rc := endpoint.Write(chunk);
      if rc >= 0 {
        Cuts(p, sent, max, rc);
      }
      assert endpoint.wire == old(endpoint.wire) + chunk[..Count(rc)];
    }

    /** ptp_send_packet: a negative code, or all of the packet in writes of bounded size. */
    method SendPacket(length: nat) returns (rc: int)
      requires Valid() && 0 < length <= data.Length && !connection.PtpIp?
      modifies endpoint
      ensures var s := Behind(old(endpoint.wire), Transmit(old(endpoint.link), data[..length], maxPacketSize));
        s == Sent(rc == length, endpoint.wire, endpoint.link) && (rc == length || rc == IO_ERR)
      ensures Valid() && endpoint.widest <= Larger(old(endpoint.widest), maxPacketSize)
    {
      ghost var p := data[..length];
      ghost var s := Behind(endpoint.wire, Transmit(endpoint.link, p, maxPacketSize));
      var sent := 0;
      assert p[0..] == p;
      while true
        invariant 0 <= sent < length && Valid()
        invariant endpoint.widest <= Larger(old(endpoint.widest), maxPacketSize)
        invariant Behind(endpoint.wire, Transmit(endpoint.link, p[sent..], maxPacketSize)) == s
        decreases |endpoint.link.outputs|
      {
        rc := WriteSome(p, sent, length);
        if rc < 0 {
          return IO_ERR;
        }
        sent := sent + rc;
        if sent == length {
          return sent;
        }
      }
    }
  
    // ----- Receiving -----

    /** The tests on the containers after a read of ptpusb_read_all_packets. */
    method Inspect(read: nat) returns (status: Status)
      requires read <= data.Length
      ensures status == StatusOf(data[..read])
    {
      if read < 12 {
        return NeedMore;
      }
      ghost var b, junk := data[..read], data[read..];
      assert data[..] == b + junk;
      FieldsOfPrefix(b, junk, 0);
      FieldsOfPrefix(b, junk, 4);
      var length, kind := U32At(data[..], 0), U16At(data[..], 4);
      if read < length {
        return NeedMore;
      }
      if kind == PACKET_TYPE_RESPONSE {
        return Complete;
      }
      if kind != PACKET_TYPE_DATA || length + 12 > read {
        return NeedMore;
      }
      FieldsOfPrefix(b, junk, length);
      FieldsOfPrefix(b, junk, length + 4);
      var dataLength := U32At(data[..], length);
      if U16At(data[..], length + 4) != PACKET_TYPE_RESPONSE {
        return Bad;
      }
      var total := (dataLength + length) % 0x1_0000_0000;
      status := if read == total then Complete else if read > total then Bad else NeedMore;
    }

    /** Room for another read: the buffer only grows, and what has been read survives. */
    method EnsureRoom(read: nat)
      requires Valid() && read <= data.Length
      modifies this`data
      ensures Valid() && data.Length >= read + maxPacketSize && data.Length >= old(data.Length)
      ensures data[..read] == old(data[..read])
      ensures data == old(data) || fresh(data)
    {
      if data.Length < read + maxPacketSize {
        ghost var before := data[..];
        BufferResize(read + maxPacketSize);
        assert data[..read] == before[..read];
      }
    }

    /** One read to the place behind the bytes u. */
    method ReadBehind(at: nat, max: nat, ghost u: bytes) returns (rc: int, ghost chunk: bytes)
      requires Valid() && at == |u| && at + max <= data.Length && data[..at] == u
      modifies data, endpoint`link
      ensures Valid() && rc == ReadSize(old(endpoint.link), max) && endpoint.link == AfterRead(old(endpoint.link), max)
      ensures chunk == old(endpoint.link).incoming[..Count(rc)] && data[..at + |chunk|] == u + chunk
      ensures rc <= 0 ==> data[..at] == u
    {
      var got;
      rc, got := endpoint.Read(max);
      StoreNext(at, got);
      chunk := got;
      assert u + [] == u;
    }

    /** A read of ptpusb_read_all_packets, with room for it made first. */
    method ReadSome(read: nat, ghost got: bytes) returns (rc: int)
      requires Valid() && read == |got| <= data.Length && data[..read] == got
      modifies this`data, data, endpoint`link
      ensures Valid() && data.Length >= old(data.Length) && (data == old(data) || fresh(data))
      ensures rc == ReadSize(old(endpoint.link), maxPacketSize)
      ensures endpoint.link == AfterRead(old(endpoint.link), maxPacketSize)
      ensures read + Count(rc) <= data.Length
      ensures data[..read + Count(rc)] == got + old(endpoint.link).incoming[..Count(rc)]
    {
      EnsureRoom(read);
      ghost var chunk;
      rc, chunk := ReadBehind(read, maxPacketSize, got);
    }

    /** One round of the loop of ptpusb_read_all_packets; `more` says that it goes on. */
    method ReadRound(read: nat, attempts: nat, ghost got: bytes)
      returns (more: bool, rc: int, read': nat, attempts': nat, ghost got': bytes)
      requires Valid() && read == |got| <= data.Length && data[..read] == got && waitForResponse + attempts >= 1
      modifies this`data, this`waitForResponse, data, endpoint`link
      ensures Valid() && data.Length >= old(data.Length) && (data == old(data) || fresh(data))
      ensures read' == |got'| <= data.Length && data[..read'] == got' && waitForResponse + attempts' >= 1
      ensures var r := Receive(got, old(endpoint.link), maxPacketSize, old(waitForResponse), attempts);
        if more then r == Receive(got', endpoint.link, maxPacketSize, waitForResponse, attempts')
        else r == Received(rc, got', endpoint.link)
      ensures more ==> |endpoint.link.incoming| + waitForResponse < old(|endpoint.link.incoming| + waitForResponse)
    {
      ReceiveStep(got, endpoint.link, maxPacketSize, waitForResponse, attempts);
      read', attempts', got' := read, attempts, got;
      ghost var link := endpoint.link;
      rc := ReadSome(read, got);
      if rc <= 0 && waitForResponse > 0 {
        waitForResponse := waitForResponse - 1;
        attempts' := attempts + 1;
        more := true;
        return;
      }
      more := false;
      if rc < 0 {
        rc := IO_ERR;
        return;
      }
      read' := read + rc;
      got' := got + link.incoming[..rc];
      if waitForResponse == 0 && attempts > 0 {
        rc := COMMAND_IGNORED;
        return;
      }
      var status := Inspect(read');
      more := status.NeedMore?;
      rc := if status.Complete? then OK else IO_ERR;
    }

    /** ptpusb_read_all_packets */
    method ReadAllPackets() returns (rc: int, ghost got: bytes)
      requires Valid() && !connection.PtpIp?
      modifies this`data, this`waitForResponse, data, endpoint`link
      ensures Valid() && data.Length >= old(data.Length) && (data == old(data) || fresh(data))
      ensures Received(rc, got, endpoint.link) == Receive([], old(endpoint.link), maxPacketSize, responseWaitDefault, 0)
      ensures |got| <= data.Length && data[..|got|] == got
    {
      ghost var r := Receive([], endpoint.link, maxPacketSize, responseWaitDefault, 0);
      waitForResponse := responseWaitDefault;
      var read, readAttempts, more := 0, 0, true;
      got := [];
      rc := OK;
      while more
        invariant Valid() && data.Length >= old(data.Length) && (data == old(data) || fresh(data))
        invariant read == |got| <= data.Length && data[..read] == got && waitForResponse + readAttempts >= 1
        invariant more ==> Receive(got, endpoint.link, maxPacketSize, waitForResponse, readAttempts) == r
        invariant !more ==> Received(rc, got, endpoint.link) == r
        decreases more, |endpoint.link.incoming| + waitForResponse
      {
        more, rc, read, readAttempts, got := ReadRound(read, readAttempts, got);
      }
    }

    method StoreNext(read: nat, chunk: bytes)
      requires read + |chunk| <= data.Length
      modifies data
      ensures data[..read + |chunk|] == old(data[..read]) + chunk
    {
      Store(data, read, chunk);
      assert data[..read + |chunk|] == data[..read] + data[read..read + |chunk|];
    }
  
    // ----- Building packets -----

    /**
     The header fields of a container, each written as 32 bits: the type and the code are 16
     bits wide, and each write clears what the next one fills in.
     */
    method PutHeader(bulk: array<byte>, size: u32, kind: u16, code: u16)
      requires bulk.Length == 32 && bulk != data
      modifies bulk
      ensures bulk[..12] == WriteU32(size) + WriteU16(kind) + WriteU16(code) + WriteU32(Word(transaction))
    {
      PutU32(bulk, 0, size);
      PutU32(bulk, 4, kind);
      ghost var b := bulk[..];
      assert b[0..4] == WriteU32(size) && b[4..8] == WriteU32(kind);
      PutU32(bulk, 6, code);
      assert bulk[..6] == b[..6];
      ghost var c := bulk[..];
      assert c[6..10] == WriteU32(code);
      PutU32(bulk, 8, Word(transaction));
      assert bulk[..8] == c[..8];
      Overlapping(b, c, bulk[..], size, kind, code, Word(transaction));
    }

    method PutParams(bulk: array<byte>, params: seq<u32>)
      requires bulk.Length == 32 && |params| <= 5
      modifies bulk
      ensures bulk[..12 + 4 * |params|] == old(bulk[..12]) + Params(params)
    {
      ghost var header := bulk[..12];
      for i := 0 to |params|
        invariant bulk[..12 + 4 * i] == header + Params(params[..i])
      {
        PutU32(bulk, 12 + 4 * i, params[i]);
        NextParam(header, params, i);
        assert bulk[..12 + 4 * i + 4] == bulk[..12 + 4 * i] + bulk[12 + 4 * i..12 + 4 * i + 4];
      }
      assert params[..|params|] == params;
    }

    /** ptp_send_data makes room for the data packet before it sends anything. */
    method MakeRoom(length: nat)
      requires Valid()
      modifies this`data
      ensures Valid() && length + 50 <= data.Length && data.Length >= old(data.Length)
      ensures data == old(data) || fresh(data)
    {
      if length + 50 > data.Length {
        BufferResize(100 + length);
      }
    }

    /** ptpusb_new_cmd_packet */
    method NewCmdPacket(cmd: Command) returns (length: nat)
      requires Valid() && ValidCommand(cmd)
      modifies data
      ensures 0 < length <= data.Length && data[..length] == CommandPacket(cmd, Word(transaction))
    {
      length := 12 + 4 * |cmd.params|;
      var bulk := new byte[32];
      PutHeader(bulk, length, PACKET_TYPE_COMMAND, cmd.code);
      PutParams(bulk, cmd.params);
      Store(data, 0, bulk[..length]);
      assert data[..length] == data[0..length];
    }

    /** ptpusb_new_data_packet; the caller has made room for it. */
    method NewDataPacket(cmd: Command, payload: bytes) returns (length: nat)
      requires Valid() && 12 + |payload| < 0x1_0000_0000 && 12 + |payload| <= data.Length
      modifies data
      ensures 0 < length <= data.Length && data[..length] == DataPacket(cmd, Word(transaction), payload)
    {
      length := 12 + |payload|;
      var bulk := new byte[32];
      PutHeader(bulk, length, PACKET_TYPE_DATA, cmd.code);
      Store(data, 0, bulk[..12]);
      assert data[..12] == data[0..12];
      Store(data, 12, payload);
      assert data[..length] == data[..12] + data[12..length];
    }
  
    // ----- Transactions -----

    /** ptp_send_try */
    method SendTry(cmd: Command) returns (rc: int, ghost a: Attempt)
      requires Valid() && ValidCommand(cmd) && !connection.PtpIp?
      modifies this`data, this`waitForResponse, data, endpoint
      ensures Valid() && data.Length >= old(data.Length) && (data == old(data) || fresh(data))
      ensures a == Try(old(endpoint.link), [CommandPacket(cmd, Word(transaction))], Cfg())
      ensures rc == a.code && endpoint.link == a.link && endpoint.wire == old(endpoint.wire) + a.sent
      ensures |a.reply| <= data.Length && data[..|a.reply|] == a.reply
      ensures endpoint.widest <= Larger(old(endpoint.widest), maxPacketSize)
    {
      var length := NewCmdPacket(cmd);
      ghost var p := data[..length];
      OnePacket(endpoint.link, p, maxPacketSize);
      a := Try(endpoint.link, [p], Cfg());
      rc := SendPacket(length);
      if rc != length {
        return IO_ERR, a;
      }
      ghost var got;
      rc, got := ReadAllPackets();
    }

    /** ptp_send_data_try */
    method SendDataTry(cmd: Command, payload: bytes) returns (rc: int, ghost a: Attempt)
      requires Valid() && ValidCommand(cmd) && !connection.PtpIp?
      requires |payload| < 0x7FFF_FF00 && 50 + |payload| <= data.Length
      modifies this`data, this`waitForResponse, data, endpoint
      ensures Valid() && data.Length >= old(data.Length) && (data == old(data) || fresh(data))
      ensures a == Try(old(endpoint.link), [CommandPacket(cmd, Word(transaction)), DataPacket(cmd, Word(transaction), payload)], Cfg())
      ensures rc == a.code && endpoint.link == a.link && endpoint.wire == old(endpoint.wire) + a.sent
      ensures |a.reply| <= data.Length && data[..|a.reply|] == a.reply
      ensures endpoint.widest <= Larger(old(endpoint.widest), maxPacketSize)
    {
      var length := NewCmdPacket(cmd);
      ghost var p, q := data[..length], DataPacket(cmd, Word(transaction), payload);
      TwoPackets(endpoint.link, p, q, maxPacketSize, endpoint.wire);
      a := Try(endpoint.link, [p, q], Cfg());
      rc := SendPacket(length);
      if rc != length {
        return IO_ERR, a;
      }
      length := NewDataPacket(cmd, payload);
      rc := SendPacket(length);
      if rc != length {
        return IO_ERR, a;
      }
      ghost var got;
      rc, got := ReadAllPackets();
    }

    /** ptp_check_rc, with the reply at the start of the buffer. */
    method CheckReply(ghost reply: bytes) returns (rc: int)
      requires StatusOf(reply) == Complete && |reply| <= data.Length && data[..|reply|] == reply
      ensures rc == ReplyCode(reply)
    {
      CompleteInBounds(reply);
      var at := 0;
      assert data[..] == reply + data[|reply|..];
      FieldsOfPrefix(reply, data[|reply|..], 4);
      FieldsOfPrefix(reply, data[|reply|..], 0);
      FieldsOfPrefix(reply, data[|reply|..], ResponseOffset(reply) + 6);
      var code := ReturnCode(data[..]);
      if code == 0xFFFF {
        return IO_ERR;
      }
      if code != RC_OK {
        return CHECK_CODE;
      }
      return OK;
    }

    /** How ptp_send and ptp_send_data end: with the next transaction number or the kill switch. */
    method Conclude(code: int, ghost s: State, ghost sent: seq<bytes>, ghost a: Attempt) returns (rc: int, ghost r: Report)
      requires Valid() && locks >= 1 && code == a.code && Now() == s.(link := a.link)
      requires |a.reply| <= data.Length && data[..|a.reply|] == a.reply
      requires code == OK ==> StatusOf(a.reply) == Complete
      modifies this`transaction, this`locks, this`operationKillSwitch
      ensures Valid() && locks == old(locks) - 1 && rc == r.rc
      ensures (Now(), r) == Concluded(s, sent, a)
    {
      if code != OK {
        operationKillSwitch := true;
        locks := locks - 1;
        return IO_ERR, Report(sent, false, a.reply, IO_ERR);
      }
      transaction := transaction + 1;
      rc := CheckReply(a.reply);
      r := Report(sent, true, a.reply, rc);
      locks := locks - 1;
    }

    /**
     ptp_send. It is exactly one call of the specification; the lock is given back on every
     path, and after a completed exchange the reply is at the start of the buffer.
     */
    method Send(cmd: Command) returns (rc: int, ghost r: Report)
      requires Valid() && ValidCommand(cmd) && !connection.PtpIp?
      modifies this, data, endpoint
      ensures Valid() && data.Length >= old(data.Length) && (data == old(data) || fresh(data))
      ensures Call(old(Now()), [CommandPacket(cmd, Word(old(transaction)))], Cfg()) == (Now(), r) && rc == r.rc
      ensures locks == old(locks)
      ensures endpoint.wire == old(endpoint.wire) + Join(r.attempts)
      ensures endpoint.widest <= Larger(old(endpoint.widest), maxPacketSize)
      ensures r.completed ==> |r.reply| <= data.Length && data[..|r.reply|] == r.reply
    {
      if operationKillSwitch {
        return IO_ERR, Report([], false, [], IO_ERR);
      }
      locks := locks + 1;
      dataPhaseLength := 0;
      rc, r := SendLocked(cmd);
    }

    /** The part of ptp_send between locking and unlocking. */
    method SendLocked(cmd: Command) returns (rc: int, ghost r: Report)
      requires Valid() && ValidCommand(cmd) && !connection.PtpIp? && !operationKillSwitch && locks >= 1
      modifies this, data, endpoint
      ensures Valid() && data.Length >= old(data.Length) && (data == old(data) || fresh(data))
      ensures Call(old(Now()), [CommandPacket(cmd, Word(old(transaction)))], Cfg()) == (Now(), r) && rc == r.rc
      ensures locks == old(locks) - 1
      ensures endpoint.wire == old(endpoint.wire) + Join(r.attempts)
      ensures endpoint.widest <= Larger(old(endpoint.widest), maxPacketSize)
      ensures r.completed ==> |r.reply| <= data.Length && data[..|r.reply|] == r.reply
    {
      ghost var s, packets := Now(), [CommandPacket(cmd, Word(transaction))];
      ghost var a;
      rc, a := SendTry(cmd);
      ghost var sent := [a.sent];
      TryIs(s.link, packets, Cfg());
      JoinOne(a.sent);
      if rc == COMMAND_IGNORED {
        ghost var b;
        rc, b := SendTry(cmd);
        TryIs(a.link, packets, Cfg());
        JoinTwo(a.sent, b.sent, old(endpoint.wire));
        sent, a := [a.sent, b.sent], b;
      }
      assert Call(s, packets, Cfg()) == Concluded(s, sent, a);
      rc, r := Conclude(rc, s, sent, a);
    }

    /** ptp_send_data */
    method SendData(cmd: Command, payload: bytes) returns (rc: int, ghost r: Report)
      requires Valid() && ValidCommand(cmd) && !connection.PtpIp? && |payload| < 0x7FFF_FF00
      modifies this, data, endpoint
      ensures Valid() && data.Length >= old(data.Length) && (data == old(data) || fresh(data))
      ensures Call(old(Now()), [CommandPacket(cmd, Word(old(transaction))), DataPacket(cmd, Word(old(transaction)), payload)], Cfg())
           == (Now(), r) && rc == r.rc
      ensures locks == old(locks)
      ensures endpoint.wire == old(endpoint.wire) + Join(r.attempts)
      ensures endpoint.widest <= Larger(old(endpoint.widest), maxPacketSize)
      ensures r.completed ==> |r.reply| <= data.Length && data[..|r.reply|] == r.reply
    {
      if operationKillSwitch {
        return IO_ERR, Report([], false, [], IO_ERR);
      }
      locks := locks + 1;
      dataPhaseLength := |payload|;
      MakeRoom(|payload|);
      rc, r := SendDataLocked(cmd, payload);
    }

    /** The part of ptp_send_data between locking and unlocking. */
    method SendDataLocked(cmd: Command, payload: bytes) returns (rc: int, ghost r: Report)
      requires Valid() && ValidCommand(cmd) && !connection.PtpIp? && |payload| < 0x7FFF_FF00
      requires !operationKillSwitch && locks >= 1 && 50 + |payload| <= data.Length
      modifies this, data, endpoint
      ensures Valid() && data.Length >= old(data.Length) && (data == old(data) || fresh(data))
      ensures Call(old(Now()), [CommandPacket(cmd, Word(old(transaction))), DataPacket(cmd, Word(old(transaction)), payload)], Cfg())
           == (Now(), r) && rc == r.rc
      ensures locks == old(locks) - 1
      ensures endpoint.wire == old(endpoint.wire) + Join(r.attempts)
      ensures endpoint.widest <= Larger(old(endpoint.widest), maxPacketSize)
      ensures r.completed ==> |r.reply| <= data.Length && data[..|r.reply|] == r.reply
    {
      ghost var s := Now();
      ghost var packets := [CommandPacket(cmd, Word(transaction)), DataPacket(cmd, Word(transaction), payload)];
      ghost var a;
      rc, a := SendDataTry(cmd, payload);
      ghost var sent := [a.sent];
      TryIs(s.link, packets, Cfg());
      JoinOne(a.sent);
      if rc == COMMAND_IGNORED {
        ghost var b;
        rc, b := SendDataTry(cmd, payload);
        TryIs(a.link, packets, Cfg());
        JoinTwo(a.sent, b.sent, old(endpoint.wire));
        sent, a := [a.sent, b.sent], b;
      }
      assert Call(s, packets, Cfg()) == Concluded(s, sent, a);
      rc, r := Conclude(rc, s, sent, a);
    }

    /** ptp_open_session: transactions of a session are numbered from 0. */
    method StartSession() returns (rc: int, ghost r: Report)
      requires Valid() && !connection.PtpIp?
      modifies this, data, endpoint
      ensures Valid() && data.Length >= old(data.Length) && (data == old(data) || fresh(data))
      ensures Step(old(Now()), OpenSession, Cfg()) == (Now(), r) && rc == r.rc
      ensures locks == old(locks)
      ensures endpoint.wire == old(endpoint.wire) + Join(r.attempts)
    {
      session := session + 1;
      transaction := 0;
      rc, r := Send(OpenCommand(session));
    }
  
    // ----- Receiving over PTP/IP -----

    /** The loop of ptpip_read_packet that waits for the length word, behind u. */
    method ReadLengthWord(of: nat, ghost u: bytes) returns (rc: int, ghost h: Header)
      requires Valid() && endpoint.link.tail < 0 && of + 4 <= data.Length && of == |u| && data[..of] == u
      modifies this`waitForResponse, data, endpoint`link
      ensures Valid() && endpoint.link == h.link && rc == h.rc
      ensures h == ReadHeader(old(endpoint.link), old(waitForResponse), 0)
      ensures waitForResponse == responseWaitDefault
      ensures data[..of + |h.word|] == u + h.word
    {
      rc := 0;
      while waitForResponse > 0
        invariant rc <= 0 && endpoint.link.tail < 0 && data[..of] == u
        invariant ReadHeader(endpoint.link, waitForResponse, rc)
               == ReadHeader(old(endpoint.link), old(waitForResponse), 0)
      {
        var chunk;
        rc, chunk := endpoint.Read(4);
        waitForResponse := waitForResponse - 1;
        if rc > 0 {
          StoreNext(of, chunk);
          waitForResponse := responseWaitDefault;
          return rc, Header(rc, chunk, endpoint.link);
        }
      }
      waitForResponse := responseWaitDefault;
      h := Header(rc, [], endpoint.link);
      assert u + [] == u;
    }

    /** Room for the rest of a frame, with slack for the length word of the next one. */
    method RoomForFrame(have: nat, length: nat)
      requires Valid() && have <= data.Length
      modifies this`data
      ensures Valid() && have + length < data.Length && data.Length >= old(data.Length)
      ensures data[..have] == old(data[..have])
      ensures data == old(data) || fresh(data)
    {
      if have + length >= data.Length {
        ghost var before := data[..];
        BufferResize(have + length);
        assert data[..have] == before[..have];
      }
    }

    /** One round of the loop of ptpip_read_packet that reads the rest of a frame. */
    method ReadMore(of: nat, read: nat, length: nat, ghost u: bytes, ghost got: bytes) returns (rc: int, ghost got': bytes)
      requires Valid() && endpoint.link.tail < 0 && of == |u| && read == |got| < length && of + length <= data.Length
      requires data[..of + read] == u + got
      modifies data, endpoint`link
      ensures Valid() && endpoint.link.tail < 0 && |got'| <= length && data[..of + |got'|] == u + got'
      ensures var r := ReadBody(got, old(endpoint.link), length);
        if rc < 0 then got' == got && r == Received(IO_ERR, got, endpoint.link)
        else
          && |got'| == read + rc
          && (|got'| == length ==> r == Received(OK, got', endpoint.link))
          && (|got'| < length ==>
                r == ReadBody(got', endpoint.link, length) && |endpoint.link.inputs| < old(|endpoint.link.inputs|))
    {
      BodyStep(got, endpoint.link, length);
      ghost var chunk;
      rc, chunk := ReadBehind(of + read, length - read, u + got);
      Assoc(u, got, chunk);
      got' := if rc < 0 then got else got + chunk;
    }

    /** The loop of ptpip_read_packet that reads the rest of the frame, behind u and b. */
    method ReadRest(of: nat, start: nat, length: nat, ghost u: bytes, ghost b: bytes) returns (rc: int, ghost r: Received)
      requires Valid() && endpoint.link.tail < 0 && of == |u| && start == |b| < length && of + length <= data.Length
      requires data[..of + start] == u + b
      modifies data, endpoint`link
      ensures Valid() && r == ReadBody(b, old(endpoint.link), length)
      ensures endpoint.link == r.link && rc == (if r.code == OK then length else IO_ERR)
      ensures data[..of + |r.got|] == u + r.got
    {
      ghost var got := b;
      var read := start;
      while true
        invariant start <= read < length && |got| == read && Valid() && endpoint.link.tail < 0
        invariant data[..of + read] == u + got
        invariant ReadBody(got, endpoint.link, length) == ReadBody(b, old(endpoint.link), length)
        decreases |endpoint.link.inputs|
      {
        rc, got := ReadMore(of, read, length, u, got);
        if rc < 0 {
          return IO_ERR, Received(IO_ERR, got, endpoint.link);
        }
        read := read + rc;
        if read == length {
          return read, Received(OK, got, endpoint.link);
        }
      }
    }

    /**
     ptpip_read_packet behind u, for a device that sends frames of at least 8 bytes. The
     length word of a frame behind another is covered only by the slack that the first left.
     */
    method ReadIpPacket(of: nat, ghost u: bytes) returns (rc: int, ghost r: Received)
      requires Valid() && endpoint.link.tail < 0 && Framed(endpoint.link.incoming)
      requires of + 4 <= data.Length && of == |u| && data[..of] == u
      modifies this`data, this`waitForResponse, data, endpoint`link
      ensures Valid() && data.Length >= old(data.Length) && (data == old(data) || fresh(data))
      ensures waitForResponse == responseWaitDefault
      ensures r == ReadPacket(old(endpoint.link), old(waitForResponse)) && endpoint.link == r.link
      ensures rc == if r.code == OK then |r.got| else r.code
      ensures of + |r.got| <= data.Length && data[..of + |r.got|] == u + r.got
      ensures r.code == OK ==> of + |r.got| + 4 <= data.Length
    {
      ghost var h;
      HeaderIsFirst(endpoint.link, waitForResponse, 0);
      rc, h := ReadLengthWord(of, u);
      if rc < 0 {
        return COMMAND_IGNORED, Received(COMMAND_IGNORED, [], endpoint.link);
      }
      if rc < 4 {
        return IO_ERR, Received(IO_ERR, h.word, endpoint.link);
      }
      rc, r := ReadFrame(of, u, h.word);
    }

    /** The rest of ptpip_read_packet after the length word. */
    method ReadFrame(of: nat, ghost u: bytes, ghost word: bytes) returns (rc: int, ghost r: Received)
      requires Valid() && endpoint.link.tail < 0 && of == |u| && |word| == 4 && ReadU32(word) >= 8
      requires of + 4 <= data.Length && data[..of + 4] == u + word
      modifies this`data, data, endpoint`link
      ensures Valid() && data.Length >= old(data.Length) && (data == old(data) || fresh(data))
      ensures r == ReadBody(word, old(endpoint.link), ReadU32(word)) && endpoint.link == r.link
      ensures rc == if r.code == OK then |r.got| else r.code
      ensures of + |r.got| <= data.Length && data[..of + |r.got|] == u + r.got
      ensures r.code == OK ==> of + |r.got| + 4 <= data.Length
    {
      var length := U32At(data[..of + 4], of);
      assert data[..of + 4][of..of + 4] == word;
      RoomForFrame(of + 4, length);
      rc, r := ReadRest(of, 4, length, u, word);
    }

    /** ptpip_receive_bulk_packets */
    method ReceiveBulkPackets() returns (rc: int, ghost r: Received)
      requires Valid() && endpoint.link.tail < 0 && Framed(endpoint.link.incoming)
      modifies this`data, this`waitForResponse, data, endpoint`link
      ensures Valid() && data.Length >= old(data.Length) && (data == old(data) || fresh(data))
      ensures r == ReceiveBulk(old(endpoint.link), old(waitForResponse), responseWaitDefault) && endpoint.link == r.link && rc == r.code
      ensures |r.got| <= data.Length && data[..|r.got|] == r.got
    {
      ghost var p1;
      PacketIsFrame(endpoint.link, waitForResponse);
      rc, p1 := ReadIpPacket(0, []);
      assert [] + p1.got == p1.got;
      if rc < 0 {
        return rc, p1;
      }
      FieldsBehind(data[..], [], p1.got);
      var kind := U32At(data[..], 4);
      if kind == PTPIP_COMMAND_RESPONSE {
        return OK, p1;
      }
      if kind != PTPIP_DATA_PACKET_START {
        return IO_ERR, p1.(code := IO_ERR);
      }
      rc, r := ReceiveEndAndResponse(rc, p1.got);
    }

    /** The rest of ptpip_receive_bulk_packets after the start packet s. */
    method ReceiveEndAndResponse(pk1: nat, ghost s: bytes) returns (rc: int, ghost r: Received)
      requires Valid() && endpoint.link.tail < 0 && Framed(endpoint.link.incoming)
      requires waitForResponse == responseWaitDefault && pk1 == |s| && pk1 + 4 <= data.Length && data[..pk1] == s
      modifies this`data, this`waitForResponse, data, endpoint`link
      ensures Valid() && data.Length >= old(data.Length) && (data == old(data) || fresh(data))
      ensures r == ReceiveEnd(s, old(endpoint.link), responseWaitDefault) && endpoint.link == r.link && rc == r.code
      ensures |r.got| <= data.Length && data[..|r.got|] == r.got
    {
      ghost var p2;
      PacketIsFrame(endpoint.link, responseWaitDefault);
      rc, p2 := ReadIpPacket(pk1, s);
      if rc < 0 {
        return rc, p2.(got := s + p2.got);
      }
      FieldsBehind(data[..], s, p2.got);
      if U32At(data[..], pk1 + 4) != PTPIP_DATA_PACKET_END {
        return IO_ERR, Received(IO_ERR, s + p2.got, p2.link);
      }
      rc, r := ReceiveFinal(pk1 + U32At(data[..], pk1), s + p2.got);
    }

    /** The response packet behind the packets u. */
    method ReceiveFinal(pk2: nat, ghost u: bytes) returns (rc: int, ghost r: Received)
      requires Valid() && endpoint.link.tail < 0 && Framed(endpoint.link.incoming)
      requires waitForResponse == responseWaitDefault && pk2 == |u| && pk2 + 4 <= data.Length && data[..pk2] == u
      modifies this`data, this`waitForResponse, data, endpoint`link
      ensures Valid() && data.Length >= old(data.Length) && (data == old(data) || fresh(data))
      ensures r == ReceiveResponse(u, old(endpoint.link), responseWaitDefault) && endpoint.link == r.link && rc == r.code
      ensures |r.got| <= data.Length && data[..|r.got|] == r.got
    {
      ghost var p3;
      PacketIsFrame(endpoint.link, responseWaitDefault);
      rc, p3 := ReadIpPacket(pk2, u);
      r := p3.(got := u + p3.got);
      if rc < 0 {
        return rc, r;
      }
      FieldsBehind(data[..], u, p3.got);
      if U32At(data[..], pk2 + 4) != PTPIP_COMMAND_RESPONSE {
        return IO_ERR, r.(code := IO_ERR);
      }
      return OK, r;
    }
  }

  lemma FieldsBehind(b: bytes, u: bytes, f: bytes)
    requires IsFrame(f) && |u| + |f| <= |b| && b[..|u| + |f|] == u + f
    ensures U32At(b, |u| + 4) == FrameType(f) && U32At(b, |u|) == |f|
  {
    FieldsOfSuffix(u, f, 0);
    FieldsOfSuffix(u, f, 4);
    assert b == (u + f) + b[|u| + |f|..];
    FieldsOfPrefix(u + f, b[|u| + |f|..], |u|);
    FieldsOfPrefix(u + f, b[|u| + |f|..], |u| + 4);
  }

  /** One round of the loop of ptpusb_read_all_packets. */
  lemma ReceiveStep(b: bytes, l: Link, max: nat, wait: nat, attempts: nat)
    requires max >= 1 && l.tail <= 0 && wait + attempts >= 1
    ensures b + l.incoming[..0] == b
    ensures var rc, l', r := ReadSize(l, max), AfterRead(l, max), Receive(b, l, max, wait, attempts);
      var got := b + l.incoming[..Count(rc)];
      if rc <= 0 && wait > 0 then r == Receive(b, l', max, wait - 1, attempts + 1)
      else if rc < 0 then r == Received(IO_ERR, b, l')
      else if wait == 0 && attempts > 0 then r == Received(COMMAND_IGNORED, got, l')
      else if StatusOf(got) == Complete then r == Received(OK, got, l')
      else if StatusOf(got) == Bad then r == Received(IO_ERR, got, l')
      else r == Receive(got, l', max, wait, attempts)
  {
    assert b + l.incoming[..0] == b;
  }

  lemma BodyStep(b: bytes, l: Link, n: nat)
    requires l.tail < 0 && |b| < n
    ensures b + l.incoming[..0] == b
    ensures var rc, l', r := ReadSize(l, n - |b|), AfterRead(l, n - |b|), ReadBody(b, l, n);
      var got := b + l.incoming[..Count(rc)];
      if rc < 0 then r == Received(IO_ERR, b, l')
      else if |got| == n then r == Received(OK, got, l')
      else r == ReadBody(got, l', n) && |l'.inputs| < |l.inputs|
  {
    assert b + l.incoming[..0] == b;
  }

  lemma OnePacket(l: Link, p: bytes, max: nat)
    requires max >= 1
    ensures TransmitAll(l, [p], max) == Transmit(l, p, max)
  {
    var s := Transmit(l, p, max);
    assert TransmitAll(s.link, [], max) == Sent(true, [], s.link);
    assert [p][1..] == [] && s.accepted + [] == s.accepted;
  }

  lemma TwoPackets(l: Link, p: bytes, q: bytes, max: nat, u: bytes)
    requires max >= 1
    ensures var s := Transmit(l, p, max);
      && TransmitAll(l, [p, q], max) == (if s.ok then Behind(s.accepted, Transmit(s.link, q, max)) else s)
      && Behind(u, Behind(s.accepted, Transmit(s.link, q, max))) == Behind(u + s.accepted, Transmit(s.link, q, max))
  {
    var s := Transmit(l, p, max);
    assert [p, q][1..] == [q];
    OnePacket(s.link, q, max);
    Assoc(u, s.accepted, Transmit(s.link, q, max).accepted);
  }

  /** The bytes of a header after its overlapping writes: b, then c, then d. */
  lemma Overlapping(b: bytes, c: bytes, d: bytes, size: u32, kind: u16, code: u16, transaction: u32)
    requires |b| >= 12 && |c| >= 12 && |d| >= 12
    requires b[0..4] == WriteU32(size) && b[4..8] == WriteU32(kind)
    requires c[..6] == b[..6] && c[6..10] == WriteU32(code)
    requires d[..8] == c[..8] && d[8..12] == WriteU32(transaction)
    ensures d[..12] == WriteU32(size) + WriteU16(kind) + WriteU16(code) + WriteU32(transaction)
  {
    assert b[4..8][..2] == b[4..6] && c[6..10][..2] == c[6..8];
    assert d[..8] == c[..6] + c[6..8] && c[..6] == b[0..4] + b[4..6];
    assert d[..12] == d[..8] + d[8..12];
  }

  lemma NextParam(header: bytes, params: seq<u32>, i: nat)
    requires i < |params|
    ensures header + Params(params[..i + 1]) == header + Params(params[..i]) + WriteU32(params[i])
  {
    assert params[..i + 1][..i] == params[..i];
    Assoc(header, Params(params[..i]), WriteU32(params[i]));
  }

  lemma PrefixSlice(b: bytes, length: nat, i: nat, j: nat)
    requires i <= j <= length <= |b|
    ensures b[..length][i..j] == b[i..j]
  {
    var p := b[..length];
    assert forall k :: 0 <= k < length ==> p[k] == b[k];
    assert forall k :: 0 <= k < j - i ==> p[i..j][k] == p[i + k] && b[i..j][k] == b[i + k];
  }

  /** The piece that was offered, and what is left of the packet, cut where the write ended. */
  lemma Cuts(p: bytes, sent: nat, max: nat, rc: nat)
    requires rc <= max && sent + max <= |p|
    ensures p[sent..][rc..] == p[sent + rc..] && p[sent..][..rc] == p[sent..sent + max][..rc]
  {
    var q := p[sent..];
    assert forall k :: 0 <= k < |q| ==> q[k] == p[sent + k];
    assert forall k :: 0 <= k < |q| - rc ==> q[rc..][k] == q[rc + k];
    assert forall k :: 0 <= k < rc ==> q[..rc][k] == p[sent..sent + max][..rc][k];
  }

  function Larger(a: nat, b: nat): nat {
    if a > b then a else b
  }

  /** What has been accepted in all when u was accepted before. */
  function Behind(u: bytes, s: Sent): Sent {
    s.(accepted := u + s.accepted)
  }

  lemma ShortWrite(l: Link, p: bytes, u: bytes, max: nat)
    requires max >= 1 && p != []
    ensures var s := Behind(u, Transmit(l, p, max));
      if l.outputs == [] then s == Sent(false, u, l)
      else
        var n, l' := Min(l.outputs[0], Min(|p|, max)), l.(outputs := l.outputs[1..]);
        if n < 0 then s == Sent(false, u, l')
        else if n == |p| then s == Sent(true, u + p, l')
        else s == Behind(u + p[..n], Transmit(l', p[n..], max))
  {
    if l.outputs != [] {
      var n, l' := Min(l.outputs[0], Min(|p|, max)), l.(outputs := l.outputs[1..]);
      if 0 <= n < |p| {
        Assoc(u, p[..n], Transmit(l', p[n..], max).accepted);
      }
    }
  }
}
