/**
 The packets of src/packet.c: the USB containers of Annex D of ISO 15740 and the packets
 of section 2.3 of CIPA DC-005 (PTP/IP), and the accessors that read a reply from the
 buffer.
 */
module Packets {
  import opened Octets

  const PACKET_TYPE_COMMAND: u16 := 1
  const PACKET_TYPE_DATA: u16 := 2
  const PACKET_TYPE_RESPONSE: u16 := 3

  const PTPIP_COMMAND_RESPONSE: u32 := 0x7
  const PTPIP_DATA_PACKET_START: u32 := 0x9
  const PTPIP_DATA_PACKET_END: u32 := 0xC

  datatype Command = Command(code: u16, params: seq<u32>)

  predicate ValidCommand(cmd: Command) {
    |cmd.params| <= 5
  }

  /** A 32-bit word as a C int. */
  function Signed(x: u32): int {
    if x < 0x8000_0000 then x else x - 0x1_0000_0000
  }

  // ----- Little-endian fields of a buffer -----

  function U16At(b: bytes, at: nat): u16
    requires at + 2 <= |b|
  {
    ReadU16(b[at..at + 2])
  }

  function U32At(b: bytes, at: nat): u32
    requires at + 4 <= |b|
  {
    ReadU32(b[at..at + 4])
  }

  lemma U16AtIn(p: bytes, x: u16, q: bytes)
    ensures U16At(p + WriteU16(x) + q, |p|) == x
  {
    assert (p + WriteU16(x) + q)[|p|..|p| + 2] == WriteU16(x) + [];
    ReadWriteU16(x, []);
  }

  lemma U32AtIn(p: bytes, x: u32, q: bytes)
    ensures U32At(p + WriteU32(x) + q, |p|) == x
  {
    assert (p + WriteU32(x) + q)[|p|..|p| + 4] == WriteU32(x) + [];
    ReadWriteU32(x, []);
  }

  /** A field that lies in the first half of a buffer does not depend on the second. */
  lemma FieldsOfPrefix(b: bytes, c: bytes, at: nat)
    ensures at + 2 <= |b| ==> U16At(b + c, at) == U16At(b, at)
    ensures at + 4 <= |b| ==> U32At(b + c, at) == U32At(b, at)
  {
    if at + 2 <= |b| {
      assert (b + c)[at..at + 2] == b[at..at + 2];
    }
    if at + 4 <= |b| {
      assert (b + c)[at..at + 4] == b[at..at + 4];
    }
  }

  /** A field of the second half is found behind the first. */
  lemma FieldsOfSuffix(b: bytes, c: bytes, at: nat)
    ensures at + 2 <= |c| ==> U16At(b + c, |b| + at) == U16At(c, at)
    ensures at + 4 <= |c| ==> U32At(b + c, |b| + at) == U32At(c, at)
  {
    if at + 2 <= |c| {
      assert (b + c)[|b| + at..|b| + at + 2] == c[at..at + 2];
    }
    if at + 4 <= |c| {
      assert (b + c)[|b| + at..|b| + at + 4] == c[at..at + 4];
    }
  }

  // ----- USB containers -----

  /** A container: length, type, code, transaction and a payload. */
  function Container(kind: u16, code: u16, transaction: u32, payload: bytes): (b: bytes)
    requires 12 + |payload| < 0x1_0000_0000
    ensures |b| == 12 + |payload|
  {
    WriteU32(12 + |payload|) + WriteU16(kind) + WriteU16(code) + WriteU32(transaction) + payload
  }

  function Params(params: seq<u32>): (b: bytes)
    ensures |b| == 4 * |params|
  {
    if params == [] then [] else Params(params[..|params| - 1]) + WriteU32(params[|params| - 1])
  }

  function CommandPacket(cmd: Command, transaction: u32): (b: bytes)
    requires ValidCommand(cmd)
    ensures 12 <= |b| <= 32
  {
    Container(PACKET_TYPE_COMMAND, cmd.code, transaction, Params(cmd.params))
  }

  function DataPacket(cmd: Command, transaction: u32, data: bytes): (b: bytes)
    requires 12 + |data| < 0x1_0000_0000
  {
    Container(PACKET_TYPE_DATA, cmd.code, transaction, data)
  }

  lemma ContainerFields(kind: u16, code: u16, transaction: u32, payload: bytes)
    requires 12 + |payload| < 0x1_0000_0000
    ensures var b := Container(kind, code, transaction, payload);
      && U32At(b, 0) == |b| && U16At(b, 4) == kind && U16At(b, 6) == code
      && U32At(b, 8) == transaction && b[12..] == payload
  {
    var l, k, c, t := WriteU32(12 + |payload|), WriteU16(kind), WriteU16(code), WriteU32(transaction);
    var b := Container(kind, code, transaction, payload);
    assert b == [] + l + (k + c + t + payload);
    U32AtIn([], 12 + |payload|, k + c + t + payload);
    assert b == l + k + (c + t + payload);
    U16AtIn(l, kind, c + t + payload);
    assert b == (l + k) + c + (t + payload);
    U16AtIn(l + k, code, t + payload);
    assert b == (l + k + c) + t + payload;
    U32AtIn(l + k + c, transaction, payload);
  }

  lemma {:induction false} ParamAt(xs: seq<u32>, i: nat)
    requires i < |xs|
    ensures U32At(Params(xs), 4 * i) == xs[i]
    decreases |xs|
  {
    var front, last := xs[..|xs| - 1], WriteU32(xs[|xs| - 1]);
    if i < |xs| - 1 {
      ParamAt(front, i);
      FieldsOfPrefix(Params(front), last, 4 * i);
    } else {
      U32AtIn(Params(front), xs[i], []);
      assert Params(front) + last + [] == Params(front) + last;
    }
  }

  /** The bytes of a command: length, type 1, code, transaction, and its parameters in order. */
  lemma CommandOnWire(cmd: Command, transaction: u32)
    requires ValidCommand(cmd)
    ensures var b := CommandPacket(cmd, transaction);
      && |b| == 12 + 4 * |cmd.params| && U32At(b, 0) == |b| && U16At(b, 4) == 1 && U16At(b, 6) == cmd.code
      && U32At(b, 8) == transaction
      && forall i :: 0 <= i < |cmd.params| ==> U32At(b, 12 + 4 * i) == cmd.params[i]
  {
    var b := CommandPacket(cmd, transaction);
    ContainerFields(PACKET_TYPE_COMMAND, cmd.code, transaction, Params(cmd.params));
    forall i | 0 <= i < |cmd.params| ensures U32At(b, 12 + 4 * i) == cmd.params[i] {
      ParamAt(cmd.params, i);
      assert b == b[..12] + Params(cmd.params);
      FieldsOfSuffix(b[..12], Params(cmd.params), 4 * i);
    }
  }

  /** The bytes of a data packet: the same with type 2, and the data. */
  lemma DataOnWire(cmd: Command, transaction: u32, data: bytes)
    requires 12 + |data| < 0x1_0000_0000
    ensures var b := DataPacket(cmd, transaction, data);
      && U32At(b, 0) == |b| && U16At(b, 4) == 2 && U16At(b, 6) == cmd.code
      && U32At(b, 8) == transaction && b[12..] == data
  {
    ContainerFields(PACKET_TYPE_DATA, cmd.code, transaction, data);
  }

  /** One whole container of some kind. */
  predicate IsContainer(b: bytes, kind: u16) {
    12 <= |b| < 0x8000_0000 && U32At(b, 0) == |b| && U16At(b, 4) == kind
  }

  // ----- What the accessors read from a USB reply -----

  /** Where the response container starts: behind the data container, if there is one. */
  function ResponseOffset(b: bytes): nat
    requires |b| >= 12
  {
    if U16At(b, 4) == PACKET_TYPE_DATA then U32At(b, 0) else 0
  }

  /** A response, or a data container and a response. */
  predicate IsReply(b: bytes) {
    IsContainer(b, 3) || IsDataReply(b)
  }

  predicate IsDataReply(b: bytes) {
    && 12 <= |b| < 0x8000_0000 && U32At(b, 0) <= |b|
    && IsContainer(b[..U32At(b, 0)], 2)
    && IsContainer(b[U32At(b, 0)..], 3)
  }

  /** The fields of a reply with a data phase, where the receiver and the accessors look for them. */
  lemma DataReplyFields(b: bytes)
    requires IsDataReply(b)
    ensures var n := U32At(b, 0);
      && 12 <= n && n + 12 <= |b| && U16At(b, 4) == PACKET_TYPE_DATA
      && U16At(b, n + 4) == PACKET_TYPE_RESPONSE && U32At(b, n) == |b| - n
  {
    var n := U32At(b, 0);
    assert b == b[..n] + b[n..];
    FieldsOfPrefix(b[..n], b[n..], 4);
    FieldsOfSuffix(b[..n], b[n..], 0);
    FieldsOfSuffix(b[..n], b[n..], 4);
  }

  /** ptp_get_return_code for USB containers. */
  function ReturnCode(b: bytes): u16
    requires |b| >= 12 && ResponseOffset(b) + 12 <= |b|
  {
    U16At(b, ResponseOffset(b) + 6)
  }

  /** ptp_get_last_transaction_id for USB containers. */
  function LastTransaction(b: bytes): u32
    requires |b| >= 12 && ResponseOffset(b) + 12 <= |b|
  {
    U32At(b, ResponseOffset(b) + 8)
  }

  /** ptp_get_payload and ptp_get_payload_length for USB containers. */
  function PayloadOffset(b: bytes): nat
    requires |b| >= 12
  {
    if U16At(b, 4) == PACKET_TYPE_COMMAND then 28 else 12
  }

  function PayloadLength(b: bytes): int
    requires |b| >= 12
  {
    U32At(b, 0) - 12
  }

  /** ptp_get_param_length for USB containers. */
  function ParamLength(b: bytes): int
    requires |b| >= 12 && ResponseOffset(b) + 12 <= |b|
  {
    (U32At(b, ResponseOffset(b)) - 12) / 4
  }

  /**
   ptp_get_param for USB containers; behind a data container it gives the response code,
   whatever parameter is asked for.
   */
  function Param(b: bytes, index: nat): u32
    requires |b| >= 12 && ResponseOffset(b) + 12 <= |b|
    requires ResponseOffset(b) == 0 ==> 16 + 4 * index <= |b|
  {
    if U16At(b, 4) == PACKET_TYPE_DATA then ReturnCode(b) else U32At(b, 12 + 4 * index)
  }

  /**
   After a data container d and a response r the accessors find the code, the transaction
   and the parameter count of r and the payload of d, whatever else is in the buffer.
   */
  lemma AccessorsAfterData(d: bytes, r: bytes, junk: bytes)
    requires IsContainer(d, 2) && IsContainer(r, 3)
    ensures var b := d + r + junk;
      && ResponseOffset(b) == |d| && |d| + 12 <= |b|
      && ReturnCode(b) == U16At(r, 6) && LastTransaction(b) == U32At(r, 8)
      && ParamLength(b) == (|r| - 12) / 4 && (forall k: nat :: Param(b, k) == U16At(r, 6))
      && PayloadOffset(b) == 12 && PayloadLength(b) == |d| - 12
      && b[12..12 + PayloadLength(b)] == d[12..]
  {
    var b := d + r + junk;
    assert b == d + (r + junk);
    FieldsOfPrefix(d, r + junk, 0);
    FieldsOfPrefix(d, r + junk, 4);
    FieldsOfSuffix(d, r + junk, 0);
    FieldsOfSuffix(d, r + junk, 6);
    FieldsOfSuffix(d, r + junk, 8);
    FieldsOfPrefix(r, junk, 0);
    FieldsOfPrefix(r, junk, 6);
    FieldsOfPrefix(r, junk, 8);
  }

  /** After a command, which ptp_get_payload also knows, the payload is behind five parameters. */
  lemma PayloadOfCommand(cmd: Command, transaction: u32, junk: bytes)
    requires ValidCommand(cmd)
    ensures PayloadOffset(CommandPacket(cmd, transaction) + junk) == 28
  {
    CommandOnWire(cmd, transaction);
    FieldsOfPrefix(CommandPacket(cmd, transaction), junk, 4);
  }

  /** The same for a response alone, whose payload is its parameters. */
  lemma AccessorsAfterResponse(r: bytes, junk: bytes)
    requires IsContainer(r, 3)
    ensures var b := r + junk;
      && ResponseOffset(b) == 0 && |b| >= 12
      && ReturnCode(b) == U16At(r, 6) && LastTransaction(b) == U32At(r, 8)
      && ParamLength(b) == (|r| - 12) / 4
      && PayloadOffset(b) == 12 && PayloadLength(b) == |r| - 12
      && b[12..12 + PayloadLength(b)] == r[12..]
      && forall k: nat :: 16 + 4 * k <= |r| ==> Param(b, k) == U32At(r, 12 + 4 * k)
  {
    FieldsOfPrefix(r, junk, 0);
    FieldsOfPrefix(r, junk, 4);
    FieldsOfPrefix(r, junk, 6);
    FieldsOfPrefix(r, junk, 8);
    forall k: nat | 16 + 4 * k <= |r| ensures Param(r + junk, k) == U32At(r, 12 + 4 * k) {
      FieldsOfPrefix(r, junk, 12 + 4 * k);
    }
  }

  // ----- PTP/IP packets -----

  /** One whole PTP/IP frame. */
  predicate IsFrame(f: bytes) {
    8 <= |f| < 0x8000_0000 && U32At(f, 0) == |f|
  }

  function FrameType(f: bytes): u32
    requires |f| >= 8
  {
    U32At(f, 4)
  }

  /** The panics of the accessors. */
  datatype Located = At(offset: nat) | Panic

  /** ptpip_get_response_packet */
  function IpResponse(b: bytes): Located
    requires |b| >= 8
  {
    if U32At(b, 4) == PTPIP_COMMAND_RESPONSE then At(0)
    else if U32At(b, 4) != PTPIP_DATA_PACKET_START then Panic
    else
      var end := U32At(b, 0);
      if end + 8 > |b| || U32At(b, end + 4) != PTPIP_DATA_PACKET_END then Panic
      else
        var response := end + U32At(b, end);
        if response + 8 > |b| || U32At(b, response + 4) != PTPIP_COMMAND_RESPONSE then Panic
        else At(response)
  }

  /** ptp_get_payload for PTP/IP: behind the 12 bytes of the end packet's header. */
  function IpPayload(b: bytes): Located
    requires |b| >= 8
  {
    if U32At(b, 4) != PTPIP_DATA_PACKET_START then Panic
    else
      var end := U32At(b, 0);
      if end + 8 > |b| || U32At(b, end + 4) != PTPIP_DATA_PACKET_END then Panic else At(end + 12)
  }

  datatype Declared = Length(n: int) | NoLength

  /**
   ptp_get_payload_length for PTP/IP: the length that the start packet declares, cut down to
   an int. The end packet is not looked at. NoLength is the panic.
   */
  function IpPayloadLength(b: bytes): Declared
    requires |b| >= 20
  {
    if U32At(b, 4) != PTPIP_DATA_PACKET_START then NoLength else Length(Signed(U32At(b, 12)))
  }

  /** The 64-bit payload length in a start packet. */
  function DeclaredLength(s: bytes): nat
    requires |s| >= 20
  {
    var low: nat, high: nat := U32At(s, 12), U32At(s, 16);
    low + 0x1_0000_0000 * high
  }

  /** There is a response with its code and transaction in the buffer. */
  predicate HasIpResponse(b: bytes) {
    |b| >= 8 && IpResponse(b).At? && IpResponse(b).offset + 14 <= |b|
  }

  /** ptp_get_return_code for PTP/IP. */
  function IpReturnCode(b: bytes): u16
    requires HasIpResponse(b)
  {
    U16At(b, IpResponse(b).offset + 8)
  }

  /** ptp_get_last_transaction_id for PTP/IP. */
  function IpLastTransaction(b: bytes): u32
    requires HasIpResponse(b)
  {
    U32At(b, IpResponse(b).offset + 10)
  }

  /** ptp_get_param_length for PTP/IP; the difference wraps at 32 bits. */
  function IpParamLength(b: bytes): int
    requires HasIpResponse(b)
  {
    (U32At(b, IpResponse(b).offset) - 14) % 0x1_0000_0000 / 4
  }

  /** ptp_get_param for PTP/IP. */
  function IpParam(b: bytes, index: nat): u32
    requires HasIpResponse(b) && IpResponse(b).offset + 18 + 4 * index <= |b|
  {
    U32At(b, IpResponse(b).offset + 14 + 4 * index)
  }

  /** The accessors of the response give what the packet r says, with a code and a transaction in it. */
  ghost predicate IpAnswers(b: bytes, r: bytes)
    requires |r| >= 14
  {
    && HasIpResponse(b) && IpResponse(b).offset + |r| <= |b|
    && IpReturnCode(b) == U16At(r, 8) && IpLastTransaction(b) == U32At(r, 10)
    && IpParamLength(b) == (|r| - 14) / 4
    && forall k: nat :: 18 + 4 * k <= |r| ==> IpParam(b, k) == U32At(r, 14 + 4 * k)
  }

  /** A field of a piece f that lies in the buffer from `from` on. */
  lemma FieldInside(b: bytes, from: nat, f: bytes, at: nat)
    requires from + |f| <= |b| && b[from..from + |f|] == f
    ensures at + 2 <= |f| ==> U16At(b, from + at) == U16At(f, at)
    ensures at + 4 <= |f| ==> U32At(b, from + at) == U32At(f, at)
  {
    var u, v := b[..from], b[from + |f|..];
    assert b == u + f + v;
    FieldsOfSuffix(u, f, at);
    FieldsOfPrefix(u + f, v, from + at);
  }

  lemma IpParamFound(b: bytes, from: nat, r: bytes, k: nat)
    requires from + |r| <= |b| && b[from..from + |r|] == r && |b| >= 8 && IpResponse(b) == At(from) && 18 + 4 * k <= |r|
    ensures HasIpResponse(b) && IpParam(b, k) == U32At(r, 14 + 4 * k)
  {
    FieldInside(b, from, r, 14 + 4 * k);
  }

  lemma IpFixedFields(b: bytes, from: nat, r: bytes)
    requires IsFrame(r) && |r| >= 14 && from + |r| <= |b| && b[from..from + |r|] == r && IpResponse(b) == At(from)
    ensures HasIpResponse(b) && U32At(b, from) == |r|
    ensures IpReturnCode(b) == U16At(r, 8) && IpLastTransaction(b) == U32At(r, 10)
  {
    FieldInside(b, from, r, 0);
    FieldInside(b, from, r, 8);
    FieldInside(b, from, r, 10);
  }

  lemma IpParamLengthFound(b: bytes, n: nat)
    requires HasIpResponse(b) && U32At(b, IpResponse(b).offset) == n && n >= 14
    ensures IpParamLength(b) == (n - 14) / 4
  {
    assert (n - 14) % 0x1_0000_0000 == n - 14;
  }

  lemma IpResponseFields(b: bytes, from: nat, r: bytes)
    requires IsFrame(r) && |r| >= 14 && from + |r| <= |b| && b[from..from + |r|] == r && IpResponse(b) == At(from)
    ensures IpAnswers(b, r)
  {
    IpFixedFields(b, from, r);
    IpParamLengthFound(b, |r|);
    forall k: nat | 18 + 4 * k <= |r| ensures IpParam(b, k) == U32At(r, 14 + 4 * k) {
      IpParamFound(b, from, r, k);
    }
  }

  /** The payload length is n if and only if the start packet s declares n, as far as an int goes. */
  lemma IpPayloadLengthDeclared(b: bytes, s: bytes, n: nat)
    requires 20 <= |s| <= |b| && b[..|s|] == s && FrameType(s) == 0x9 && n < 0x8000_0000
    ensures IpPayloadLength(b) == Length(n) <==> DeclaredLength(s) % 0x1_0000_0000 == n
  {
    FieldInside(b, 0, s, 4);
    FieldInside(b, 0, s, 12);
    var low: nat, high: nat := U32At(s, 12), U32At(s, 16);
    assert (low + 0x1_0000_0000 * high) % 0x1_0000_0000 == low;
  }

  /**
   After a data phase the accessors reach no panic: they find exactly the response packet
   and the bytes behind the header of the end packet. The payload length is that of the end
   packet if and only if the start packet declares it.
   */
  lemma IpResponseFound(s: bytes, e: bytes, r: bytes, junk: bytes)
    requires IsFrame(s) && FrameType(s) == 0x9
    requires IsFrame(e) && FrameType(e) == 0xC
    requires IsFrame(r) && FrameType(r) == 0x7
    ensures var b := s + e + r + junk;
      && IpResponse(b) == At(|s| + |e|) && b[|s| + |e|..|s| + |e| + |r|] == r
      && IpPayload(b) == At(|s| + 12)
      && (|e| >= 12 ==> b[|s| + 12..|s| + |e|] == e[12..])
      && (|r| >= 14 ==> IpAnswers(b, r))
      && (|s| >= 20 && |e| >= 12 ==>
            (IpPayloadLength(b) == Length(|e| - 12) <==> DeclaredLength(s) % 0x1_0000_0000 == |e| - 12))
  {
    IpResponseLocated(s, e, r, junk);
    var b := s + e + r + junk;
    if |r| >= 14 {
      IpResponseFields(b, |s| + |e|, r);
    }
    if |s| >= 20 && |e| >= 12 {
      assert b[..|s|] == s;
      IpPayloadLengthDeclared(b, s, |e| - 12);
    }
  }

  lemma IpResponseLocated(s: bytes, e: bytes, r: bytes, junk: bytes)
    requires IsFrame(s) && FrameType(s) == 0x9
    requires IsFrame(e) && FrameType(e) == 0xC
    requires IsFrame(r) && FrameType(r) == 0x7
    ensures var b := s + e + r + junk;
      && IpResponse(b) == At(|s| + |e|) && b[|s| + |e|..|s| + |e| + |r|] == r
      && IpPayload(b) == At(|s| + 12)
      && (|e| >= 12 ==> b[|s| + 12..|s| + |e|] == e[12..])
  {
    var b := s + e + r + junk;
    assert b == s + (e + (r + junk)) && b == (s + e) + (r + junk);
    FieldsOfPrefix(s, e + (r + junk), 0);
    FieldsOfPrefix(s, e + (r + junk), 4);
    FieldsOfSuffix(s, e + (r + junk), 0);
    FieldsOfSuffix(s, e + (r + junk), 4);
    FieldsOfPrefix(e, r + junk, 0);
    FieldsOfPrefix(e, r + junk, 4);
    FieldsOfSuffix(s + e, r + junk, 4);
    FieldsOfPrefix(r, junk, 4);
  }

  /** After a response alone it is found at the start, and asking for a payload panics. */
  lemma IpAccessorsAlone(r: bytes, junk: bytes)
    requires IsFrame(r) && FrameType(r) == 0x7
    ensures IpResponse(r + junk) == At(0) && (r + junk)[..|r|] == r && IpPayload(r + junk) == Panic
    ensures |r + junk| >= 20 ==> IpPayloadLength(r + junk) == NoLength
    ensures |r| >= 14 ==> IpAnswers(r + junk, r)
  {
    FieldsOfPrefix(r, junk, 4);
    if |r| >= 14 {
      IpResponseFields(r + junk, 0, r);
    }
  }
}
