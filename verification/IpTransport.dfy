/** The receiving side of PTP/IP in src/transport.c: frames out of a byte stream. */
module IpTransport {
  import opened Octets
  import opened Packets
  import opened Transport

  /**
   The device sends frames of at least 8 bytes, the last one possibly cut short. A frame
   that is shorter than its own header is not defended against by the code.
   */
  ghost predicate Framed(b: bytes)
    decreases |b|
  {
    |b| >= 4 ==>
      && 8 <= U32At(b, 0) < 0x8000_0000
      && (U32At(b, 0) <= |b| ==> Framed(b[U32At(b, 0)..]))
  }

  /** The first loop of ptpip_read_packet: the length word, in one read. */
  datatype Header = Header(rc: int, word: bytes, link: Link)

  function ReadHeader(l: Link, wait: nat, last: int): (h: Header)
    requires l.tail < 0 && last <= 0
    ensures h.rc <= 4 && |h.word| == Count(h.rc)
    ensures h.link.tail == l.tail && h.link.outputs == l.outputs && |h.link.incoming| <= |l.incoming|
    decreases wait
  {
    if wait == 0 then Header(last, [], l)
    else
      var rc := ReadSize(l, 4);
      if rc > 0 then Header(rc, l.incoming[..rc], AfterRead(l, 4))
      else ReadHeader(AfterRead(l, 4), wait - 1, rc)
  }

  /** The second loop: the rest of a frame of n bytes, b of it read. */
  function ReadBody(b: bytes, l: Link, n: nat): (r: Received)
    requires l.tail < 0 && |b| < n
    ensures r.link.tail == l.tail && r.link.outputs == l.outputs
    ensures |b| <= |r.got| <= n && (r.code == OK ==> |r.got| == n)
    ensures r.code in {OK, IO_ERR}
    decreases |l.inputs|
  {
    var rc, l' := ReadSize(l, n - |b|), AfterRead(l, n - |b|);
    if rc < 0 then Received(IO_ERR, b, l')
    else
      var got := b + l.incoming[..rc];
      if |got| == n then Received(OK, got, l') else ReadBody(got, l', n)
  }

  /** ptpip_read_packet */
  function ReadPacket(l: Link, W: nat): (r: Received)
    requires l.tail < 0 && Framed(l.incoming)
    ensures r.link.tail == l.tail && r.link.outputs == l.outputs
    ensures r.code in {OK, IO_ERR, COMMAND_IGNORED}
    ensures r.code == OK ==> |r.got| >= 8
  {
    var h := ReadHeader(l, W, 0);
    HeaderIsFirst(l, W, 0);
    if h.rc < 0 then Received(COMMAND_IGNORED, [], h.link)
    else if h.rc < 4 then Received(IO_ERR, h.word, h.link)
    else ReadBody(h.word, h.link, ReadU32(h.word))
  }

  lemma {:induction false} HeaderIsFirst(l: Link, wait: nat, last: int)
    requires l.tail < 0 && last <= 0
    ensures var h := ReadHeader(l, wait, last);
      && h.word + h.link.incoming == l.incoming
      && (h.rc == 4 && Framed(l.incoming) ==> ReadU32(h.word) == U32At(l.incoming, 0) >= 8)
    decreases wait
  {
    if wait > 0 {
      var rc := ReadSize(l, 4);
      assert AfterRead(l, 4).incoming == l.incoming[Count(rc)..];
      if rc > 0 {
        assert l.incoming == l.incoming[..rc] + l.incoming[rc..];
      } else {
        HeaderIsFirst(AfterRead(l, 4), wait - 1, rc);
      }
    } else {
      assert [] + l.incoming == l.incoming;
    }
  }

  lemma {:induction false} BodyConserves(b: bytes, l: Link, n: nat)
    requires l.tail < 0 && |b| < n
    ensures ReadBody(b, l, n).got + ReadBody(b, l, n).link.incoming == b + l.incoming
    decreases |l.inputs|
  {
    var rc, l' := ReadSize(l, n - |b|), AfterRead(l, n - |b|);
    if rc >= 0 {
      var got := b + l.incoming[..rc];
      assert l.incoming == l.incoming[..rc] + l.incoming[rc..];
      Assoc(b, l.incoming[..rc], l.incoming[rc..]);
      if |got| != n {
        BodyConserves(got, l', n);
      }
    }
  }

  /** A packet that is read is the first frame of the stream, and the rest is left. */
  lemma PacketIsFrame(l: Link, W: nat)
    requires l.tail < 0 && Framed(l.incoming)
    ensures var r := ReadPacket(l, W);
      r.code == OK ==>
        && IsFrame(r.got) && r.got + r.link.incoming == l.incoming
        && Framed(r.link.incoming)
  {
    var h, r := ReadHeader(l, W, 0), ReadPacket(l, W);
    if r.code == OK {
      HeaderIsFirst(l, W, 0);
      var n := ReadU32(h.word);
      BodyConserves(h.word, h.link, n);
      assert |l.incoming| >= n == U32At(l.incoming, 0);
      FieldsOfPrefix(r.got, r.link.incoming, 0);
      assert l.incoming[n..] == r.link.incoming;
    }
  }

  // ----- When a frame arrives -----

  /** All of it, with the reads that are left; or the code of the failure. */
  datatype Arrival = Arrived(left: seq<int>) | Missing(code: Failure)

  type Failure = c: int | c < 0 witness -5

  function CodeOf(a: Arrival): int {
    if a.Arrived? then 0 else a.code
  }

  function NextRead(ins: seq<int>, tail: int): int {
    if ins == [] then tail else ins[0]
  }

  /**
   At most W - 1 empty or failed reads, and then the whole length word at once. If there are
   W of them the command counts as ignored, -10, when the last one failed; an empty last read
   or a part of the word is an I/O error, -5.
   */
  function HeaderArrives(ins: seq<int>, tail: int, W: nat, last: int): Arrival
    decreases W
  {
    var e, left := NextRead(ins, tail), if ins == [] then [] else ins[1..];
    if W == 0 then Missing(if last < 0 then -10 else -5)
    else if e <= 0 then HeaderArrives(left, tail, W - 1, e)
    else if e >= 4 then Arrived(left) else Missing(-5)
  }

  /** Empty reads do not matter now, but a failed one ends it. */
  function BodyArrives(n: nat, ins: seq<int>): Arrival
    decreases |ins|
  {
    if n == 0 then Arrived(ins)
    else if ins == [] || ins[0] < 0 then Missing(-5)
    else BodyArrives(n - Min(ins[0], n), ins[1..])
  }

  function FrameArrives(n: nat, ins: seq<int>, tail: int, W: nat): Arrival
    requires n >= 4
  {
    match HeaderArrives(ins, tail, W, 0)
    case Missing(code) => Missing(code)
    case Arrived(left) => BodyArrives(n - 4, left)
  }

  lemma {:induction false} HeaderReads(l: Link, wait: nat, last: int)
    requires l.tail < 0 && last <= 0 && |l.incoming| >= 4
    ensures var h, a := ReadHeader(l, wait, last), HeaderArrives(l.inputs, l.tail, wait, last);
      && (h.rc == 4 <==> a.Arrived?) && (a.Arrived? ==> h.link.inputs == a.left)
      && (a.Missing? ==> a.code == if h.rc < 0 then -10 else -5)
    decreases wait
  {
    if wait > 0 {
      var rc := ReadSize(l, 4);
      if rc <= 0 {
        HeaderReads(AfterRead(l, 4), wait - 1, rc);
      }
    }
  }

  lemma {:induction false} BodyReads(b: bytes, l: Link, n: nat)
    requires l.tail < 0 && |b| < n <= |b| + |l.incoming|
    ensures var r, a := ReadBody(b, l, n), BodyArrives(n - |b|, l.inputs);
      r.code == CodeOf(a) && (a.Arrived? ==> r.link.inputs == a.left)
    decreases |l.inputs|
  {
    var rc, l' := ReadSize(l, n - |b|), AfterRead(l, n - |b|);
    if l.inputs != [] && rc >= 0 {
      var got := b + l.incoming[..rc];
      assert rc == Min(l.inputs[0], n - |b|) && |got| == |b| + rc && l'.inputs == l.inputs[1..];
      assert BodyArrives(n - |b|, l.inputs) == BodyArrives(n - |got|, l'.inputs);
      if |got| != n {
        BodyReads(got, l', n);
      }
    }
  }

  /** A frame is read if and only if the endpoint delivers its length word at once and its body. */
  lemma FrameReads(f: bytes, rest: bytes, l: Link, W: nat)
    requires l.tail < 0 && l.incoming == f + rest && IsFrame(f) && Framed(l.incoming)
    ensures var r, a := ReadPacket(l, W), FrameArrives(|f|, l.inputs, l.tail, W);
      && r.code == CodeOf(a)
      && (a.Arrived? ==> r.got == f && r.link == Link(rest, a.left, l.tail, l.outputs))
  {
    var h := ReadHeader(l, W, 0);
    FieldsOfPrefix(f, rest, 0);
    HeaderIsFirst(l, W, 0);
    HeaderReads(l, W, 0);
    PacketIsFrame(l, W);
    if h.rc == 4 {
      assert |h.word + h.link.incoming| == |f + rest|;
      BodyReads(h.word, h.link, |f|);
      var r := ReadPacket(l, W);
      if r.code == OK {
        assert r.got == (f + rest)[..|f|] == f && r.link.incoming == (f + rest)[|f|..] == rest;
      }
    }
  }

  // ----- A whole reply -----

  /**
   ptpip_receive_bulk_packets: the first packet is waited for as long as wait_for_response
   says, which the first read resets to W.
   */
  function ReceiveBulk(l: Link, wait: nat, W: nat): (r: Received)
    requires l.tail < 0 && Framed(l.incoming)
  {
    var p1 := ReadPacket(l, wait);
    PacketIsFrame(l, wait);
    if p1.code != OK then p1
    else if FrameType(p1.got) == PTPIP_COMMAND_RESPONSE then p1
    else if FrameType(p1.got) != PTPIP_DATA_PACKET_START then p1.(code := IO_ERR)
    else ReceiveEnd(p1.got, p1.link, W)
  }

  /** The end packet and the response, when the start packet s has been read. */
  function ReceiveEnd(s: bytes, l: Link, W: nat): (r: Received)
    requires l.tail < 0 && Framed(l.incoming)
  {
    var p2 := ReadPacket(l, W);
    PacketIsFrame(l, W);
    if p2.code != OK then p2.(got := s + p2.got)
    else if FrameType(p2.got) != PTPIP_DATA_PACKET_END then Received(IO_ERR, s + p2.got, p2.link)
    else ReceiveResponse(s + p2.got, p2.link, W)
  }

  function ReceiveResponse(u: bytes, l: Link, W: nat): (r: Received)
    requires l.tail < 0 && Framed(l.incoming)
  {
    var p3 := ReadPacket(l, W);
    var r := p3.(got := u + p3.got);
    if p3.code == OK && FrameType(p3.got) != PTPIP_COMMAND_RESPONSE then r.(code := IO_ERR) else r
  }

  predicate Frames(s: bytes, e: bytes, r: bytes) {
    && IsFrame(s) && FrameType(s) == 0x9
    && IsFrame(e) && FrameType(e) == 0xC
    && IsFrame(r) && FrameType(r) == 0x7
  }

  /**
   Success leaves in the buffer either the response or the start, end and response packets,
   exactly as the device sent them, and takes no byte more from the stream.
   */
  lemma BulkIsReply(l: Link, wait: nat, W: nat) returns (s: bytes, e: bytes, r: bytes)
    requires l.tail < 0 && Framed(l.incoming) && ReceiveBulk(l, wait, W).code == OK
    ensures ReceiveBulk(l, wait, W).got + ReceiveBulk(l, wait, W).link.incoming == l.incoming
    ensures ReceiveBulk(l, wait, W).got == s + e + r
    ensures IsFrame(r) && FrameType(r) == 0x7
    ensures s + e == [] || Frames(s, e, r)
  {
    var p1 := ReadPacket(l, wait);
    PacketIsFrame(l, wait);
    if FrameType(p1.got) == PTPIP_COMMAND_RESPONSE {
      s, e, r := [], [], p1.got;
      assert s + e + r == r;
    } else {
      var p2 := ReadPacket(p1.link, W);
      PacketIsFrame(p1.link, W);
      var p3 := ReadPacket(p2.link, W);
      PacketIsFrame(p2.link, W);
      s, e, r := p1.got, p2.got, p3.got;
      Assoc(s, e, r + p3.link.incoming);
      Assoc(s + e, r, p3.link.incoming);
    }
  }

  /** Three frames arriving one after the other. */
  function FramesArrive(s: bytes, e: bytes, r: bytes, ins: seq<int>, tail: int, wait: nat, W: nat): Arrival
    requires |s| >= 4 && |e| >= 4 && |r| >= 4
  {
    match FrameArrives(|s|, ins, tail, wait)
    case Missing(code) => Missing(code)
    case Arrived(i1) =>
      match FrameArrives(|e|, i1, tail, W)
      case Missing(code) => Missing(code)
      case Arrived(i2) => FrameArrives(|r|, i2, tail, W)
  }

  lemma FramedTail(f: bytes, rest: bytes)
    requires IsFrame(f) && Framed(rest)
    ensures Framed(f + rest)
  {
    FieldsOfPrefix(f, rest, 0);
    assert (f + rest)[|f|..] == rest;
  }

  lemma ResponseReads(u: bytes, r: bytes, rest: bytes, l: Link, W: nat)
    requires l.tail < 0 && l.incoming == r + rest && IsFrame(r) && Framed(l.incoming)
    ensures var x, a := ReceiveResponse(u, l, W), FrameArrives(|r|, l.inputs, l.tail, W);
      && x.code == (if a.Arrived? && FrameType(r) != 0x7 then -5 else CodeOf(a))
      && (a.Arrived? ==> x.got == u + r && x.link == Link(rest, a.left, l.tail, l.outputs))
  {
    FrameReads(r, rest, l, W);
  }

  lemma EndReads(s: bytes, e: bytes, r: bytes, rest: bytes, l: Link, W: nat)
    requires l.tail < 0 && l.incoming == e + (r + rest) && IsFrame(e) && IsFrame(r) && Framed(rest)
    ensures Framed(l.incoming)
    ensures var x, a := ReceiveEnd(s, l, W), FrameArrives(|e|, l.inputs, l.tail, W);
      && (a.Missing? ==> x.code == a.code)
      && (a.Arrived? && FrameType(e) != 0xC ==> x.code == -5)
      && (a.Arrived? && FrameType(e) == 0xC ==>
            var b := FrameArrives(|r|, a.left, l.tail, W);
            && x.code == (if b.Arrived? && FrameType(r) != 0x7 then -5 else CodeOf(b))
            && (b.Arrived? ==> x.got == s + e + r && x.link == Link(rest, b.left, l.tail, l.outputs)))
  {
    FramedTail(r, rest);
    FramedTail(e, r + rest);
    FrameReads(e, r + rest, l, W);
    var a := FrameArrives(|e|, l.inputs, l.tail, W);
    if a.Arrived? && FrameType(e) == 0xC {
      ResponseReads(s + e, r, rest, Link(r + rest, a.left, l.tail, l.outputs), W);
    }
  }

  /**
   A reply with a data phase is put together if and only if each of its frames arrives,
   however its bytes are split; otherwise the code is that of the frame that does not.
   */
  lemma BulkReassembles(s: bytes, e: bytes, r: bytes, rest: bytes, ins: seq<int>, tail: int, outs: seq<int>,
                         wait: nat, W: nat)
    requires tail < 0 && Frames(s, e, r) && Framed(rest)
    ensures Framed(s + (e + (r + rest)))
    ensures var x, a := ReceiveBulk(Link(s + (e + (r + rest)), ins, tail, outs), wait, W), FramesArrive(s, e, r, ins, tail, wait, W);
      && x.code == CodeOf(a)
      && (a.Arrived? ==> x.got == s + e + r && x.link == Link(rest, a.left, tail, outs))
  {
    FramedTail(r, rest);
    FramedTail(e, r + rest);
    FramedTail(s, e + (r + rest));
    FrameReads(s, e + (r + rest), Link(s + (e + (r + rest)), ins, tail, outs), wait);
    var a := FrameArrives(|s|, ins, tail, wait);
    if a.Arrived? {
      EndReads(s, e, r, rest, Link(e + (r + rest), a.left, tail, outs), W);
    }
  }

  /** Frames of the wrong type behind a start packet are an I/O error, however they arrive. */
  lemma BulkRejects(s: bytes, e: bytes, r: bytes, rest: bytes, ins: seq<int>, tail: int, outs: seq<int>, wait: nat, W: nat)
    requires tail < 0 && IsFrame(s) && IsFrame(e) && IsFrame(r) && FrameType(s) == 0x9 && !Frames(s, e, r) && Framed(rest)
    requires FramesArrive(s, e, r, ins, tail, wait, W).Arrived?
    ensures Framed(s + (e + (r + rest)))
    ensures ReceiveBulk(Link(s + (e + (r + rest)), ins, tail, outs), wait, W).code == -5
  {
    FramedTail(r, rest);
    FramedTail(e, r + rest);
    FramedTail(s, e + (r + rest));
    FrameReads(s, e + (r + rest), Link(s + (e + (r + rest)), ins, tail, outs), wait);
    EndReads(s, e, r, rest, Link(e + (r + rest), FrameArrives(|s|, ins, tail, wait).left, tail, outs), W);
  }

  /** A first frame that is neither a response nor a start packet is an I/O error. */
  lemma FirstFrameDecides(f: bytes, rest: bytes, ins: seq<int>, tail: int, outs: seq<int>, wait: nat, W: nat)
    requires tail < 0 && IsFrame(f) && FrameType(f) != 0x9 && Framed(rest)
    ensures Framed(f + rest)
    ensures var x, a := ReceiveBulk(Link(f + rest, ins, tail, outs), wait, W), FrameArrives(|f|, ins, tail, wait);
      && x.code == (if a.Arrived? && FrameType(f) != 0x7 then -5 else CodeOf(a))
      && (a.Arrived? ==> x.got == f && x.link == Link(rest, a.left, tail, outs))
  {
    FramedTail(f, rest);
    FrameReads(f, rest, Link(f + rest, ins, tail, outs), wait);
  }

  /**
   After a successful read no accessor of the response panics, and each points where it
   should; those of the payload panic exactly if there was no data phase.
   */
  lemma AccessorsAfterBulk(l: Link, wait: nat, W: nat, junk: bytes) returns (s: bytes, e: bytes, r: bytes)
    requires l.tail < 0 && Framed(l.incoming) && ReceiveBulk(l, wait, W).code == OK
    ensures ReceiveBulk(l, wait, W).got == s + e + r && (s + e == [] || Frames(s, e, r)) && IsFrame(r)
    ensures var b := ReceiveBulk(l, wait, W).got + junk;
      && IpResponse(b) == At(|s| + |e|) && b[|s| + |e|..|s| + |e| + |r|] == r && (|r| >= 14 ==> IpAnswers(b, r))
      && IpPayload(b) == (if s + e == [] then Panic else At(|s| + 12))
    ensures s + e == [] && |r + junk| >= 20 ==> IpPayloadLength(r + junk) == NoLength
    ensures s + e != [] ==> PayloadRight(ReceiveBulk(l, wait, W).got + junk, s, e)
  {
    s, e, r := BulkIsReply(l, wait, W);
    if s + e == [] {
      assert s + e + r == r;
      IpAccessorsAlone(r, junk);
    } else {
      IpResponseFound(s, e, r, junk);
    }
  }

  /**
   The payload of the end packet e is where the accessor says, and its length is what the
   other says exactly if the start packet s declares it.
   */
  predicate PayloadRight(b: bytes, s: bytes, e: bytes) {
    && |s| + |e| <= |b| && (|e| >= 12 ==> b[|s| + 12..|s| + |e|] == e[12..])
    && (|s| >= 20 && |e| >= 12 ==>
          (IpPayloadLength(b) == Length(|e| - 12) <==> DeclaredLength(s) % 0x1_0000_0000 == |e| - 12))
  }
}
