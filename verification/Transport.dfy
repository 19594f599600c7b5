/**
 The packet transport of src/transport.c over an endpoint that splits what it carries as
 it likes: what is sent, and how a reply is put together again.
 */
module Transport {
  import opened Octets
  import opened Packets

  // Library errors, src/libpict.h
  const OK := 0
  const IO_ERR := -5
  const CHECK_CODE := -8
  const COMMAND_IGNORED := -10

  /**
   An endpoint and its behaviour from now on. `incoming` is what the device has sent and
   nobody has read; each entry of `inputs` decides one read: a positive entry delivers that
   many bytes if they are there and asked for, zero delivers nothing, a negative one fails.
   Reads beyond the list all give `tail`. Each entry of `outputs` likewise says how many
   bytes one write accepts; writes beyond the list fail.
   */
  datatype Link = Link(incoming: bytes, inputs: seq<int>, tail: int, outputs: seq<int>)

  /** What a read of at most max bytes returns. */
  function ReadSize(l: Link, max: nat): (rc: int)
    requires l.tail <= 0
    ensures rc <= |l.incoming| && rc <= max
    ensures l.inputs == [] ==> rc <= 0
  {
    var e := if l.inputs == [] then l.tail else l.inputs[0];
    if e <= 0 then e else Min(e, Min(max, |l.incoming|))
  }

  function Count(rc: int): nat {
    if rc > 0 then rc else 0
  }

  function AfterRead(l: Link, max: nat): (l': Link)
    requires l.tail <= 0
    ensures l'.tail == l.tail && l'.outputs == l.outputs
    ensures |l'.incoming| == |l.incoming| - Count(ReadSize(l, max))
  {
    l.(incoming := l.incoming[Count(ReadSize(l, max))..], inputs := if l.inputs == [] then [] else l.inputs[1..])
  }

  // ----- Sending -----

  datatype Sent = Sent(ok: bool, accepted: bytes, link: Link)

  /** ptp_send_packet */
  function Transmit(l: Link, p: bytes, max: nat): (s: Sent)
    requires max >= 1
    ensures s.link.incoming == l.incoming && s.link.inputs == l.inputs && s.link.tail == l.tail
    decreases |l.outputs|
  {
    if l.outputs == [] then Sent(false, [], l)
    else
      var w, l' := l.outputs[0], l.(outputs := l.outputs[1..]);
      if w < 0 then Sent(false, [], l')
      else
        var n := Min(w, Min(|p|, max));
        if n == |p| then Sent(true, p, l')
        else
          var s := Transmit(l', p[n..], max);
          s.(accepted := p[..n] + s.accepted)
  }

  /** Whatever short writes there are, a packet is accepted in order: wholly exactly on success. */
  lemma {:induction false} TransmitExact(l: Link, p: bytes, max: nat)
    requires max >= 1 && p != []
    ensures Transmit(l, p, max).accepted <= p
    ensures Transmit(l, p, max).ok <==> Transmit(l, p, max).accepted == p
    decreases |l.outputs|
  {
    if l.outputs != [] && l.outputs[0] >= 0 {
      var n := Min(l.outputs[0], Min(|p|, max));
      if n < |p| {
        TransmitExact(l.(outputs := l.outputs[1..]), p[n..], max);
        assert p == p[..n] + p[n..];
      }
    }
  }

  datatype Writing = Accepted(left: seq<int>) | Refused(left: seq<int>)

  /** How the endpoint accepts n bytes, offered to it max at a time. */
  function Accepts(n: nat, outs: seq<int>, max: nat): Writing
    requires max >= 1
    decreases |outs|
  {
    if outs == [] then Refused([])
    else if outs[0] < 0 then Refused(outs[1..])
    else
      var taken := Min(outs[0], Min(n, max));
      if taken == n then Accepted(outs[1..]) else Accepts(n - taken, outs[1..], max)
  }

  /** A packet is sent if and only if the endpoint accepts as many bytes. */
  lemma {:induction false} TransmitAccepts(l: Link, p: bytes, max: nat)
    requires max >= 1
    ensures var s, a := Transmit(l, p, max), Accepts(|p|, l.outputs, max);
      (s.ok <==> a.Accepted?) && s.link.outputs == a.left
    decreases |l.outputs|
  {
    if l.outputs != [] && l.outputs[0] >= 0 {
      var n := Min(l.outputs[0], Min(|p|, max));
      if n < |p| {
        TransmitAccepts(l.(outputs := l.outputs[1..]), p[n..], max);
      }
    }
  }

  /** Packets one after the other, as far as they go. */
  function TransmitAll(l: Link, ps: seq<bytes>, max: nat): (s: Sent)
    requires max >= 1
    ensures s.link.incoming == l.incoming && s.link.inputs == l.inputs && s.link.tail == l.tail
    decreases |ps|
  {
    if ps == [] then Sent(true, [], l)
    else
      var s := Transmit(l, ps[0], max);
      if !s.ok then s
      else
        var t := TransmitAll(s.link, ps[1..], max);
        t.(accepted := s.accepted + t.accepted)
  }

  function Join(ps: seq<bytes>): bytes {
    if ps == [] then [] else ps[0] + Join(ps[1..])
  }

  /** The wire image: packet after packet, wholly exactly on success. */
  lemma {:induction false} TransmitAllExact(l: Link, ps: seq<bytes>, max: nat)
    requires max >= 1 && forall i :: 0 <= i < |ps| ==> ps[i] != []
    ensures TransmitAll(l, ps, max).accepted <= Join(ps)
    ensures TransmitAll(l, ps, max).ok <==> TransmitAll(l, ps, max).accepted == Join(ps)
    decreases |ps|
  {
    if ps != [] {
      var s := Transmit(l, ps[0], max);
      TransmitExact(l, ps[0], max);
      if s.ok {
        TransmitAllExact(s.link, ps[1..], max);
      } else {
        assert |s.accepted| < |ps[0]|;
      }
    }
  }

  function AcceptsAll(ps: seq<bytes>, outs: seq<int>, max: nat): Writing
    requires max >= 1
  {
    if ps == [] then Accepted(outs)
    else
      match Accepts(|ps[0]|, outs, max)
      case Refused(left) => Refused(left)
      case Accepted(left) => AcceptsAll(ps[1..], left, max)
  }

  lemma {:induction false} TransmitAllAccepts(l: Link, ps: seq<bytes>, max: nat)
    requires max >= 1
    ensures var s, a := TransmitAll(l, ps, max), AcceptsAll(ps, l.outputs, max);
      (s.ok <==> a.Accepted?) && s.link == l.(outputs := a.left)
    decreases |ps|
  {
    if ps != [] {
      TransmitAccepts(l, ps[0], max);
      var s := Transmit(l, ps[0], max);
      if s.ok {
        TransmitAllAccepts(s.link, ps[1..], max);
      }
    }
  }

  // ----- USB reassembly -----

  datatype Status = NeedMore | Complete | Bad

  /** What ptpusb_read_all_packets makes of the bytes read so far; the sum wraps at 32 bits. */
  function StatusOf(b: bytes): Status {
    if |b| < 12 || |b| < U32At(b, 0) then NeedMore
    else if U16At(b, 4) == PACKET_TYPE_RESPONSE then Complete
    else if U16At(b, 4) != PACKET_TYPE_DATA then NeedMore
    else
      var length := U32At(b, 0);
      if length + 12 > |b| then NeedMore
      else if U16At(b, length + 4) != PACKET_TYPE_RESPONSE then Bad
      else
        var total := (U32At(b, length) + length) % 0x1_0000_0000;
        if |b| == total then Complete else if |b| > total then Bad else NeedMore
  }

  datatype Received = Received(code: int, got: bytes, link: Link)

  /**
   ptpusb_read_all_packets when b has been read, `wait` more failures are tolerated and
   `attempts` have been met. It ends on every endpoint, even one that stays silent for ever,
   if at least one failure is tolerated to begin with.
   */
  function Receive(b: bytes, l: Link, max: nat, wait: nat, attempts: nat): (r: Received)
    requires max >= 1 && l.tail <= 0 && wait + attempts >= 1
    ensures r.link.tail == l.tail && r.link.outputs == l.outputs
    decreases |l.incoming| + wait
  {
    var rc, l' := ReadSize(l, max), AfterRead(l, max);
    if rc <= 0 && wait > 0 then Receive(b, l', max, wait - 1, attempts + 1)
    else if rc < 0 then Received(IO_ERR, b, l')
    else
      var got := b + l.incoming[..rc];
      if wait == 0 && attempts > 0 then Received(COMMAND_IGNORED, got, l')
      else
        match StatusOf(got)
        case Complete => Received(OK, got, l')
        case Bad => Received(IO_ERR, got, l')
        case NeedMore => Receive(got, l', max, wait, attempts)
  }

  /** Nothing is lost, invented or reordered, and success means that the reply is complete. */
  lemma {:induction false} ReceiveConserves(b: bytes, l: Link, max: nat, wait: nat, attempts: nat)
    requires max >= 1 && l.tail <= 0 && wait + attempts >= 1
    ensures var r := Receive(b, l, max, wait, attempts);
      && r.got + r.link.incoming == b + l.incoming
      && r.code in {OK, IO_ERR, COMMAND_IGNORED}
      && (r.code == OK ==> StatusOf(r.got) == Complete)
    decreases |l.incoming| + wait
  {
    var rc, l' := ReadSize(l, max), AfterRead(l, max);
    if rc <= 0 && wait > 0 {
      ReceiveConserves(b, l', max, wait - 1, attempts + 1);
    } else if rc >= 0 {
      var got := b + l.incoming[..rc];
      assert l.incoming == l.incoming[..rc] + l.incoming[rc..];
      Assoc(b, l.incoming[..rc], l.incoming[rc..]);
      if !(wait == 0 && attempts > 0) && StatusOf(got) == NeedMore {
        ReceiveConserves(got, l', max, wait, attempts);
      }
    }
  }

  /** A complete reply has its response container inside: the accessors stay in bounds. */
  lemma CompleteInBounds(b: bytes)
    requires StatusOf(b) == Complete
    ensures |b| >= 12 && ResponseOffset(b) + 12 <= |b|
  {
  }

  /** A reply is complete with its last byte, and not before. */
  lemma ReplyStatus(t: bytes, k: nat)
    requires IsReply(t) && k <= |t|
    ensures StatusOf(t[..k]) == if k == |t| then Complete else NeedMore
  {
    var b := t[..k];
    assert t == b + t[k..];
    FieldsOfPrefix(b, t[k..], 0);
    FieldsOfPrefix(b, t[k..], 4);
    if !IsContainer(t, PACKET_TYPE_RESPONSE) {
      DataReplyFields(t);
      FieldsOfPrefix(b, t[k..], U32At(t, 0));
      FieldsOfPrefix(b, t[k..], U32At(t, 0) + 4);
    }
  }

  datatype Delivery = Delivered(fails: nat, left: seq<int>) | Short

  function OneMoreFailure(d: Delivery): Delivery {
    if d.Delivered? then d.(fails := d.fails + 1) else d
  }

  /** How the endpoint delivers n bytes: the empty and failed reads on the way, and what remains. */
  function Deliver(n: nat, inputs: seq<int>, max: nat): Delivery
    requires max >= 1
    decreases |inputs|
  {
    if n == 0 then Delivered(0, inputs)
    else if inputs == [] then Short
    else if inputs[0] <= 0 then OneMoreFailure(Deliver(n, inputs[1..], max))
    else Deliver(n - Min(inputs[0], Min(max, n)), inputs[1..], max)
  }

  lemma DeliverStep(l: Link, max: nat)
    requires max >= 1 && l.tail <= 0 && l.incoming != []
    ensures var rc, d, n := ReadSize(l, max), Deliver(|l.incoming|, l.inputs, max), |l.incoming|;
      && (rc > 0 ==> d == Deliver(n - rc, AfterRead(l, max).inputs, max))
      && (rc <= 0 && l.inputs != [] ==> d == OneMoreFailure(Deliver(n, AfterRead(l, max).inputs, max)))
      && (l.inputs == [] ==> rc <= 0 && d.Short? && AfterRead(l, max).inputs == [])
  {
  }

  /** p of the reply p + q has been read. */
  lemma {:induction false} Reassembles(p: bytes, q: bytes, l: Link, max: nat, wait: nat, attempts: nat)
    requires max >= 1 && l.tail <= 0 && wait + attempts >= 1
    requires IsReply(p + q) && q != [] && l.incoming == q
    ensures Reassembled(p, q, l, max, wait, attempts)
    decreases |q| + wait
  {
    var rc, l' := ReadSize(l, max), AfterRead(l, max);
    DeliverStep(l, max);
    if rc <= 0 && wait > 0 {
      Reassembles(p, q, l', max, wait - 1, attempts + 1);
    } else if rc > 0 && wait > 0 {
      var got, left := p + q[..rc], q[rc..];
      NextPiece(p, q, rc);
      if left != [] {
        Reassembles(got, left, l', max, wait, attempts);
      }
    }
  }

  ghost predicate Reassembled(p: bytes, q: bytes, l: Link, max: nat, wait: nat, attempts: nat)
    requires max >= 1 && l.tail <= 0 && wait + attempts >= 1
  {
    var r, d := Receive(p, l, max, wait, attempts), Deliver(|q|, l.inputs, max);
    && (r.code == OK <==> d.Delivered? && d.fails < wait)
    && (r.code == OK ==> r.got == p + q && r.link == Link([], d.left, l.tail, l.outputs))
  }

  lemma NextPiece(p: bytes, q: bytes, n: nat)
    requires IsReply(p + q) && n <= |q|
    ensures p + q == p + q[..n] + q[n..]
    ensures StatusOf(p + q[..n]) == if n == |q| then Complete else NeedMore
  {
    var got := p + q[..n];
    assert q == q[..n] + q[n..];
    Assoc(p, q[..n], q[n..]);
    assert (p + q)[..|got|] == got;
    ReplyStatus(p + q, |got|);
  }

  /**
   Reassembly does not depend on fragmentation: for every reply and every way to split it,
   reading succeeds if and only if the bytes arrive with fewer than W empty or failed reads
   between them, and then it stops at the last byte with exactly the reply in the buffer.
   */
  lemma FragmentationIndependent(t: bytes, inputs: seq<int>, tail: int, outputs: seq<int>, max: nat, W: nat)
    requires IsReply(t) && max >= 1 && W >= 1 && tail <= 0
    ensures var r, d := Receive([], Link(t, inputs, tail, outputs), max, W, 0), Deliver(|t|, inputs, max);
      && (r.code == 0 <==> d.Delivered? && d.fails < W)
      && (r.code == 0 ==> r.got == t && r.link == Link([], d.left, tail, outputs))
      && r.code == Verdict(|t|, inputs, tail, max, W)
  {
    assert [] + t == t;
    VerdictIs([], t, Link(t, inputs, tail, outputs), max, W, 0);
    Reassembles([], t, Link(t, inputs, tail, outputs), max, W, 0);
  }

  /** Reads that together deliver n bytes and no more, none of them empty. */
  predicate Splits(chunks: seq<int>, n: nat, max: nat) {
    if chunks == [] then n == 0
    else 0 < chunks[0] <= max && chunks[0] <= n && Splits(chunks[1..], n - chunks[0], max)
  }

  lemma Cut(q: bytes, rest: bytes, n: nat)
    requires n <= |q|
    ensures (q + rest)[..n] == q[..n] && (q + rest)[n..] == q[n..] + rest
  {
    assert q + rest == q[..n] + (q[n..] + rest);
  }

  /**
   p + q, of which p has been read, in front of what else the device has sent. The text is of
   a kind whose beginnings shorter than `limit` bytes leave the loop waiting, and only the
   last read reaches that far. Then the whole text decides.
   */
  lemma {:induction false} QueuedText(p: bytes, q: bytes, rest: bytes, chunks: seq<int>, more: seq<int>, tail: int,
                                      outs: seq<int>, max: nat, wait: nat, limit: nat)
    requires max >= 1 && tail <= 0 && wait >= 1 && chunks != [] && Splits(chunks, |q|, max)
    requires |p + q| - chunks[|chunks| - 1] < limit <= |p + q|
    requires forall k :: |p| <= k < limit ==> StatusOf((p + q)[..k]) == NeedMore
    requires StatusOf(p + q) != NeedMore
    ensures Receive(p, Link(q + rest, chunks + more, tail, outs), max, wait, 0)
         == Received(if StatusOf(p + q) == Complete then OK else IO_ERR, p + q, Link(rest, more, tail, outs))
    decreases |chunks|
  {
    var n, l := chunks[0], Link(q + rest, chunks + more, tail, outs);
    Cut(q, rest, n);
    assert (chunks + more)[1..] == chunks[1..] + more;
    assert ReadSize(l, max) == n && AfterRead(l, max) == Link(q[n..] + rest, chunks[1..] + more, tail, outs);
    var got, left := p + q[..n], q[n..];
    assert q == q[..n] + left;
    Assoc(p, q[..n], left);
    if |chunks| > 1 {
      SplitsEnd(chunks[1..], |left|, max);
      assert got == (p + q)[..|got|];
      QueuedText(got, left, rest, chunks[1..], more, tail, outs, max, wait, limit);
    } else {
      assert left == [] && [] + more == more && left + rest == rest && got == p + q;
    }
  }

  /** The last of the reads delivers no more than all of them. */
  lemma {:induction false} SplitsEnd(chunks: seq<int>, n: nat, max: nat)
    requires chunks != [] && Splits(chunks, n, max)
    ensures 0 < chunks[|chunks| - 1] <= n
  {
    if |chunks| > 1 {
      SplitsEnd(chunks[1..], n - chunks[0], max);
    }
  }

  lemma WaitsForAll(t: bytes)
    requires IsReply(t)
    ensures forall k :: 0 <= k < |t| ==> StatusOf(t[..k]) == NeedMore
    ensures StatusOf(t) == Complete
  {
    forall k | 0 <= k < |t| ensures StatusOf(t[..k]) == NeedMore {
      ReplyStatus(t, k);
    }
    ReplyStatus(t, |t|);
    assert t[..|t|] == t;
  }

  /** A reply in front of what else the device has sent is read exactly, if no read crosses its end. */
  lemma QueuedReply(t: bytes, rest: bytes, chunks: seq<int>, more: seq<int>, tail: int, outs: seq<int>, max: nat, wait: nat)
    requires max >= 1 && tail <= 0 && wait >= 1 && IsReply(t) && Splits(chunks, |t|, max)
    ensures Receive([], Link(t + rest, chunks + more, tail, outs), max, wait, 0)
         == Received(OK, t, Link(rest, more, tail, outs))
  {
    WaitsForAll(t);
    SplitsEnd(chunks, |t|, max);
    assert [] + t == t;
    QueuedText([], t, rest, chunks, more, tail, outs, max, wait, |t|);
  }

  /**
   A last read that crosses the end of the reply, by the bytes `surplus`: behind a data phase
   it is an I/O error, but behind a response alone nothing is noticed.
   */
  lemma SurplusRead(t: bytes, surplus: bytes, chunks: seq<int>, tail: int, outs: seq<int>, max: nat, wait: nat)
    requires max >= 1 && tail <= 0 && wait >= 1 && IsReply(t) && surplus != [] && |t + surplus| < 0x8000_0000
    requires chunks != [] && Splits(chunks, |t + surplus|, max) && |surplus| < chunks[|chunks| - 1]
    ensures Receive([], Link(t + surplus, chunks, tail, outs), max, wait, 0)
         == Received(if IsDataReply(t) && !IsContainer(t, 3) then -5 else 0, t + surplus, Link([], [], tail, outs))
  {
    WaitsForAll(t);
    var u := t + surplus;
    forall k | 0 <= k < |t| ensures StatusOf(u[..k]) == NeedMore {
      assert u[..k] == t[..k];
    }
    SurplusStatus(t, surplus);
    assert [] + u == u && u + [] == u && chunks + [] == chunks;
    QueuedText([], u, [], chunks, [], tail, outs, max, wait, |t|);
  }

  lemma SurplusStatus(t: bytes, surplus: bytes)
    requires IsReply(t) && surplus != [] && |t + surplus| < 0x8000_0000
    ensures StatusOf(t + surplus) == if IsDataReply(t) && !IsContainer(t, 3) then Bad else Complete
  {
    FieldsOfPrefix(t, surplus, 0);
    FieldsOfPrefix(t, surplus, 4);
    if !IsContainer(t, 3) {
      DataReplyFields(t);
      FieldsOfPrefix(t, surplus, U32At(t, 0));
      FieldsOfPrefix(t, surplus, U32At(t, 0) + 4);
    }
  }

  /** A data container d and 12 bytes x that are no response. */
  predicate IsBadReply(d: bytes, x: bytes) {
    IsContainer(d, 2) && |x| == 12 && U16At(x, 4) != 3 && |d| + 12 < 0x8000_0000
  }

  lemma BadStatus(d: bytes, x: bytes, k: nat)
    requires IsBadReply(d, x) && k <= |d + x|
    ensures StatusOf((d + x)[..k]) == if k == |d + x| then Bad else NeedMore
  {
    var t, b := d + x, (d + x)[..k];
    assert t == b + t[k..];
    FieldsOfPrefix(d, x, 0);
    FieldsOfPrefix(d, x, 4);
    FieldsOfSuffix(d, x, 4);
    FieldsOfPrefix(b, t[k..], 0);
    FieldsOfPrefix(b, t[k..], 4);
    FieldsOfPrefix(b, t[k..], |d| + 4);
  }

  /** Behind a data container anything but a response is an I/O error, as soon as its type is there. */
  lemma BadContainerRead(d: bytes, x: bytes, rest: bytes, chunks: seq<int>, more: seq<int>, tail: int, outs: seq<int>,
                         max: nat, wait: nat)
    requires max >= 1 && tail <= 0 && wait >= 1 && IsBadReply(d, x) && Splits(chunks, |d + x|, max)
    ensures Receive([], Link(d + x + rest, chunks + more, tail, outs), max, wait, 0)
         == Received(-5, d + x, Link(rest, more, tail, outs))
  {
    var t := d + x;
    forall k | 0 <= k < |t| ensures StatusOf(t[..k]) == NeedMore {
      BadStatus(d, x, k);
    }
    BadStatus(d, x, |t|);
    SplitsEnd(chunks, |t|, max);
    assert [] + t == t && t[..|t|] == t;
    QueuedText([], t, rest, chunks, more, tail, outs, max, wait, |t|);
  }

  /** A response at the start, or right behind a data container, where it ends the buffer. */
  predicate HoldsResponse(b: bytes) {
    && |b| >= 12
    && if U16At(b, 4) == 3 then U32At(b, 0) <= |b|
       else
         && U16At(b, 4) == 2 && U32At(b, 0) + 12 <= |b| && U16At(b, U32At(b, 0) + 4) == 3
         && (U32At(b, 0) + U32At(b, U32At(b, 0))) % 0x1_0000_0000 == |b|
  }

  lemma CompleteHolds(b: bytes)
    ensures StatusOf(b) == Complete <==> HoldsResponse(b)
  {
  }

  /** Whatever was sent and however it was split, success leaves a response in the buffer. */
  lemma SuccessIsResponse(l: Link, max: nat, wait: nat)
    requires max >= 1 && l.tail <= 0 && wait >= 1 && Receive([], l, max, wait, 0).code == 0
    ensures Receive([], l, max, wait, 0).got <= l.incoming
    ensures HoldsResponse(Receive([], l, max, wait, 0).got)
  {
    ReceiveConserves([], l, max, wait, 0);
    assert [] + l.incoming == l.incoming;
    CompleteHolds(Receive([], l, max, wait, 0).got);
  }

  // ----- Which failure it is -----

  /**
   The result for a reply of which n bytes are still to come. After `wait` empty or failed
   reads the next one decides: -5 if it fails, and otherwise -10, a command that counts as
   ignored, even if it brings the rest of the reply.
   */
  function Verdict(n: nat, inputs: seq<int>, tail: int, max: nat, wait: nat): int
    requires max >= 1 && tail <= 0
    decreases |inputs| + wait
  {
    var e, left := if inputs == [] then tail else inputs[0], if inputs == [] then [] else inputs[1..];
    if n == 0 then 0
    else if wait == 0 then if e < 0 then -5 else -10
    else if e <= 0 then Verdict(n, left, tail, max, wait - 1)
    else Verdict(n - Min(e, Min(max, n)), left, tail, max, wait)
  }

  lemma {:induction false} VerdictIs(p: bytes, q: bytes, l: Link, max: nat, wait: nat, attempts: nat)
    requires max >= 1 && l.tail <= 0 && wait + attempts >= 1
    requires IsReply(p + q) && q != [] && l.incoming == q
    ensures Receive(p, l, max, wait, attempts).code == Verdict(|q|, l.inputs, l.tail, max, wait)
    decreases |q| + wait
  {
    var rc, l' := ReadSize(l, max), AfterRead(l, max);
    if rc <= 0 && wait > 0 {
      VerdictIs(p, q, l', max, wait - 1, attempts + 1);
    } else if rc > 0 && wait > 0 {
      NextPiece(p, q, rc);
      if q[rc..] != [] {
        VerdictIs(p + q[..rc], q[rc..], l', max, wait, attempts);
      }
    }
  }

  /** Reads that deliver nothing. */
  predicate Idle(ins: seq<int>) {
    forall i :: 0 <= i < |ins| ==> ins[i] <= 0
  }

  /** As many idle reads as are tolerated, and then an empty or a failed one: nothing has been read. */
  lemma {:induction false} SilenceDecides(l: Link, idle: seq<int>, e: int, left: seq<int>, max: nat, wait: nat, attempts: nat)
    requires max >= 1 && l.tail <= 0 && wait + attempts >= 1 && Idle(idle) && |idle| == wait && e <= 0
    requires l.inputs == idle + [e] + left
    ensures Receive([], l, max, wait, attempts) == Received(if e < 0 then -5 else -10, [], l.(inputs := left))
    decreases wait
  {
    assert l.incoming[0..] == l.incoming && [] + l.incoming[..0] == [];
    if wait > 0 {
      assert l.inputs[1..] == idle[1..] + [e] + left;
      SilenceDecides(l.(inputs := l.inputs[1..]), idle[1..], e, left, max, wait - 1, attempts + 1);
    } else {
      assert l.inputs == [e] + left && l.inputs[1..] == left;
    }
  }

  // ----- No patience -----

  /** What a round of the loop adds when no failure is tolerated, and whether the loop goes on after it. */
  function Chunk(l: Link, max: nat): bytes
    requires l.tail <= 0
  {
    l.incoming[..Count(ReadSize(l, max))]
  }

  predicate GoesOn(b: bytes, l: Link, max: nat)
    requires l.tail <= 0
  {
    ReadSize(l, max) >= 0 && StatusOf(b + Chunk(l, max)) == NeedMore
  }

  /** ptpusb_read_all_packets with wait_for_response 0 ends within k rounds. */
  predicate EndsWithin(b: bytes, l: Link, max: nat, k: nat)
    requires l.tail <= 0
    decreases k
  {
    k > 0 && (!GoesOn(b, l, max) || EndsWithin(b + Chunk(l, max), AfterRead(l, max), max, k - 1))
  }

  lemma {:induction false} SilenceIsEndless(b: bytes, l: Link, max: nat, k: nat)
    requires l.inputs == [] && l.tail == 0 && StatusOf(b) == NeedMore
    ensures !EndsWithin(b, l, max, k)
    decreases k
  {
    if k > 0 {
      assert b + Chunk(l, max) == b && AfterRead(l, max) == l;
      SilenceIsEndless(b, l, max, k - 1);
    }
  }

  /** A round with a read that does not fail: the loop goes on until the last byte. */
  lemma Round(p: bytes, q: bytes, l: Link, max: nat)
    requires l.tail <= 0 && IsReply(p + q) && l.incoming == q && l.inputs != [] && l.inputs[0] >= 0
    ensures var rc := ReadSize(l, max);
      && 0 <= rc <= |q| && Chunk(l, max) == q[..rc] && p + q == p + q[..rc] + q[rc..]
      && (GoesOn(p, l, max) <==> rc < |q|)
  {
    NextPiece(p, q, ReadSize(l, max));
  }

  /**
   With no failure tolerated, on an endpoint whose reads do not fail and that falls silent at
   last, the loop ends if and only if the whole reply is delivered before. Otherwise it turns
   for ever: no number of rounds is enough.
   */
  lemma {:induction false} ImpatienceIsEndless(p: bytes, q: bytes, l: Link, max: nat, k: nat)
    requires max >= 1 && l.tail == 0 && IsReply(p + q) && q != [] && l.incoming == q
    requires forall i :: 0 <= i < |l.inputs| ==> l.inputs[i] >= 0
    ensures Deliver(|q|, l.inputs, max).Delivered? && k >= |l.inputs| ==> EndsWithin(p, l, max, k)
    ensures Deliver(|q|, l.inputs, max).Short? ==> !EndsWithin(p, l, max, k)
    decreases k
  {
    if l.inputs == [] {
      NextPiece(p, q, 0);
      assert p + q[..0] == p;
      SilenceIsEndless(p, l, max, k);
    } else if k > 0 {
      var rc := ReadSize(l, max);
      DeliverStep(l, max);
      Round(p, q, l, max);
      if rc < |q| {
        ImpatienceIsEndless(p + q[..rc], q[rc..], AfterRead(l, max), max, k - 1);
      }
    }
  }
}
