/** Operations of src/operations.c that read a reply: arrays of handles, and downloads. */
module Operations {
  import opened Octets
  import opened Packets
  import opened Transport
  import opened Transactions
  import opened Runtime

  const OC_GET_STORAGE_IDS: u16 := 0x1004
  const OC_GET_PARTIAL_OBJECT: u16 := 0x101B

  // ----- Arrays -----

  /** An array dataset: a count and as many words. */
  function WriteArray(xs: seq<u32>): bytes
    requires |xs| < 0x1_0000_0000
  {
    WriteU32(|xs|) + Params(xs)
  }

  /** The payload holds as many words as it says; dup_uint_array does not check. */
  predicate HoldsArray(b: bytes) {
    |b| >= 4 && 4 + 4 * U32At(b, 0) <= |b|
  }

  /** dup_uint_array */
  method DupUintArray(buf: bytes) returns (dup: array<u32>)
    requires HoldsArray(buf)
    ensures fresh(dup) && dup.Length == U32At(buf, 0)
    ensures forall i :: 0 <= i < dup.Length ==> dup[i] == U32At(buf, 4 + 4 * i)
  {
    var length: nat := U32At(buf, 0);
    dup := new u32[length];
    var of := 4;
    for i := 0 to length
      invariant of == 4 + 4 * i
      invariant forall j :: 0 <= j < i ==> dup[j] == U32At(buf, 4 + 4 * j)
    {
      dup[i] := U32At(buf, of);
      of := of + 4;
    }
  }

  /** A written array is found again, whatever follows it. */
  lemma ArrayRoundTrip(xs: seq<u32>, rest: bytes, i: nat)
    requires |xs| < 0x1_0000_0000
    ensures HoldsArray(WriteArray(xs) + rest) && U32At(WriteArray(xs) + rest, 0) == |xs|
    ensures i < |xs| ==> U32At(WriteArray(xs) + rest, 4 + 4 * i) == xs[i]
  {
    var head, tail := WriteU32(|xs|), Params(xs) + rest;
    Assoc(head, Params(xs), rest);
    U32AtIn([], |xs|, tail);
    assert [] + head + tail == head + tail;
    if i < |xs| {
      ParamAt(xs, i);
      FieldsOfPrefix(Params(xs), rest, 4 * i);
      FieldsOfSuffix(head, tail, 4 * i);
    }
  }

  /**
   ptp_get_storage_ids: the lock is held from before the command is sent until the reply has
   been copied, and it is given back on both paths.
   */
  method GetStorageIds(r: PtpRuntime) returns (rc: int, ids: array?<u32>, ghost rep: Report)
    requires r.Valid() && !r.connection.PtpIp?
    requires var x := Call(r.Now(), [CommandPacket(Command(0x1004, []), Word(r.transaction))], r.Cfg()).1;
      x.rc == OK && x.completed ==> |x.reply| >= 12 && HoldsArray(x.reply[12..])
    modifies r, r.data, r.endpoint
    ensures r.Valid() && r.locks == old(r.locks)
    ensures (r.Now(), rep)
         == Call(old(r.Now()), [CommandPacket(Command(0x1004, []), Word(old(r.transaction)))], r.Cfg())
    ensures rc == rep.rc && (rc == OK <==> ids != null)
    ensures ids != null ==>
      && |rep.reply| >= 12 && HoldsArray(rep.reply[12..]) && ids.Length == U32At(rep.reply[12..], 0)
      && forall i :: 0 <= i < ids.Length ==> ids[i] == U32At(rep.reply[12..], 4 + 4 * i)
  {
    CallKeeps(r.Now(), [CommandPacket(Command(0x1004, []), Word(r.transaction))], r.Cfg());
    r.locks := r.locks + 1;
    rc, rep := r.Send(Command(OC_GET_STORAGE_IDS, []));
    if rc != OK {
      r.locks := r.locks - 1;
      return rc, null, rep;
    }
    ghost var reply := rep.reply;
    assert r.data[..|reply|] == reply;
    ids := CopyArray(r, reply);
    r.locks := r.locks - 1;
  }

  /** The payload of the reply in the buffer, copied. */
  method CopyArray(r: PtpRuntime, ghost reply: bytes) returns (ids: array<u32>)
    requires 12 <= |reply| <= r.data.Length && r.data[..|reply|] == reply && HoldsArray(reply[12..])
    ensures fresh(ids) && ids.Length == U32At(reply[12..], 0)
    ensures forall i :: 0 <= i < ids.Length ==> ids[i] == U32At(reply[12..], 4 + 4 * i)
  {
    ghost var junk := r.data[|reply|..];
    assert r.data[12..] == reply[12..] + junk;
    FieldsOfPrefix(reply[12..], junk, 0);
    ids := DupUintArray(r.data[12..]);
    forall i | 0 <= i < ids.Length ensures ids[i] == U32At(reply[12..], 4 + 4 * i) {
      FieldsOfPrefix(reply[12..], junk, 4 + 4 * i);
    }
  }

  // ----- Downloads -----

  /** The longest payload of a container whose length fits a C int. */
  const MAX_PAYLOAD := 0x7FFF_FFF3

  /** The reply to GetPartialObject that carries a piece. */
  function PieceReply(piece: bytes, transaction: u32): bytes
    requires |piece| <= MAX_PAYLOAD
  {
    Container(PACKET_TYPE_DATA, OC_GET_PARTIAL_OBJECT, transaction, piece)
    + Container(PACKET_TYPE_RESPONSE, RC_OK, transaction, [])
  }

  lemma PieceFound(piece: bytes, transaction: u32, junk: bytes)
    requires |piece| <= MAX_PAYLOAD
    ensures var b := PieceReply(piece, transaction) + junk;
      && |b| >= 12 && PayloadOffset(b) == 12 && PayloadLength(b) == |piece|
      && b[12..12 + |piece|] == piece
  {
    ContainerFields(PACKET_TYPE_DATA, OC_GET_PARTIAL_OBJECT, transaction, piece);
    ContainerFields(PACKET_TYPE_RESPONSE, RC_OK, transaction, []);
    AccessorsAfterData(Container(PACKET_TYPE_DATA, OC_GET_PARTIAL_OBJECT, transaction, piece),
                       Container(PACKET_TYPE_RESPONSE, RC_OK, transaction, []), junk);
  }

  /** What a device serves of its content. */
  function Piece(content: bytes, offset: nat, max: nat): bytes
    requires offset <= |content|
  {
    content[offset..Min(offset + max, |content|)]
  }

  /** Where the k-th piece starts. */
  function Offset(k: nat, max: nat): nat {
    k * max
  }

  lemma NextOffset(k: nat, max: nat)
    ensures Offset(k + 1, max) == Offset(k, max) + max
  {
  }

  /** What the first k pieces are together. */
  function FirstPieces(content: bytes, k: nat, max: nat): bytes {
    if Offset(k, max) <= |content| then content[..Offset(k, max)] else content
  }

  /** The requests of a download: the k-th asks for max bytes from k * max on. */
  datatype Transfer = Transfer(handle: u32, max: nat, cfg: Config)

  function PartialObject(handle: u32, offset: nat, max: nat): Command {
    Command(OC_GET_PARTIAL_OBJECT, [handle, Word(offset), Word(max)])
  }

  /** The k-th request, as one call of the specification. */
  function RequestFrom(s: State, x: Transfer, k: nat): (r: (State, Report))
    requires ValidConfig(x.cfg) && ValidState(s)
    ensures ValidState(r.0)
  {
    Call(s, [CommandPacket(PartialObject(x.handle, Offset(k, x.max), x.max), Word(s.transaction))], x.cfg)
  }

  /** The k-th request leads from s to s' with the report rep. */
  predicate Asks(x: Transfer, k: nat, s: State, s': State, rep: Report)
    requires ValidConfig(x.cfg)
  {
    ValidState(s) && RequestFrom(s, x, k) == (s', rep)
  }

  /** The first requests of a download: request k leads from the state k to the state k + 1. */
  ghost predicate IsTransfer(x: Transfer, ss: seq<State>, rs: seq<Report>) {
    && ValidConfig(x.cfg) && |ss| == |rs| + 1 && ValidState(ss[|rs|])
    && forall k {:trigger Asks(x, k, ss[k], ss[k + 1], rs[k])} ::
         0 <= k < |rs| ==> Asks(x, k, ss[k], ss[k + 1], rs[k])
  }

  ghost predicate Spans(x: Transfer, ss: seq<State>, rs: seq<Report>, s: State, s': State) {
    IsTransfer(x, ss, rs) && ss[0] == s && ss[|rs|] == s'
  }

  /** All requests but the last one have succeeded, and rc is the result of the last. */
  predicate Stops(rs: seq<Report>, rc: int) {
    rs != [] && AllOk(rs[..|rs| - 1]) && rc == rs[|rs| - 1].rc
  }

  predicate AllOk(rs: seq<Report>) {
    forall k :: 0 <= k < |rs| ==> rs[k].rc == OK
  }

  /** All that the requests put on the wire. */
  function WireOf(rs: seq<Report>): bytes {
    if rs == [] then [] else WireOf(rs[..|rs| - 1]) + Join(rs[|rs| - 1].attempts)
  }

  ghost predicate IsPieceReply(reply: bytes, piece: bytes) {
    |piece| <= MAX_PAYLOAD && exists t: u32 :: reply == PieceReply(piece, t)
  }

  /** The last attempt of a call. */
  function LastSent(rep: Report): bytes {
    if rep.attempts == [] then [] else rep.attempts[|rep.attempts| - 1]
  }

  /**
   What the device answers to the bytes `a` of a GetPartialObject with three parameters: it
   reads from them which object is meant, from where on, and how much of it.
   */
  ghost predicate IsAnswer(reply: bytes, content: bytes, handle: u32, a: bytes) {
    |a| == 24 && U16At(a, 6) == 0x101B && U32At(a, 12) == handle && U32At(a, 16) <= |content| ==>
      IsPieceReply(reply, Piece(content, U32At(a, 16), U32At(a, 20)))
  }

  /** As long as requests within the content succeed they are answered by what they say. */
  ghost predicate Serves(s: State, x: Transfer, content: bytes) {
    forall ss: seq<State>, rs: seq<Report> ::
      IsTransfer(x, ss, rs) && ss[0] == s && rs != [] && AllOk(rs) && Offset(|rs| - 1, x.max) <= |content| ==>
        IsAnswer(rs[|rs| - 1].reply, content, x.handle, LastSent(rs[|rs| - 1]))
  }

  /** The words of a request as they lie on the wire. */
  predicate IsRequest(a: bytes, handle: u32, offset: nat, max: nat) {
    && |a| == 24 && U32At(a, 0) == 24 && U16At(a, 4) == 1 && U16At(a, 6) == 0x101B && U32At(a, 12) == handle
    && U32At(a, 16) == offset % 0x1_0000_0000 && U32At(a, 20) == max % 0x1_0000_0000
  }

  lemma RequestWords(handle: u32, offset: nat, max: nat, transaction: u32)
    ensures IsRequest(CommandPacket(PartialObject(handle, offset, max), transaction), handle, offset, max)
  {
    var cmd := PartialObject(handle, offset, max);
    CommandOnWire(cmd, transaction);
    var b := CommandPacket(cmd, transaction);
    assert U32At(b, 12 + 4 * 0) == cmd.params[0] && U32At(b, 12 + 4 * 1) == cmd.params[1] && U32At(b, 12 + 4 * 2) == cmd.params[2];
  }

  /** What every attempt of the k-th request puts on the wire, if it is sent wholly. */
  lemma RequestOnWire(x: Transfer, k: nat, s: State, s': State, rep: Report, i: nat)
    requires ValidConfig(x.cfg) && Asks(x, k, s, s', rep) && i < |rep.attempts| && |rep.attempts[i]| >= 24
    ensures IsRequest(rep.attempts[i], x.handle, Offset(k, x.max), x.max)
  {
    var p := CommandPacket(PartialObject(x.handle, Offset(k, x.max), x.max), Word(s.transaction));
    RequestWords(x.handle, Offset(k, x.max), x.max, Word(s.transaction));
    CallKeeps(s, [p], x.cfg);
    JoinOne(p);
    assert rep.attempts[i] <= p;
    assert rep.attempts[i] == p;
  }

  /** In a download, request k asks for max bytes of the object from k * max on. */
  lemma RequestsOnWire(x: Transfer, ss: seq<State>, rs: seq<Report>, k: nat, i: nat)
    requires IsTransfer(x, ss, rs) && k < |rs| && i < |rs[k].attempts| && |rs[k].attempts[i]| >= 24
    ensures IsRequest(rs[k].attempts[i], x.handle, k * x.max, x.max)
  {
    assert Asks(x, k, ss[k], ss[k + 1], rs[k]);
    RequestOnWire(x, k, ss[k], ss[k + 1], rs[k], i);
  }

  lemma LastRequest(x: Transfer, k: nat, s: State, s': State, rep: Report)
    requires ValidConfig(x.cfg) && Asks(x, k, s, s', rep) && rep.rc == OK
    ensures IsRequest(LastSent(rep), x.handle, Offset(k, x.max), x.max)
  {
    var p := CommandPacket(PartialObject(x.handle, Offset(k, x.max), x.max), Word(s.transaction));
    CallKeeps(s, [p], x.cfg);
    JoinOne(p);
    RequestOnWire(x, k, s, s', rep, |rep.attempts| - 1);
  }

  /** An answer to the bytes of a request for a piece is the piece. */
  lemma AnswerIsPiece(reply: bytes, content: bytes, handle: u32, a: bytes, offset: nat, max: nat)
    requires IsRequest(a, handle, offset, max) && offset <= |content| < 0x8000_0000 && max < 0x8000_0000
    ensures IsAnswer(reply, content, handle, a) <==> IsPieceReply(reply, Piece(content, offset, max))
  {
    assert offset % 0x1_0000_0000 == offset && max % 0x1_0000_0000 == max;
  }

  class File {
    var contents: bytes
    var closed: bool

    constructor ()
      ensures contents == [] && !closed
    {
      contents, closed := [], false;
    }
  }

  /**
   ptp_download_object, on the runtime itself. From a device that serves a content the file
   receives exactly the content, in size / max + 1 requests; if one of them fails it receives
   what the requests before it brought, and nothing else. The lock is given back on every
   path, and the file is closed only when the last piece is empty.
   */
  method Download(r: PtpRuntime, handle: u32, max: nat, file: File, ghost content: bytes)
    returns (rc: int, ghost ss: seq<State>, ghost rs: seq<Report>)
    requires r.Valid() && !r.connection.PtpIp? && !file.closed
    requires |content| < 0x8000_0000 && 0 < max < 0x8000_0000
    requires Serves(r.Now(), Transfer(handle, max, r.Cfg()), content)
    modifies r, r.data, r.endpoint, file
    ensures r.Valid() && r.locks == old(r.locks)
    ensures Spans(Transfer(handle, max, r.Cfg()), ss, rs, old(r.Now()), r.Now())
    ensures r.endpoint.wire == old(r.endpoint.wire) + WireOf(rs)
    ensures Stops(rs, rc) && |rs| <= |content| / max + 1
    ensures rc == OK ==> |rs| == |content| / max + 1 && file.closed == (|content| % max == 0)
    ensures rc != OK ==> !file.closed
    ensures file.contents == old(file.contents) + if rc == OK then content else FirstPieces(content, |rs| - 1, max)
  {
    ghost var x, before, wire := Transfer(handle, max, r.Cfg()), file.contents, r.endpoint.wire;
    var read := 0;
    ss, rs := [r.Now()], [];
    assert content[..0] == [] && before + [] == before && wire + [] == wire;
    while true
      invariant r.Valid() && r.locks == old(r.locks) && (r.data == old(r.data) || fresh(r.data))
      invariant read == Offset(|rs|, max) <= |content| && !file.closed && file.contents == before + FirstPieces(content, |rs|, max)
      invariant Spans(x, ss, rs, old(r.Now()), r.Now()) && AllOk(rs)
      invariant r.endpoint.wire == wire + WireOf(rs)
      decreases |content| - read
    {
      ghost var k := |rs|;
      NextOrLast(content, k, max);
      var partialLen;
      ghost var rep;
      rc, partialLen, rep := DownloadPiece(r, handle, read, max, file, content, x, ss, rs);
      WireGrows(wire, rs, rep);
      ss, rs := ss + [r.Now()], rs + [rep];
      assert |rs| == k + 1 && |rs| - 1 == k;
      if rc != OK {
        return;
      }
      NextPieceWritten(before, content, k, max);
      if partialLen != max {
        return;
      }
      read := read + partialLen;
    }
  }

  lemma WireGrows(wire: bytes, rs: seq<Report>, rep: Report)
    ensures wire + WireOf(rs) + Join(rep.attempts) == wire + WireOf(rs + [rep])
    ensures (rs + [rep])[..|rs|] == rs
  {
    assert (rs + [rep])[..|rs|] == rs;
    Assoc(wire, WireOf(rs), Join(rep.attempts));
  }

  lemma NextPieceWritten(before: bytes, content: bytes, k: nat, max: nat)
    requires Offset(k, max) <= |content|
    ensures before + FirstPieces(content, k, max) + Piece(content, Offset(k, max), max)
         == before + FirstPieces(content, k + 1, max)
  {
    var read := Offset(k, max);
    NextOffset(k, max);
    Assoc(before, content[..read], Piece(content, read, max));
    assert content[..read] + Piece(content, read, max) == FirstPieces(content, k + 1, max);
  }

  lemma TransferGrows(x: Transfer, ss: seq<State>, rs: seq<Report>, s': State, rep: Report)
    requires IsTransfer(x, ss, rs) && Asks(x, |rs|, ss[|rs|], s', rep) && ValidState(s')
    ensures IsTransfer(x, ss + [s'], rs + [rep])
  {
    var ss', rs' := ss + [s'], rs + [rep];
    forall k | 0 <= k < |rs'| ensures Asks(x, k, ss'[k], ss'[k + 1], rs'[k]) {
      if k < |rs| {
        assert Asks(x, k, ss[k], ss[k + 1], rs[k]);
      }
    }
  }

  /** One more request of a download; if it succeeds too it brings the next piece. */
  lemma NextRequest(x: Transfer, content: bytes, ss: seq<State>, rs: seq<Report>, s': State, rep: Report)
    requires IsTransfer(x, ss, rs) && Asks(x, |rs|, ss[|rs|], s', rep) && ValidState(s')
    requires Serves(ss[0], x, content) && AllOk(rs)
    requires Offset(|rs|, x.max) <= |content| < 0x8000_0000 && x.max < 0x8000_0000
    ensures IsTransfer(x, ss + [s'], rs + [rep])
    ensures rep.rc == OK ==> IsPieceReply(rep.reply, Piece(content, Offset(|rs|, x.max), x.max))
  {
    var ss', rs' := ss + [s'], rs + [rep];
    TransferGrows(x, ss, rs, s', rep);
    assert ss'[0] == ss[0] && |rs'| - 1 == |rs| && rs'[|rs|] == rep;
    if rep.rc == OK {
      assert AllOk(rs');
      LastRequest(x, |rs|, ss[|rs|], s', rep);
      AnswerIsPiece(rep.reply, content, x.handle, LastSent(rep), Offset(|rs|, x.max), x.max);
    }
  }

  /** ptp_get_partial_object */
  method GetPartialObject(r: PtpRuntime, handle: u32, offset: nat, max: nat) returns (rc: int, ghost rep: Report)
    requires r.Valid() && !r.connection.PtpIp?
    modifies r, r.data, r.endpoint
    ensures r.Valid() && r.locks == old(r.locks) && (r.data == old(r.data) || fresh(r.data))
    ensures (r.Now(), rep)
         == Call(old(r.Now()), [CommandPacket(PartialObject(handle, offset, max), Word(old(r.transaction)))], r.Cfg())
    ensures rc == rep.rc && r.endpoint.wire == old(r.endpoint.wire) + Join(rep.attempts)
    ensures rc == OK ==> |rep.reply| <= r.data.Length && r.data[..|rep.reply|] == rep.reply
  {
    CallKeeps(r.Now(), [CommandPacket(PartialObject(handle, offset, max), Word(r.transaction))], r.Cfg());
    rc, rep := r.Send(PartialObject(handle, offset, max));
  }

  /** One round of the loop, from taking the lock to giving it back. */
  method DownloadPiece(r: PtpRuntime, handle: u32, read: nat, max: nat, file: File, ghost content: bytes,
                       ghost x: Transfer, ghost ss: seq<State>, ghost rs: seq<Report>)
    returns (rc: int, partialLen: nat, ghost rep: Report)
    requires r.Valid() && !r.connection.PtpIp? && !file.closed && x == Transfer(handle, max, r.Cfg())
    requires read == Offset(|rs|, max) <= |content| < 0x8000_0000 && max < 0x8000_0000
    requires IsTransfer(x, ss, rs) && ss[|rs|] == r.Now() && AllOk(rs) && Serves(ss[0], x, content)
    modifies r, r.data, r.endpoint, file
    ensures r.Valid() && r.locks == old(r.locks) && (r.data == old(r.data) || fresh(r.data))
    ensures IsTransfer(x, ss + [r.Now()], rs + [rep]) && rc == rep.rc
    ensures r.endpoint.wire == old(r.endpoint.wire) + Join(rep.attempts)
    ensures rc != OK ==> file.contents == old(file.contents) && !file.closed
    ensures rc == OK ==> partialLen == |Piece(content, read, max)| && file.closed == (partialLen == 0)
    ensures rc == OK ==> file.contents == old(file.contents) + Piece(content, read, max)
  {
    partialLen := 0;
    r.locks := r.locks + 1;
    rc, rep := GetPartialObject(r, handle, read, max);
    NextRequest(x, content, ss, rs, r.Now(), rep);
    if rc != OK {
      r.locks := r.locks - 1;
      return;
    }
    partialLen := TakePiece(r.data, file, Piece(content, read, max), rep.reply);
    r.locks := r.locks - 1;
  }

  /** The payload of the reply in the buffer goes to the file; an empty one closes it. */
  method TakePiece(data: array<byte>, file: File, ghost piece: bytes, ghost reply: bytes) returns (partialLen: nat)
    requires IsPieceReply(reply, piece) && !file.closed
    requires |reply| <= data.Length && data[..|reply|] == reply
    modifies file
    ensures partialLen == |piece| && file.contents == old(file.contents) + piece && file.closed == (partialLen == 0)
  {
    ghost var t: u32 :| reply == PieceReply(piece, t);
    assert data[..] == reply + data[|reply|..];
    PieceFound(piece, t, data[|reply|..]);
    partialLen := PayloadLength(data[..]);
    if partialLen == 0 {
      file.closed := true;
      return;
    }
    file.contents := file.contents + data[..][PayloadOffset(data[..])..PayloadOffset(data[..]) + partialLen];
  }

  lemma PieceIsReply(piece: bytes, t: u32)
    requires |piece| < 0x7FFF_FF00
    ensures IsReply(PieceReply(piece, t)) && StatusOf(PieceReply(piece, t)) == Complete
    ensures ReplyCode(PieceReply(piece, t)) == OK
  {
    var d, a := Container(PACKET_TYPE_DATA, OC_GET_PARTIAL_OBJECT, t, piece), Container(PACKET_TYPE_RESPONSE, RC_OK, t, []);
    ContainerFields(PACKET_TYPE_DATA, OC_GET_PARTIAL_OBJECT, t, piece);
    ContainerFields(PACKET_TYPE_RESPONSE, RC_OK, t, []);
    AccessorsAfterData(d, a, []);
    assert d + a + [] == d + a && (d + a)[..|d|] == d && (d + a)[|d|..] == a;
    FieldsOfPrefix(d, a, 0);
    assert (d + a)[..|d + a|] == d + a;
    ReplyStatus(d + a, |d + a|);
  }

  // ----- Devices that serve -----

  /** What the device has ready for the request k: the reply t, split into chunks, and more behind it. */
  datatype Ready = Ready(t: u32, rest: bytes, chunks: seq<int>, more: seq<int>)

  ghost predicate IsReady(s: State, x: Transfer, k: nat, piece: bytes, q: Ready)
    requires ValidConfig(x.cfg) && ValidState(s)
  {
    && !s.killed && |piece| < 0x7FFF_FF00
    && s.link.incoming == PieceReply(piece, q.t) + q.rest && s.link.inputs == q.chunks + q.more
    && Splits(q.chunks, |PieceReply(piece, q.t)|, x.cfg.max)
    && TransmitAll(s.link, [CommandPacket(PartialObject(x.handle, Offset(k, x.max), x.max), Word(s.transaction))], x.cfg.max).ok
  }

  lemma PieceServed(s: State, x: Transfer, k: nat, piece: bytes, q: Ready)
    requires ValidConfig(x.cfg) && ValidState(s) && IsReady(s, x, k, piece, q)
    ensures RequestFrom(s, x, k).1.rc == OK && IsPieceReply(RequestFrom(s, x, k).1.reply, piece)
  {
    PieceIsReply(piece, q.t);
    AnsweredFromQueue(s, [CommandPacket(PartialObject(x.handle, Offset(k, x.max), x.max), Word(s.transaction))], x.cfg,
                      PieceReply(piece, q.t), q.rest, q.chunks, q.more);
  }

  /** From the k-th on, the device has all pieces of the content ready, one behind the other. */
  ghost predicate Queued(s: State, x: Transfer, content: bytes, k: nat)
    requires ValidConfig(x.cfg) && ValidState(s) && x.max > 0
    decreases |content| - Offset(k, x.max)
  {
    && Offset(k, x.max) <= |content|
    && (exists q :: IsReady(s, x, k, Piece(content, Offset(k, x.max), x.max), q))
    && (NextOffset(k, x.max);
        Offset(k + 1, x.max) <= |content| ==> Queued(RequestFrom(s, x, k).0, x, content, k + 1))
  }

  lemma QueuedStep(s: State, x: Transfer, content: bytes, k: nat, s': State, rep: Report)
    requires ValidConfig(x.cfg) && ValidState(s) && x.max > 0 && Queued(s, x, content, k) && Asks(x, k, s, s', rep)
    ensures rep.rc == OK && IsPieceReply(rep.reply, Piece(content, Offset(k, x.max), x.max))
    ensures ValidState(s') && (Offset(k + 1, x.max) <= |content| ==> Queued(s', x, content, k + 1))
  {
    var q :| IsReady(s, x, k, Piece(content, Offset(k, x.max), x.max), q);
    PieceServed(s, x, k, Piece(content, Offset(k, x.max), x.max), q);
  }

  lemma {:induction false} QueuedAt(x: Transfer, content: bytes, ss: seq<State>, rs: seq<Report>, k: nat)
    requires IsTransfer(x, ss, rs) && x.max > 0 && k < |rs| && Offset(k, x.max) <= |content|
    requires ValidState(ss[0]) && Queued(ss[0], x, content, 0)
    ensures ValidState(ss[k]) && Queued(ss[k], x, content, k)
  {
    if k > 0 {
      NextOffset(k - 1, x.max);
      QueuedAt(x, content, ss, rs, k - 1);
      assert Asks(x, k - 1, ss[k - 1], ss[k], rs[k - 1]);
      QueuedStep(ss[k - 1], x, content, k - 1, ss[k], rs[k - 1]);
    }
  }

  lemma QueueAnswers(x: Transfer, content: bytes, ss: seq<State>, rs: seq<Report>, k: nat)
    requires IsTransfer(x, ss, rs) && x.max > 0 && k < |rs| && Offset(k, x.max) <= |content|
    requires ValidState(ss[0]) && Queued(ss[0], x, content, 0)
    ensures rs[k].rc == OK && IsPieceReply(rs[k].reply, Piece(content, Offset(k, x.max), x.max))
  {
    QueuedAt(x, content, ss, rs, k);
    assert Asks(x, k, ss[k], ss[k + 1], rs[k]);
    QueuedStep(ss[k], x, content, k, ss[k + 1], rs[k]);
  }

  /** A device that has the pieces ready serves the content, however it splits them. */
  lemma QueueServes(s: State, x: Transfer, content: bytes)
    requires ValidConfig(x.cfg) && ValidState(s) && 0 < x.max < 0x8000_0000 && |content| < 0x8000_0000
    requires Queued(s, x, content, 0)
    ensures Serves(s, x, content)
  {
    forall ss: seq<State>, rs: seq<Report> |
      IsTransfer(x, ss, rs) && ss[0] == s && rs != [] && AllOk(rs) && Offset(|rs| - 1, x.max) <= |content|
      ensures IsAnswer(rs[|rs| - 1].reply, content, x.handle, LastSent(rs[|rs| - 1]))
    {
      LastAnswered(x, content, ss, rs);
    }
  }

  lemma LastAnswered(x: Transfer, content: bytes, ss: seq<State>, rs: seq<Report>)
    requires IsTransfer(x, ss, rs) && rs != [] && AllOk(rs) && 0 < x.max < 0x8000_0000
    requires Offset(|rs| - 1, x.max) <= |content| < 0x8000_0000 && ValidState(ss[0]) && Queued(ss[0], x, content, 0)
    ensures IsAnswer(rs[|rs| - 1].reply, content, x.handle, LastSent(rs[|rs| - 1]))
  {
    var k := |rs| - 1;
    QueueAnswers(x, content, ss, rs, k);
    assert Asks(x, k, ss[k], ss[k + 1], rs[k]);
    LastRequest(x, k, ss[k], ss[k + 1], rs[k]);
    AnswerIsPiece(rs[k].reply, content, x.handle, LastSent(rs[k]), Offset(k, x.max), x.max);
  }

  /** From such a device none of the size / max + 1 requests fails: the download succeeds. */
  lemma QueueSucceeds(x: Transfer, content: bytes, ss: seq<State>, rs: seq<Report>)
    requires IsTransfer(x, ss, rs) && x.max > 0 && ValidState(ss[0])
    requires Queued(ss[0], x, content, 0) && |rs| <= |content| / x.max + 1
    ensures AllOk(rs)
  {
    forall k | 0 <= k < |rs| ensures rs[k].rc == OK {
      OffsetInside(k, |content|, x.max);
      QueueAnswers(x, content, ss, rs, k);
    }
  }

  lemma Multiples(a: nat, b: nat, c: nat)
    ensures a <= b ==> a * c <= b * c
  {
  }

  lemma OffsetInside(k: nat, size: nat, max: nat)
    requires max > 0 && k <= size / max
    ensures Offset(k, max) <= size
  {
    Multiples(k, size / max, max);
    assert size == size / max * max + size % max;
  }

  lemma Quotient(i: nat, size: nat, max: nat)
    requires max > 0 && Offset(i, max) <= size
    ensures i <= size / max
    ensures Offset(i, max) + max > size ==> i == size / max && size % max == size - Offset(i, max)
  {
    var q := size / max;
    NextOffset(i, max);
    assert size == q * max + size % max && (q + 1) * max == q * max + max;
    Multiples(q + 1, i, max);
    Multiples(i + 1, q, max);
  }

  /** The piece after k whole ones: another whole one, or the last, which may be empty. */
  lemma NextOrLast(content: bytes, k: nat, max: nat)
    requires max > 0 && Offset(k, max) <= |content|
    ensures k <= |content| / max
    ensures var n := |Piece(content, Offset(k, max), max)|;
      if n == max then Offset(k + 1, max) == Offset(k, max) + max <= |content|
      else
        && n < max && k == |content| / max && (n == 0 <==> |content| % max == 0)
        && FirstPieces(content, k + 1, max) == content
  {
    NextOffset(k, max);
    Quotient(k, |content|, max);
    assert |Piece(content, Offset(k, max), max)| == Min(max, |content| - Offset(k, max));
  }
}
