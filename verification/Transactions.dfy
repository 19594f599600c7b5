/**
 Whole transactions of src/lib.c over USB containers, and what every run of them keeps:
 transaction numbers, at most two equal attempts, and the kill switch.
 */
module Transactions {
  import opened Octets
  import opened Packets
  import opened Transport

  const RC_OK: u16 := 0x2001
  const OC_OPEN_SESSION: u16 := 0x1002

  /** The packet size and the failures tolerated; the same for a whole connection. */
  datatype Config = Config(max: nat, patience: nat)

  predicate ValidConfig(c: Config) {
    c.max >= 1 && c.patience >= 1
  }

  datatype State = State(killed: bool, transaction: nat, session: nat, link: Link)

  predicate ValidState(s: State) {
    s.link.tail <= 0
  }

  /** ptp_check_rc */
  function CheckRc(code: u16): int {
    if code == 0xFFFF then IO_ERR else if code != RC_OK then CHECK_CODE else OK
  }

  // ----- One attempt -----

  datatype Attempt = Attempt(sent: bytes, code: int, reply: bytes, link: Link)

  /** ptp_send_try and ptp_send_data_try */
  function Try(l: Link, packets: seq<bytes>, c: Config): (a: Attempt)
    requires ValidConfig(c) && l.tail <= 0
    ensures a.link.tail == l.tail
  {
    var s := TransmitAll(l, packets, c.max);
    if !s.ok then Attempt(s.accepted, IO_ERR, [], s.link)
    else
      var r := Receive([], s.link, c.max, c.patience, 0);
      Attempt(s.accepted, r.code, r.got, r.link)
  }

  lemma TryIs(l: Link, packets: seq<bytes>, c: Config)
    requires ValidConfig(c) && l.tail <= 0 && forall i :: 0 <= i < |packets| ==> packets[i] != []
    ensures var a := Try(l, packets, c);
      && a.sent <= Join(packets) && a.code in {OK, IO_ERR, COMMAND_IGNORED}
      && (a.code == OK ==> a.sent == Join(packets) && StatusOf(a.reply) == Complete)
  {
    TransmitAllExact(l, packets, c.max);
    var s := TransmitAll(l, packets, c.max);
    if s.ok {
      ReceiveConserves([], s.link, c.max, c.patience, 0);
    }
  }

  // ----- One call -----

  /** What a call returns and what it put on the wire, attempt by attempt. */
  datatype Report = Report(attempts: seq<bytes>, completed: bool, reply: bytes, rc: int)

  /** How a call ends after its last attempt a. */
  function Concluded(s: State, sent: seq<bytes>, a: Attempt): (r: (State, Report))
    requires a.code == OK ==> StatusOf(a.reply) == Complete
  {
    if a.code == OK then
      (s.(transaction := s.transaction + 1, link := a.link), Report(sent, true, a.reply, ReplyCode(a.reply)))
    else
      (s.(killed := true, link := a.link), Report(sent, false, a.reply, IO_ERR))
  }

  /** ptp_send and ptp_send_data, from the check of the kill switch on. */
  function Call(s: State, packets: seq<bytes>, c: Config): (r: (State, Report))
    requires ValidConfig(c) && ValidState(s) && forall i :: 0 <= i < |packets| ==> packets[i] != []
    ensures ValidState(r.0) && r.0.session == s.session
  {
    if s.killed then (s, Report([], false, [], IO_ERR))
    else
      var a := Try(s.link, packets, c);
      TryIs(s.link, packets, c);
      if a.code != COMMAND_IGNORED then Concluded(s, [a.sent], a)
      else
        var b := Try(a.link, packets, c);
        TryIs(a.link, packets, c);
        Concluded(s, [a.sent, b.sent], b)
  }

  function ReplyCode(reply: bytes): int
    requires StatusOf(reply) == Complete
  {
    CompleteInBounds(reply);
    CheckRc(ReturnCode(reply))
  }

  /** The result of a completed exchange, from the code of its response. */
  lemma ReturnCodes(reply: bytes)
    requires StatusOf(reply) == Complete
    ensures |reply| >= 12
    ensures var at := if U16At(reply, 4) == 2 then U32At(reply, 0) else 0;
      && at + 12 <= |reply|
      && var code := U16At(reply, at + 6);
         && (ReplyCode(reply) == 0 <==> code == 0x2001)
         && (ReplyCode(reply) == -5 <==> code == 0xFFFF)
         && (ReplyCode(reply) == -8 <==> code != 0x2001 && code != 0xFFFF)
  {
    CompleteInBounds(reply);
  }

  predicate NonEmpty(packets: seq<bytes>) {
    forall i :: 0 <= i < |packets| ==> packets[i] != []
  }

  /**
   One call transmits at most two attempts, each the beginning of the same packets; it is
   completed exactly when the transaction number moves on, and a call that fails sets the
   kill switch.
   */
  lemma CallKeeps(s: State, packets: seq<bytes>, c: Config)
    requires ValidConfig(c) && ValidState(s) && NonEmpty(packets)
    ensures var s', r := Call(s, packets, c).0, Call(s, packets, c).1;
      && |r.attempts| <= 2 && (s.killed ==> r.attempts == [])
      && (forall i :: 0 <= i < |r.attempts| ==> r.attempts[i] <= Join(packets))
      && s'.transaction == s.transaction + (if r.completed then 1 else 0)
      && s'.killed == !r.completed
      && (r.completed ==>
            && !s.killed && r.attempts != [] && r.attempts[|r.attempts| - 1] == Join(packets)
            && StatusOf(r.reply) == Complete && r.rc == ReplyCode(r.reply))
      && (!r.completed ==> r.rc == IO_ERR)
  {
    if !s.killed {
      TryIs(s.link, packets, c);
      TryIs(Try(s.link, packets, c).link, packets, c);
    }
  }

  /** Any reply that is delivered in time completes the call, at the first attempt. */
  lemma AnsweredAtOnce(s: State, packets: seq<bytes>, c: Config, t: bytes)
    requires ValidConfig(c) && ValidState(s) && NonEmpty(packets) && !s.killed
    requires IsReply(t) && s.link.incoming == t && TransmitAll(s.link, packets, c.max).ok
    requires Deliver(|t|, s.link.inputs, c.max).Delivered? && Deliver(|t|, s.link.inputs, c.max).fails < c.patience
    ensures StatusOf(t) == Complete
    ensures Call(s, packets, c).1 == Report([Join(packets)], true, t, ReplyCode(t))
    ensures Call(s, packets, c).0.link.incoming == []
  {
    var l := TransmitAll(s.link, packets, c.max).link;
    TransmitAllExact(s.link, packets, c.max);
    FragmentationIndependent(t, l.inputs, l.tail, l.outputs, c.max, c.patience);
    assert t[..|t|] == t;
    ReplyStatus(t, |t|);
  }

  /** The same when the device has already sent more, and no read crosses the end of the reply. */
  lemma AnsweredFromQueue(s: State, packets: seq<bytes>, c: Config, t: bytes, rest: bytes, chunks: seq<int>, more: seq<int>)
    requires ValidConfig(c) && ValidState(s) && NonEmpty(packets) && !s.killed
    requires TransmitAll(s.link, packets, c.max).ok && s.link.incoming == t + rest && s.link.inputs == chunks + more
    requires IsReply(t) && Splits(chunks, |t|, c.max)
    ensures StatusOf(t) == Complete
    ensures Call(s, packets, c).1 == Report([Join(packets)], true, t, ReplyCode(t))
    ensures var s' := Call(s, packets, c).0;
      !s'.killed && s'.link.incoming == rest && s'.link.inputs == more && s'.link.tail == s.link.tail
  {
    var l := TransmitAll(s.link, packets, c.max).link;
    TransmitAllExact(s.link, packets, c.max);
    QueuedReply(t, rest, chunks, more, l.tail, l.outputs, c.max, c.patience);
    assert t[..|t|] == t;
    ReplyStatus(t, |t|);
  }

  // ----- Which failure is retried -----

  /** What one attempt meets when the endpoint accepts the packets. */
  lemma TryReads(l: Link, packets: seq<bytes>, c: Config, r: Received)
    requires ValidConfig(c) && l.tail <= 0 && NonEmpty(packets) && AcceptsAll(packets, l.outputs, c.max).Accepted?
    requires Receive([], l.(outputs := AcceptsAll(packets, l.outputs, c.max).left), c.max, c.patience, 0) == r
    ensures Try(l, packets, c) == Attempt(Join(packets), r.code, r.got, r.link)
  {
    TransmitAllAccepts(l, packets, c.max);
    TransmitAllExact(l, packets, c.max);
  }

  /**
   An attempt that meets nothing but empty and failed reads, as many as are tolerated, and
   then an empty one, is repeated; a reply in time completes the second attempt.
   */
  lemma RetriedOnce(s: State, packets: seq<bytes>, c: Config, t: bytes, idle: seq<int>, left: seq<int>, outs: seq<int>)
    requires ValidConfig(c) && ValidState(s) && NonEmpty(packets) && !s.killed && IsReply(t) && s.link.incoming == t
    requires Idle(idle) && |idle| == c.patience && s.link.inputs == idle + [0] + left
    requires AcceptsAll(packets, s.link.outputs, c.max) == Accepted(outs) && AcceptsAll(packets, outs, c.max).Accepted?
    requires Deliver(|t|, left, c.max).Delivered? && Deliver(|t|, left, c.max).fails < c.patience
    ensures StatusOf(t) == Complete
    ensures Call(s, packets, c).1 == Report([Join(packets), Join(packets)], true, t, ReplyCode(t))
    ensures !Call(s, packets, c).0.killed && Call(s, packets, c).0.transaction == s.transaction + 1
  {
    var l1 := s.link.(outputs := outs);
    SilenceDecides(l1, idle, 0, left, c.max, c.patience, 0);
    TryReads(s.link, packets, c, Received(-10, [], l1.(inputs := left)));
    var l2 := l1.(inputs := left);
    FragmentationIndependent(t, left, s.link.tail, AcceptsAll(packets, outs, c.max).left, c.max, c.patience);
    var r := Receive([], l2.(outputs := AcceptsAll(packets, outs, c.max).left), c.max, c.patience, 0);
    TryReads(l2, packets, c, r);
    WaitsForAll(t);
  }

  /** A command that is ignored twice has been sent twice, and it fails for good. */
  lemma IgnoredTwice(s: State, packets: seq<bytes>, c: Config, idle: seq<int>, again: seq<int>, left: seq<int>, outs: seq<int>)
    requires ValidConfig(c) && ValidState(s) && NonEmpty(packets) && !s.killed
    requires Idle(idle) && Idle(again) && |idle| == |again| == c.patience
    requires s.link.inputs == idle + [0] + (again + [0] + left)
    requires AcceptsAll(packets, s.link.outputs, c.max) == Accepted(outs) && AcceptsAll(packets, outs, c.max).Accepted?
    ensures Call(s, packets, c).1 == Report([Join(packets), Join(packets)], false, [], -5)
    ensures Call(s, packets, c).0.killed && Call(s, packets, c).0.transaction == s.transaction
  {
    var l1 := s.link.(outputs := outs);
    SilenceDecides(l1, idle, 0, again + [0] + left, c.max, c.patience, 0);
    TryReads(s.link, packets, c, Received(-10, [], l1.(inputs := again + [0] + left)));
    var l2 := l1.(inputs := again + [0] + left);
    var l3 := l2.(outputs := AcceptsAll(packets, outs, c.max).left);
    SilenceDecides(l3, again, 0, left, c.max, c.patience, 0);
    TryReads(l2, packets, c, Received(-10, [], l3.(inputs := left)));
  }

  /** A call that fails at its first attempt, after sending `sent`. */
  ghost predicate FailsOnce(s: State, packets: seq<bytes>, c: Config, sent: bytes, got: bytes)
    requires ValidConfig(c) && ValidState(s) && NonEmpty(packets)
  {
    && Call(s, packets, c).1 == Report([sent], false, got, -5)
    && Call(s, packets, c).0.killed && Call(s, packets, c).0.transaction == s.transaction
  }

  /** A connection that breaks is not tried again: neither when a write fails ... */
  lemma FailedWriteOnce(s: State, packets: seq<bytes>, c: Config)
    requires ValidConfig(c) && ValidState(s) && NonEmpty(packets) && !s.killed
    requires AcceptsAll(packets, s.link.outputs, c.max).Refused?
    ensures FailsOnce(s, packets, c, TransmitAll(s.link, packets, c.max).accepted, [])
    ensures Call(s, packets, c).0.link.inputs == s.link.inputs
  {
    TransmitAllAccepts(s.link, packets, c.max);
  }

  /** ... nor when the read fails that follows the last tolerated failure ... */
  lemma FailedReadOnce(s: State, packets: seq<bytes>, c: Config, idle: seq<int>, e: int, left: seq<int>)
    requires ValidConfig(c) && ValidState(s) && NonEmpty(packets) && !s.killed
    requires Idle(idle) && |idle| == c.patience && e < 0 && s.link.inputs == idle + [e] + left
    requires AcceptsAll(packets, s.link.outputs, c.max).Accepted?
    ensures FailsOnce(s, packets, c, Join(packets), [])
  {
    var l := s.link.(outputs := AcceptsAll(packets, s.link.outputs, c.max).left);
    SilenceDecides(l, idle, e, left, c.max, c.patience, 0);
    TryReads(s.link, packets, c, Received(-5, [], l.(inputs := left)));
  }

  /** ... and an exchange that ends with a bad container is not repeated either. */
  lemma BadContainerOnce(s: State, packets: seq<bytes>, c: Config, d: bytes, x: bytes, rest: bytes,
                         chunks: seq<int>, more: seq<int>)
    requires ValidConfig(c) && ValidState(s) && NonEmpty(packets) && !s.killed && IsBadReply(d, x)
    requires s.link.incoming == d + x + rest && s.link.inputs == chunks + more && Splits(chunks, |d + x|, c.max)
    requires AcceptsAll(packets, s.link.outputs, c.max).Accepted?
    ensures FailsOnce(s, packets, c, Join(packets), d + x)
  {
    var outs := AcceptsAll(packets, s.link.outputs, c.max).left;
    BadContainerRead(d, x, rest, chunks, more, s.link.tail, outs, c.max, c.patience);
    TryReads(s.link, packets, c, Received(-5, d + x, Link(rest, more, s.link.tail, outs)));
  }

  // ----- Runs -----

  datatype Op = Send(cmd: Command) | SendData(cmd: Command, data: bytes) | OpenSession

  predicate ValidOp(op: Op) {
    match op
    case Send(cmd) => ValidCommand(cmd)
    case SendData(cmd, data) => ValidCommand(cmd) && |data| < 0x7FFF_FF00
    case OpenSession => true
  }

  /** A C int in a 32-bit field. */
  function Word(n: nat): u32 {
    n % 0x1_0000_0000
  }

  function OpenCommand(session: nat): Command {
    Command(OC_OPEN_SESSION, [Word(session)])
  }

  /** The packets of an operation when the transaction number is t. */
  function PacketsOf(op: Op, t: nat, session: nat): (ps: seq<bytes>)
    requires ValidOp(op)
    ensures NonEmpty(ps)
  {
    match op
    case Send(cmd) => [CommandPacket(cmd, Word(t))]
    case SendData(cmd, data) => [CommandPacket(cmd, Word(t)), DataPacket(cmd, Word(t), data)]
    case OpenSession => [CommandPacket(OpenCommand(session), Word(t))]
  }

  /** ptp_open_session starts a session: a new number, and transactions from 0. */
  function Begin(s: State, op: Op): State {
    if op.OpenSession? then s.(session := s.session + 1, transaction := 0) else s
  }

  function Step(s: State, op: Op, c: Config): (r: (State, Report))
    requires ValidConfig(c) && ValidState(s) && ValidOp(op)
    ensures ValidState(r.0)
  {
    var b := Begin(s, op);
    Call(b, PacketsOf(op, b.transaction, b.session), c)
  }

  lemma StepKeeps(s: State, op: Op, c: Config)
    requires ValidConfig(c) && ValidState(s) && ValidOp(op)
    ensures var s', r := Step(s, op, c).0, Step(s, op, c).1;
      && s'.transaction == Begin(s, op).transaction + (if r.completed then 1 else 0)
      && s'.killed == !r.completed
      && (s.killed ==> s' == Begin(s, op) && r.attempts == [] && r.rc == IO_ERR)
  {
    var b := Begin(s, op);
    CallKeeps(b, PacketsOf(op, b.transaction, b.session), c);
  }

  lemma PacketsNumbered(op: Op, t: nat, session: nat)
    requires ValidOp(op)
    ensures Numbered(PacketsOf(op, t, session), t)
  {
    match op {
      case Send(cmd) => ContainerFields(PACKET_TYPE_COMMAND, cmd.code, Word(t), Params(cmd.params));
      case SendData(cmd, data) =>
        ContainerFields(PACKET_TYPE_COMMAND, cmd.code, Word(t), Params(cmd.params));
        ContainerFields(PACKET_TYPE_DATA, cmd.code, Word(t), data);
      case OpenSession =>
        ContainerFields(PACKET_TYPE_COMMAND, OC_OPEN_SESSION, Word(t), Params(OpenCommand(session).params));
    }
  }

  /** Every attempt of a report is the beginning of p, and the last one of a completed call all of it. */
  predicate Repeats(r: Report, p: bytes) {
    && |r.attempts| <= 2
    && (forall i :: 0 <= i < |r.attempts| ==> r.attempts[i] <= p)
    && (r.completed ==> r.attempts != [] && r.attempts[|r.attempts| - 1] == p)
  }

  predicate Numbered(ps: seq<bytes>, t: nat) {
    forall i :: 0 <= i < |ps| ==> |ps[i]| >= 12 && U32At(ps[i], 8) == Word(t)
  }

  lemma StepRepeats(s: State, op: Op, c: Config)
    requires ValidConfig(c) && ValidState(s) && ValidOp(op)
    ensures var b := Begin(s, op);
      Repeats(Step(s, op, c).1, Join(PacketsOf(op, b.transaction, b.session)))
  {
    var b := Begin(s, op);
    CallKeeps(b, PacketsOf(op, b.transaction, b.session), c);
  }

  /** The operation leads from s to s' with the report r. */
  predicate Leads(s: State, op: Op, c: Config, s': State, r: Report)
    requires ValidConfig(c) && ValidOp(op)
  {
    ValidState(s) && Step(s, op, c) == (s', r)
  }

  /** A run: state k, operation k and report k lead to state k + 1. */
  ghost predicate IsRun(ss: seq<State>, ops: seq<Op>, rs: seq<Report>, c: Config) {
    && ValidConfig(c) && |ss| == |ops| + 1 && |rs| == |ops| && (forall k :: 0 <= k < |ops| ==> ValidOp(ops[k]))
    && forall k {:trigger Leads(ss[k], ops[k], c, ss[k + 1], rs[k])} ::
         0 <= k < |ops| ==> Leads(ss[k], ops[k], c, ss[k + 1], rs[k])
  }

  lemma RunStep(ss: seq<State>, ops: seq<Op>, rs: seq<Report>, c: Config, k: nat)
    requires IsRun(ss, ops, rs, c) && k < |ops|
    ensures ss[k + 1].transaction == Begin(ss[k], ops[k]).transaction + (if rs[k].completed then 1 else 0)
    ensures ss[k + 1].killed == !rs[k].completed && ss[k + 1].session == Begin(ss[k], ops[k]).session
    ensures ss[k].killed ==> ss[k + 1] == Begin(ss[k], ops[k]) && rs[k].attempts == [] && rs[k].rc == IO_ERR
    ensures Repeats(rs[k], Join(PacketsOf(ops[k], Begin(ss[k], ops[k]).transaction, Begin(ss[k], ops[k]).session)))
  {
    assert Leads(ss[k], ops[k], c, ss[k + 1], rs[k]);
    StepKeeps(ss[k], ops[k], c);
    StepRepeats(ss[k], ops[k], c);
  }

  /** Completed exchanges among the first k, since the last ptp_open_session began. */
  function CompletedSinceOpen(base: nat, ops: seq<Op>, rs: seq<Report>, k: nat): nat
    requires k <= |ops| == |rs|
  {
    if k == 0 then base
    else
      var before := if ops[k - 1].OpenSession? then 0 else CompletedSinceOpen(base, ops, rs, k - 1);
      before + if rs[k - 1].completed then 1 else 0
  }

  /** In every run the transaction number counts the completed exchanges of the session. */
  lemma {:induction false} TransactionsCount(ss: seq<State>, ops: seq<Op>, rs: seq<Report>, c: Config, k: nat)
    requires IsRun(ss, ops, rs, c) && k <= |ops|
    ensures ss[k].transaction == CompletedSinceOpen(ss[0].transaction, ops, rs, k)
  {
    if k > 0 {
      TransactionsCount(ss, ops, rs, c, k - 1);
      RunStep(ss, ops, rs, c, k - 1);
    }
  }

  /**
   In every run, the attempts of an operation are at most two, each is the beginning of one
   and the same text, and each packet in it carries the number of exchanges completed before.
   */
  lemma AttemptsAlike(ss: seq<State>, ops: seq<Op>, rs: seq<Report>, c: Config, k: nat)
    requires IsRun(ss, ops, rs, c) && k < |ops|
    ensures var n := if ops[k].OpenSession? then 0 else CompletedSinceOpen(ss[0].transaction, ops, rs, k);
      var ps := PacketsOf(ops[k], n, Begin(ss[k], ops[k]).session);
      Repeats(rs[k], Join(ps)) && Numbered(ps, n)
  {
    TransactionsCount(ss, ops, rs, c, k);
    RunStep(ss, ops, rs, c, k);
    PacketsNumbered(ops[k], Begin(ss[k], ops[k]).transaction, Begin(ss[k], ops[k]).session);
  }

  lemma {:induction false} StaysKilled(ss: seq<State>, ops: seq<Op>, rs: seq<Report>, c: Config, i: nat, k: nat)
    requires IsRun(ss, ops, rs, c) && i < k <= |ops| && !rs[i].completed
    ensures ss[k].killed
    decreases k
  {
    if i + 1 < k {
      StaysKilled(ss, ops, rs, c, i, k - 1);
    }
    RunStep(ss, ops, rs, c, k - 1);
  }

  /** In every run, no operation after a failed one writes anything; all of them fail. */
  lemma NothingAfterFailure(ss: seq<State>, ops: seq<Op>, rs: seq<Report>, c: Config, i: nat, k: nat)
    requires IsRun(ss, ops, rs, c) && i < k < |ops| && !rs[i].completed
    ensures rs[k].attempts == [] && rs[k].rc == IO_ERR && ss[k + 1] == Begin(ss[k], ops[k])
  {
    StaysKilled(ss, ops, rs, c, i, k);
    RunStep(ss, ops, rs, c, k);
  }

  /** Sessions opened among the first k operations. */
  function Opened(ops: seq<Op>, k: nat): nat
    requires k <= |ops|
  {
    if k == 0 then 0 else Opened(ops, k - 1) + if ops[k - 1].OpenSession? then 1 else 0
  }

  lemma {:induction false} SessionsCount(ss: seq<State>, ops: seq<Op>, rs: seq<Report>, c: Config, k: nat)
    requires IsRun(ss, ops, rs, c) && k <= |ops|
    ensures ss[k].session == ss[0].session + Opened(ops, k)
  {
    if k > 0 {
      SessionsCount(ss, ops, rs, c, k - 1);
      RunStep(ss, ops, rs, c, k - 1);
    }
  }

  /** The bytes of a command packet, as they lie on the wire. */
  ghost predicate IsCommandOnWire(b: bytes, code: u16, transaction: nat, params: seq<u32>) {
    && |b| == 12 + 4 * |params| && U32At(b, 0) == |b| && U16At(b, 4) == 1 && U16At(b, 6) == code
    && U32At(b, 8) == transaction % 0x1_0000_0000
    && forall i :: 0 <= i < |params| ==> U32At(b, 12 + 4 * i) == params[i]
  }

  /** Those of a data packet. */
  ghost predicate IsDataOnWire(b: bytes, code: u16, transaction: nat, data: bytes) {
    && |b| == 12 + |data| && U32At(b, 0) == |b| && U16At(b, 4) == 2 && U16At(b, 6) == code
    && U32At(b, 8) == transaction % 0x1_0000_0000 && b[12..] == data
  }

  /** What an operation has on the wire when its transaction number is n and its session is s. */
  ghost predicate IsOnWire(op: Op, b: bytes, n: nat, s: nat) {
    match op
    case Send(cmd) => IsCommandOnWire(b, cmd.code, n, cmd.params)
    case OpenSession => IsCommandOnWire(b, 0x1002, 0, [Word(s)])
    case SendData(cmd, data) =>
      && |b| >= 12 + 4 * |cmd.params|
      && IsCommandOnWire(b[..12 + 4 * |cmd.params|], cmd.code, n, cmd.params)
      && IsDataOnWire(b[12 + 4 * |cmd.params|..], cmd.code, n, data)
  }

  lemma PacketsOnWire(op: Op, n: nat, s: nat)
    requires ValidOp(op) && (op.OpenSession? ==> n == 0)
    ensures IsOnWire(op, Join(PacketsOf(op, n, s)), n, s)
  {
    match op {
      case Send(cmd) =>
        CommandOnWire(cmd, Word(n));
        JoinOne(CommandPacket(cmd, Word(n)));
      case OpenSession =>
        CommandOnWire(OpenCommand(s), Word(n));
        JoinOne(CommandPacket(OpenCommand(s), Word(n)));
      case SendData(cmd, data) =>
        CommandOnWire(cmd, Word(n));
        DataOnWire(cmd, Word(n), data);
        JoinTwo(CommandPacket(cmd, Word(n)), DataPacket(cmd, Word(n), data), []);
    }
  }

  lemma JoinOne(p: bytes)
    ensures Join([p]) == p
  {
    assert [p][1..] == [] && p + [] == p;
  }

  lemma JoinTwo(p: bytes, q: bytes, u: bytes)
    ensures u + Join([p, q]) == u + p + q && Join([p, q]) == p + q
  {
    JoinOne(q);
    assert [p, q][1..] == [q];
    Assoc(u, p, q);
  }

  /**
   In every run, the bytes of a completed operation are those of its command, with the number
   of exchanges completed before in the session, and for ptp_open_session with number 0 and
   the number of the session as its parameter.
   */
  lemma CompletedOnWire(ss: seq<State>, ops: seq<Op>, rs: seq<Report>, c: Config, k: nat)
    requires IsRun(ss, ops, rs, c) && k < |ops| && rs[k].completed
    ensures rs[k].attempts != []
    ensures IsOnWire(ops[k], rs[k].attempts[|rs[k].attempts| - 1],
                     CompletedSinceOpen(ss[0].transaction, ops, rs, k), ss[0].session + Opened(ops, k) + 1)
  {
    TransactionsCount(ss, ops, rs, c, k);
    SessionsCount(ss, ops, rs, c, k);
    RunStep(ss, ops, rs, c, k);
    var b := Begin(ss[k], ops[k]);
    PacketsOnWire(ops[k], b.transaction, b.session);
  }
}
