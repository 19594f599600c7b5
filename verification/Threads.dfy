/**
 Any number of threads that share one PtpRuntime: a step model of ptp_send and ptp_send_data
 (src/lib.c), ptp_report_error (src/error.c) and the operations of src/operations.c, with
 one step for each access to the lock, the kill switches, the endpoint or the buffer.
 */
module Threads {

  /** Who called ptp_send: an operation without a lock, one with a lock, or ptp_close_session. */
  datatype Caller = Bare | Locked | Closing

  datatype Pc =
    | Idle
    // an operation that holds the lock across sending and parsing
    | OuterLock
    | Parse(caller: Caller)
    | OuterUnlock
    // ptp_send
    | FirstCheck(caller: Caller)
    | InnerLock(caller: Caller)
    | SecondCheck(caller: Caller)
    | Refused(caller: Caller)
    | Start(caller: Caller)
    | Exchange(caller: Caller)
    | Complete(caller: Caller, ok: bool)
    | KillLocked(caller: Caller)
    | UnlockKilled(caller: Caller)
    | UnlockFirst(caller: Caller)
    | KillUnlocked(caller: Caller)
    // ptp_report_error; intentional means code 0
    | ReportCheck(intentional: bool)
    | ReportStop
    | ReportLock(intentional: bool)
    | ReportRecheck(intentional: bool)
    | ReportOperation
    | ReportIo
    | ReportUnlock

  /** `mine` is the number of the last command this thread put on the wire, 0 for none. */
  datatype Thread = Thread(pc: Pc, mine: nat)

  const NOBODY := -1

  /**
   What the threads share. `buffer` is the command whose reply the buffer holds, 0 while it
   holds none; `started` counts exchanges, `closes` the reporters that closed the session,
   and `failed` says that an exchange has failed.
   */
  datatype Shared = Shared(
    operationKill: bool, ioKill: bool, owner: int, count: nat,
    buffer: nat, started: nat, closes: nat, failed: bool)

  datatype State = State(shared: Shared, threads: seq<Thread>)

  /** What a thread does next where the program leaves it open. */
  datatype Choice =
    | CallBare | CallLocked | CallReport(intentional: bool)
    | Replied(ok: bool) | IgnoredTwice | Broken

  /** The shared state and the thread after a step. */
  datatype Effect = Effect(shared: Shared, thread: Thread)

  function Go(g: Shared, me: Thread, pc: Pc): Effect {
    Effect(g, me.(pc := pc))
  }

  /** pthread_mutex_lock of a recursive mutex: it waits while another thread owns it. */
  function Acquire(g: Shared, t: nat, me: Thread, pc: Pc): Effect {
    if g.owner == t || g.owner == NOBODY then Go(g.(owner := t, count := g.count + 1), me, pc) else Effect(g, me)
  }

  function Release(g: Shared, t: nat, me: Thread, pc: Pc): Effect {
    if g.owner != t || g.count == 0 then Go(g, me, pc)
    else Go(g.(owner := if g.count == 1 then NOBODY else t, count := g.count - 1), me, pc)
  }

  /** Where ptp_send returns to. */
  function Return(caller: Caller, ok: bool): Pc {
    match caller
    case Bare => if ok then Parse(Bare) else Idle
    case Locked => if ok then Parse(Locked) else OuterUnlock
    case Closing => ReportOperation
  }

  function Call(c: Choice): Pc {
    match c
    case CallBare => FirstCheck(Bare)
    case CallLocked => OuterLock
    case CallReport(intentional) => ReportCheck(intentional)
    case _ => Idle
  }

  /** The exchange ends: a reply to the last command sent, two ignored attempts, or a broken connection. */
  function Ended(g: Shared, me: Thread, caller: Caller, c: Choice): Effect {
    match c
    case Replied(ok) => Go(g.(buffer := g.started), me, Complete(caller, ok))
    case IgnoredTwice => Go(g.(failed := true), me, KillLocked(caller))
    case _ => Go(g.(failed := true), me, UnlockFirst(caller))
  }

  /** One step of the thread t. */
  function Local(g: Shared, t: nat, me: Thread, c: Choice): Effect {
    match me.pc
    case Idle => Go(g, me, Call(c))
    case OuterLock => Acquire(g, t, me, FirstCheck(Locked))
    case Parse(k) => Go(g, me, if k.Bare? then Idle else OuterUnlock)
    case OuterUnlock => Release(g, t, me, Idle)
    case FirstCheck(k) => Go(g, me, if g.operationKill then Return(k, false) else InnerLock(k))
    case InnerLock(k) => Acquire(g, t, me, SecondCheck(k))
    case SecondCheck(k) => Go(g, me, if g.operationKill then Refused(k) else Start(k))
    case Refused(k) => Release(g, t, me, Return(k, false))
    case Start(k) => Effect(g.(buffer := 0, started := g.started + 1), Thread(Exchange(k), g.started + 1))
    case Exchange(k) => Ended(g, me, k, c)
    case Complete(k, ok) => Release(g, t, me, Return(k, ok))
    case KillLocked(k) => Go(g.(operationKill := true), me, UnlockKilled(k))
    case UnlockKilled(k) => Release(g, t, me, Return(k, false))
    case UnlockFirst(k) => Release(g, t, me, KillUnlocked(k))
    case KillUnlocked(k) => Go(g.(operationKill := true), me, Return(k, false))
    case ReportCheck(i) => Go(g, me, if g.ioKill then Idle else if i then ReportLock(i) else ReportStop)
    case ReportStop => Go(g.(operationKill := true), me, ReportLock(false))
    case ReportLock(i) => Acquire(g, t, me, ReportRecheck(i))
    case ReportRecheck(i) =>
      if g.ioKill then Go(g, me, ReportUnlock)
      else if i then Go(g.(closes := g.closes + 1), me, FirstCheck(Closing))
      else Go(g, me, ReportOperation)
    case ReportOperation => Go(g.(operationKill := true), me, ReportIo)
    case ReportIo => Go(g.(ioKill := true), me, ReportUnlock)
    case ReportUnlock => Release(g, t, me, Idle)
  }

  function Step(s: State, t: nat, c: Choice): State
    requires t < |s.threads|
  {
    var e := Local(s.shared, t, s.threads[t], c);
    State(e.shared, s.threads[t := e.thread])
  }

  // ----- Runs -----

  datatype Move = Move(thread: nat, choice: Choice)

  /** A run within one connection: no reconnect clears the switches in it. */
  ghost predicate IsRun(ss: seq<State>, moves: seq<Move>) {
    && |ss| == |moves| + 1 && Initial(ss[0])
    && forall k :: 0 <= k < |moves| ==>
         moves[k].thread < |ss[k].threads| && ss[k + 1] == Step(ss[k], moves[k].thread, moves[k].choice)
  }

  /** Just connected: nobody is in the library. */
  ghost predicate Initial(s: State) {
    && s.shared == Shared(false, false, NOBODY, 0, 0, 0, 0, false)
    && forall t :: 0 <= t < |s.threads| ==> s.threads[t] == Thread(Idle, 0)
  }

  // ----- The lock -----

  function Outer(k: Caller): nat {
    if k.Bare? then 0 else 1
  }

  /** How often a thread at this place holds the lock. */
  function Depth(pc: Pc): nat {
    match pc
    case Idle => 0
    case OuterLock => 0
    case OuterUnlock => 1
    case Parse(k) => Outer(k)
    case FirstCheck(k) => Outer(k)
    case InnerLock(k) => Outer(k)
    case KillUnlocked(k) => Outer(k)
    case SecondCheck(k) => Outer(k) + 1
    case Refused(k) => Outer(k) + 1
    case Start(k) => Outer(k) + 1
    case Exchange(k) => Outer(k) + 1
    case Complete(k, _) => Outer(k) + 1
    case KillLocked(k) => Outer(k) + 1
    case UnlockKilled(k) => Outer(k) + 1
    case UnlockFirst(k) => Outer(k) + 1
    case ReportCheck(_) => 0
    case ReportStop => 0
    case ReportLock(_) => 0
    case ReportRecheck(_) => 1
    case ReportOperation => 1
    case ReportIo => 1
    case ReportUnlock => 1
  }

  /** What the lock holds of the thread t is what the thread's place says. */
  predicate Holds(g: Shared, t: nat, pc: Pc) {
    Depth(pc) == if t == g.owner then g.count else 0
  }

  ghost predicate LockRight(s: State) {
    && (s.shared.owner == NOBODY <==> s.shared.count == 0) && NOBODY <= s.shared.owner < |s.threads|
    && forall t :: 0 <= t < |s.threads| ==> Holds(s.shared, t, s.threads[t].pc)
  }

  /** Where a step takes the lock, and where it gives it back. */
  predicate Acquires(pc: Pc) {
    pc.OuterLock? || pc.InnerLock? || pc.ReportLock?
  }

  predicate Releases(pc: Pc) {
    || pc.OuterUnlock? || pc.Refused? || pc.Complete? || pc.UnlockKilled? || pc.UnlockFirst? || pc.ReportUnlock?
  }

  lemma SendLock(g: Shared, t: nat, me: Thread, c: Choice)
    requires match me.pc
             case FirstCheck(_) => true case SecondCheck(_) => true case Start(_) => true case Exchange(_) => true
             case KillLocked(_) => true case KillUnlocked(_) => true case Parse(_) => true case _ => false
    ensures var e := Local(g, t, me, c);
      e.shared.owner == g.owner && e.shared.count == g.count && Depth(e.thread.pc) == Depth(me.pc)
  {
  }

  lemma ReportLocks(g: Shared, t: nat, me: Thread, c: Choice)
    requires match me.pc
             case Idle => true case ReportCheck(_) => true case ReportStop => true case ReportRecheck(_) => true
             case ReportOperation => true case ReportIo => true case _ => false
    ensures var e := Local(g, t, me, c);
      e.shared.owner == g.owner && e.shared.count == g.count && Depth(e.thread.pc) == Depth(me.pc)
  {
  }

  lemma LocalAcquire(g: Shared, t: nat, me: Thread, c: Choice)
    requires Acquires(me.pc)
    ensures var e := Local(g, t, me, c);
      if g.owner == t || g.owner == NOBODY then
        e.shared == g.(owner := t, count := g.count + 1) && Depth(e.thread.pc) == Depth(me.pc) + 1
      else e == Effect(g, me)
  {
  }

  lemma LocalRelease(g: Shared, t: nat, me: Thread, c: Choice)
    requires Releases(me.pc) && Holds(g, t, me.pc)
    ensures g.owner == t && g.count >= 1
    ensures var e := Local(g, t, me, c);
      && e.shared == g.(owner := if g.count == 1 then NOBODY else t, count := g.count - 1)
      && Depth(e.thread.pc) + 1 == Depth(me.pc)
  {
  }

  lemma LocalLock(g: Shared, t: nat, me: Thread, c: Choice)
    requires Holds(g, t, me.pc) && (g.owner == NOBODY <==> g.count == 0)
    ensures var e := Local(g, t, me, c);
      && Holds(e.shared, t, e.thread.pc) && (e.shared.owner == NOBODY <==> e.shared.count == 0)
      && (e.shared.owner == g.owner || e.shared.owner == t || (g.owner == t && e.shared.owner == NOBODY))
      && (g.owner != t && g.owner != NOBODY ==> e.shared.owner == g.owner && e.shared.count == g.count)
  {
    if Acquires(me.pc) {
      LocalAcquire(g, t, me, c);
    } else if Releases(me.pc) {
      LocalRelease(g, t, me, c);
    } else if me.pc.Idle? || me.pc.ReportCheck? || me.pc.ReportStop? || me.pc.ReportRecheck?
              || me.pc.ReportOperation? || me.pc.ReportIo? {
      ReportLocks(g, t, me, c);
    } else {
      SendLock(g, t, me, c);
    }
  }

  lemma LockKept(s: State, t: nat, c: Choice)
    requires LockRight(s) && t < |s.threads|
    ensures LockRight(Step(s, t, c))
  {
    LocalLock(s.shared, t, s.threads[t], c);
  }

  /** Threads that may touch the endpoint hold the lock: there is never more than one. */
  predicate UsesEndpoint(pc: Pc) {
    pc.Start? || pc.Exchange?
  }

  lemma MutualExclusion(s: State, t: nat, u: nat)
    requires LockRight(s) && t < |s.threads| && u < |s.threads|
    requires Depth(s.threads[t].pc) > 0 && Depth(s.threads[u].pc) > 0
    ensures t == u == s.shared.owner
  {
    assert Holds(s.shared, t, s.threads[t].pc) && Holds(s.shared, u, s.threads[u].pc);
  }

  // ----- Replies -----

  /** Here a thread with the lock relies on the reply in the buffer. */
  predicate Relies(pc: Pc) {
    pc.Complete? || pc == Parse(Locked)
  }

  predicate ReplyFits(g: Shared, me: Thread) {
    && me.mine <= g.started
    && (me.pc.Exchange? ==> me.mine == g.started)
    && (Relies(me.pc) ==> g.buffer == me.mine)
  }

  /** A reply that is parsed without the lock is there as long as no later exchange has started. */
  predicate ParseFits(g: Shared, me: Thread) {
    && (me.pc.Exchange? || me.pc.Complete? || me.pc.Parse? ==> me.mine >= 1)
    && (me.pc.Parse? && me.mine == g.started ==> g.buffer == me.mine)
  }

  ghost predicate RepliesRight(s: State) {
    && (s.shared.buffer == 0 || s.shared.buffer == s.shared.started)
    && forall t :: 0 <= t < |s.threads| ==> ReplyFits(s.shared, s.threads[t]) && ParseFits(s.shared, s.threads[t])
  }

  lemma BufferStays(g: Shared, t: nat, me: Thread, c: Choice)
    ensures var e := Local(g, t, me, c);
      if me.pc.Start? then
        e == Effect(g.(buffer := 0, started := g.started + 1), Thread(Exchange(me.pc.caller), g.started + 1))
      else if me.pc.Exchange? then
        && e.thread.mine == me.mine && e.shared.started == g.started
        && (e.shared.buffer == g.buffer || e.shared.buffer == g.started)
        && (e.thread.pc.Complete? ==> e.shared.buffer == g.started) && !e.thread.pc.Parse?
      else
        e.thread.mine == me.mine && e.shared.buffer == g.buffer && e.shared.started == g.started
  {
  }

  /** A thread comes to rely on the buffer only when its exchange is over. */
  lemma RelianceStarts(g: Shared, t: nat, me: Thread, c: Choice)
    ensures var pc := Local(g, t, me, c).thread.pc;
      && (pc.Exchange? ==> me.pc.Start?) && (pc.Complete? ==> me.pc.Exchange?)
      && (pc.Parse? ==> me.pc.Complete?)
  {
  }

  lemma LocalReply(g: Shared, t: nat, me: Thread, c: Choice)
    requires ReplyFits(g, me) && ParseFits(g, me)
    ensures ReplyFits(Local(g, t, me, c).shared, Local(g, t, me, c).thread)
    ensures ParseFits(Local(g, t, me, c).shared, Local(g, t, me, c).thread)
  {
    BufferStays(g, t, me, c);
    RelianceStarts(g, t, me, c);
  }

  lemma RepliesKept(s: State, t: nat, c: Choice)
    requires LockRight(s) && RepliesRight(s) && t < |s.threads|
    ensures RepliesRight(Step(s, t, c))
  {
    BufferStays(s.shared, t, s.threads[t], c);
    LocalReply(s.shared, t, s.threads[t], c);
    assert forall u :: 0 <= u < |s.threads| ==> Holds(s.shared, u, s.threads[u].pc);
  }

  // ----- Closing -----

  function CallerOf(pc: Pc): Caller {
    match pc
    case FirstCheck(k) => k
    case InnerLock(k) => k
    case SecondCheck(k) => k
    case Refused(k) => k
    case Start(k) => k
    case Exchange(k) => k
    case Complete(k, _) => k
    case KillLocked(k) => k
    case UnlockKilled(k) => k
    case UnlockFirst(k) => k
    case KillUnlocked(k) => k
    case _ => Bare
  }

  /** A reporter from its decision to close the session until it has set the switches. */
  predicate Closes(pc: Pc) {
    CallerOf(pc).Closing? || pc.ReportOperation? || pc.ReportIo?
  }

  ghost predicate ClosingRight(s: State) {
    var g := s.shared;
    && g.closes <= 1
    && (g.closes == 1 && !g.ioKill ==> 0 <= g.owner < |s.threads| && Closes(s.threads[g.owner].pc))
  }

  lemma StaysInSend(g: Shared, t: nat, me: Thread, c: Choice)
    requires CallerOf(me.pc).Closing?
    ensures Closes(Local(g, t, me, c).thread.pc)
  {
  }

  lemma StaysClosing(g: Shared, t: nat, me: Thread, c: Choice)
    requires Closes(me.pc)
    ensures Local(g, t, me, c).shared.ioKill || Closes(Local(g, t, me, c).thread.pc)
  {
    if CallerOf(me.pc).Closing? {
      StaysInSend(g, t, me, c);
    }
  }

  lemma CountsClosers(g: Shared, t: nat, me: Thread, c: Choice)
    ensures var e := Local(g, t, me, c);
      && (g.ioKill ==> e.shared.ioKill)
      && if me.pc == ReportRecheck(true) && !g.ioKill then
           e.shared == g.(closes := g.closes + 1) && Closes(e.thread.pc)
         else
           e.shared.closes == g.closes
  {
  }

  lemma ClosersHold(pc: Pc)
    requires Closes(pc)
    ensures Depth(pc) > 0
  {
  }

  lemma ClosingKept(s: State, t: nat, c: Choice)
    requires t < |s.threads| && LockRight(s) && LockRight(Step(s, t, c)) && ClosingRight(s)
    ensures ClosingRight(Step(s, t, c))
  {
    var me, e := s.threads[t], Local(s.shared, t, s.threads[t], c);
    CountsClosers(s.shared, t, me, c);
    LocalLock(s.shared, t, me, c);
    if s.shared.owner == t && Closes(me.pc) {
      StaysClosing(s.shared, t, me, c);
    }
    if Closes(e.thread.pc) {
      ClosersHold(e.thread.pc);
    }
  }

  // ----- The switches -----

  /** Once a reporter has set both switches nobody is on the way to the endpoint. */
  predicate SwitchFits(g: Shared, me: Thread) {
    && (me.pc.ReportIo? ==> g.operationKill)
    && (me.pc == ReportLock(false) || me.pc == ReportRecheck(false) ==> g.operationKill)
    && (me.pc.ReportUnlock? ==> g.ioKill)
    && (g.ioKill ==> g.operationKill && !UsesEndpoint(me.pc))
  }

  ghost predicate SwitchesRight(s: State) {
    forall t :: 0 <= t < |s.threads| ==> SwitchFits(s.shared, s.threads[t])
  }

  lemma SwitchesStay(g: Shared, t: nat, me: Thread, c: Choice)
    ensures var e := Local(g, t, me, c);
      && (g.operationKill ==> e.shared.operationKill) && (g.ioKill ==> e.shared.ioKill)
      && (e.shared.ioKill && !g.ioKill ==> me.pc.ReportIo?)
  {
  }

  lemma LocalSwitch(g: Shared, t: nat, me: Thread, c: Choice)
    requires SwitchFits(g, me)
    ensures SwitchFits(Local(g, t, me, c).shared, Local(g, t, me, c).thread)
  {
    SwitchesStay(g, t, me, c);
    StartsAtStart(g, t, me, c);
    RelianceStarts(g, t, me, c);
    ReportsFrom(g, t, me, c);
    ReportEnds(g, t, me, c);
    ReportThrough(g, t, me, c);
  }

  /** How a reporter gets on. */
  lemma ReportsFrom(g: Shared, t: nat, me: Thread, c: Choice)
    ensures var e := Local(g, t, me, c);
      && (e.thread.pc == ReportLock(false) ==> (me.pc.ReportStop? && e.shared.operationKill) || me.pc == ReportLock(false))
      && (e.thread.pc == ReportRecheck(false) ==> me.pc == ReportLock(false))
  {
  }

  lemma ReportEnds(g: Shared, t: nat, me: Thread, c: Choice)
    ensures var e := Local(g, t, me, c);
      e.thread.pc.ReportIo? ==> me.pc.ReportOperation? && e.shared.operationKill
  {
  }

  lemma ReportThrough(g: Shared, t: nat, me: Thread, c: Choice)
    ensures var e := Local(g, t, me, c);
      e.thread.pc.ReportUnlock? ==> e.shared.ioKill
  {
    match me.pc {
      case ReportIo =>
      case ReportRecheck(_) =>
      case _ => assert !Local(g, t, me, c).thread.pc.ReportUnlock?;
    }
  }

  lemma SwitchesKept(s: State, t: nat, c: Choice)
    requires t < |s.threads| && LockRight(s) && SwitchesRight(s)
    ensures SwitchesRight(Step(s, t, c))
  {
    SwitchesStay(s.shared, t, s.threads[t], c);
    LocalSwitch(s.shared, t, s.threads[t], c);
    assert forall u :: 0 <= u < |s.threads| ==> Holds(s.shared, u, s.threads[u].pc);
  }

  /** An exchange starts only behind the second check. */
  lemma StartsAtStart(g: Shared, t: nat, me: Thread, c: Choice)
    ensures Local(g, t, me, c).thread.pc.Start? ==> me.pc.SecondCheck? && !g.operationKill
  {
  }

  // ----- Failures -----

  /** A thread whose exchange has failed and that has yet to set the switch. */
  predicate OwesKill(pc: Pc) {
    pc.KillLocked? || pc.UnlockFirst? || pc.KillUnlocked?
  }

  ghost predicate FailuresRight(s: State) {
    s.shared.failed && !s.shared.operationKill ==>
      exists t :: 0 <= t < |s.threads| && OwesKill(s.threads[t].pc)
  }

  lemma LocalFailure(g: Shared, t: nat, me: Thread, c: Choice)
    ensures var e := Local(g, t, me, c);
      && (OwesKill(me.pc) ==> e.shared.operationKill || OwesKill(e.thread.pc))
      && (e.shared.failed && !g.failed ==> OwesKill(e.thread.pc))
  {
  }

  lemma FailuresKept(s: State, t: nat, c: Choice)
    requires t < |s.threads| && FailuresRight(s)
    ensures FailuresRight(Step(s, t, c))
  {
    var s' := Step(s, t, c);
    LocalFailure(s.shared, t, s.threads[t], c);
    SwitchesStay(s.shared, t, s.threads[t], c);
    if s'.shared.failed && !s'.shared.operationKill {
      if s.shared.failed {
        var u :| 0 <= u < |s.threads| && OwesKill(s.threads[u].pc);
        assert OwesKill(s'.threads[u].pc);
      } else {
        assert OwesKill(s'.threads[t].pc);
      }
    }
  }

  // ----- Every run -----

  ghost predicate Invariant(s: State) {
    LockRight(s) && RepliesRight(s) && ClosingRight(s) && SwitchesRight(s) && FailuresRight(s)
  }

  lemma InvariantKept(s: State, t: nat, c: Choice)
    requires t < |s.threads| && Invariant(s)
    ensures Invariant(Step(s, t, c))
  {
    LockKept(s, t, c);
    RepliesKept(s, t, c);
    ClosingKept(s, t, c);
    SwitchesKept(s, t, c);
    FailuresKept(s, t, c);
  }

  lemma {:induction false} InvariantAlways(ss: seq<State>, moves: seq<Move>, k: nat)
    requires IsRun(ss, moves) && k <= |moves|
    ensures Invariant(ss[k])
  {
    if k > 0 {
      InvariantAlways(ss, moves, k - 1);
      InvariantKept(ss[k - 1], moves[k - 1].thread, moves[k - 1].choice);
    }
  }

  /**
   In every run of any number of threads: only the owner of the lock is at the endpoint, a
   completed exchange is checked by the reply to its own command, an operation that holds the
   lock parses that reply, and at most one reporter closes the session.
   */
  lemma RunsAreSafe(ss: seq<State>, moves: seq<Move>, k: nat, t: nat)
    requires IsRun(ss, moves) && k <= |moves| && t < |ss[k].threads|
    ensures ss[k].shared.closes <= 1
    ensures ss[k].threads[t].pc.Complete? || ss[k].threads[t].pc == Parse(Locked) ==>
      ss[k].shared.buffer == ss[k].threads[t].mine
    ensures UsesEndpoint(ss[k].threads[t].pc) ==> ss[k].shared.owner == t
    ensures UsesEndpoint(ss[k].threads[t].pc) ==>
      forall u :: 0 <= u < |ss[k].threads| && u != t ==> !UsesEndpoint(ss[k].threads[u].pc)
  {
    InvariantAlways(ss, moves, k);
    assert Holds(ss[k].shared, t, ss[k].threads[t].pc);
    assert ReplyFits(ss[k].shared, ss[k].threads[t]);
    forall u | 0 <= u < |ss[k].threads| && UsesEndpoint(ss[k].threads[u].pc) && UsesEndpoint(ss[k].threads[t].pc)
      ensures u == t
    {
      MutualExclusion(ss[k], t, u);
    }
  }

  /**
   An operation that parses without the lock finds its own reply if and only if no exchange
   has started since its own.
   */
  lemma UnlockedParsing(ss: seq<State>, moves: seq<Move>, k: nat, t: nat)
    requires IsRun(ss, moves) && k <= |moves| && t < |ss[k].threads| && ss[k].threads[t].pc == Parse(Bare)
    ensures ss[k].shared.buffer == ss[k].threads[t].mine <==> ss[k].shared.started == ss[k].threads[t].mine
  {
    InvariantAlways(ss, moves, k);
    assert ParseFits(ss[k].shared, ss[k].threads[t]);
  }

  /** Once a reporter has set the switches no exchange starts any more. */
  lemma {:induction false} NothingAfterShutdown(ss: seq<State>, moves: seq<Move>, i: nat, k: nat)
    requires IsRun(ss, moves) && i <= k <= |moves| && ss[i].shared.ioKill
    ensures ss[k].shared.ioKill && ss[k].shared.started == ss[i].shared.started
    decreases k
  {
    if i < k {
      NothingAfterShutdown(ss, moves, i, k - 1);
      InvariantAlways(ss, moves, k - 1);
      var s, t := ss[k - 1], moves[k - 1].thread;
      assert SwitchFits(s.shared, s.threads[t]);
      SwitchesStay(s.shared, t, s.threads[t], moves[k - 1].choice);
      BufferStays(s.shared, t, s.threads[t], moves[k - 1].choice);
    }
  }

  /**
   A reporter of an error stops operations before it waits for the lock: from then on
   AtMostOneAfterKill holds, however long it has to wait.
   */
  lemma ErrorStopsFirst(ss: seq<State>, moves: seq<Move>, k: nat, t: nat)
    requires IsRun(ss, moves) && k <= |moves| && t < |ss[k].threads|
    requires ss[k].threads[t].pc == ReportLock(false) || ss[k].threads[t].pc == ReportRecheck(false)
    ensures ss[k].shared.operationKill
  {
    InvariantAlways(ss, moves, k);
    assert SwitchFits(ss[k].shared, ss[k].threads[t]);
  }

  /** A reporter that is through has left both switches set. */
  lemma ReporterLeavesSwitches(ss: seq<State>, moves: seq<Move>, k: nat, t: nat)
    requires IsRun(ss, moves) && k <= |moves| && t < |ss[k].threads| && ss[k].threads[t].pc.ReportUnlock?
    ensures ss[k].shared.ioKill && ss[k].shared.operationKill
  {
    InvariantAlways(ss, moves, k);
    assert SwitchFits(ss[k].shared, ss[k].threads[t]);
  }

  predicate OnTheWayToReport(pc: Pc) {
    pc.ReportStop? || pc.ReportLock?
  }

  lemma ReportsNoMore(g: Shared, t: nat, me: Thread, c: Choice)
    requires g.ioKill
    ensures OnTheWayToReport(Local(g, t, me, c).thread.pc) ==> OnTheWayToReport(me.pc)
  {
  }

  lemma LateStep(ss: seq<State>, moves: seq<Move>, k: nat, t: nat)
    requires IsRun(ss, moves) && k < |moves| && ss[k].shared.ioKill && t < |ss[k].threads|
    ensures ss[k + 1].shared.ioKill && |ss[k + 1].threads| == |ss[k].threads|
    ensures OnTheWayToReport(ss[k + 1].threads[t].pc) ==> OnTheWayToReport(ss[k].threads[t].pc)
  {
    var s, u := ss[k], moves[k].thread;
    SwitchesStay(s.shared, u, s.threads[u], moves[k].choice);
    ReportsNoMore(s.shared, u, s.threads[u], moves[k].choice);
  }

  /** Once the session is shut down no further reporter begins to wait: those that come return at once. */
  lemma {:induction false} NoLateReporters(ss: seq<State>, moves: seq<Move>, i: nat, k: nat, t: nat)
    requires IsRun(ss, moves) && i <= k <= |moves| && ss[i].shared.ioKill && t < |ss[i].threads|
    ensures ss[k].shared.ioKill && |ss[k].threads| == |ss[i].threads|
    ensures OnTheWayToReport(ss[k].threads[t].pc) ==> OnTheWayToReport(ss[i].threads[t].pc)
    decreases k
  {
    if i < k {
      NoLateReporters(ss, moves, i, k - 1, t);
      LateStep(ss, moves, k - 1, t);
    }
  }

  lemma WaitsFrom(g: Shared, t: nat, me: Thread, c: Choice)
    requires g.operationKill
    ensures Local(g, t, me, c).thread.pc.InnerLock? ==> me.pc.InnerLock?
  {
  }

  lemma WaiterStep(ss: seq<State>, moves: seq<Move>, k: nat, t: nat)
    requires IsRun(ss, moves) && k < |moves| && ss[k].shared.operationKill && t < |ss[k].threads|
    ensures ss[k + 1].shared.operationKill && |ss[k + 1].threads| == |ss[k].threads|
    ensures ss[k + 1].threads[t].pc.InnerLock? ==> ss[k].threads[t].pc.InnerLock?
  {
    var s, u := ss[k], moves[k].thread;
    SwitchesStay(s.shared, u, s.threads[u], moves[k].choice);
    WaitsFrom(s.shared, u, s.threads[u], moves[k].choice);
  }

  /** Once operations are stopped no thread begins to wait in ptp_send: those that come are sent away. */
  lemma {:induction false} NoNewWaiters(ss: seq<State>, moves: seq<Move>, i: nat, k: nat, t: nat)
    requires IsRun(ss, moves) && i <= k <= |moves| && ss[i].shared.operationKill && t < |ss[i].threads|
    ensures ss[k].shared.operationKill && |ss[k].threads| == |ss[i].threads|
    ensures ss[k].threads[t].pc.InnerLock? ==> ss[i].threads[t].pc.InnerLock?
    decreases k
  {
    if i < k {
      NoNewWaiters(ss, moves, i, k - 1, t);
      WaiterStep(ss, moves, k - 1, t);
    }
  }

  // ----- Intentional shutdown -----

  /** Places of a reporter of an error. */
  predicate ReportsError(pc: Pc) {
    || pc == ReportCheck(false) || pc.ReportStop? || pc == ReportLock(false) || pc == ReportRecheck(false)
  }

  /** Nobody reports an error, and whoever ends the session has closed it. */
  predicate ClosedFits(g: Shared, me: Thread) {
    && !ReportsError(me.pc) && (Closes(me.pc) ==> g.closes >= 1) && (g.ioKill ==> g.closes >= 1)
  }

  lemma LocalClosed(g: Shared, t: nat, me: Thread, c: Choice)
    requires ClosedFits(g, me) && c != CallReport(false)
    ensures ClosedFits(Local(g, t, me, c).shared, Local(g, t, me, c).thread)
    ensures Local(g, t, me, c).shared.closes >= g.closes
    ensures Local(g, t, me, c).shared.ioKill ==> g.ioKill || me.pc.ReportIo?
  {
    CountsClosers(g, t, me, c);
    if CallerOf(me.pc).Closing? {
      StaysInSend(g, t, me, c);
    }
  }

  lemma {:induction false} ClosedAlways(ss: seq<State>, moves: seq<Move>, k: nat)
    requires IsRun(ss, moves) && k <= |moves| && forall i :: 0 <= i < |moves| ==> moves[i].choice != CallReport(false)
    ensures forall t :: 0 <= t < |ss[k].threads| ==> ClosedFits(ss[k].shared, ss[k].threads[t])
  {
    if k > 0 {
      ClosedAlways(ss, moves, k - 1);
      var s, u := ss[k - 1], moves[k - 1].thread;
      LocalClosed(s.shared, u, s.threads[u], moves[k - 1].choice);
    }
  }

  /**
   In a run without reports of errors, when the switches have been set the session has been
   closed, by exactly one reporter.
   */
  lemma ClosedExactlyOnce(ss: seq<State>, moves: seq<Move>, k: nat)
    requires IsRun(ss, moves) && k <= |moves| && forall i :: 0 <= i < |moves| ==> moves[i].choice != CallReport(false)
    requires ss[k].shared.ioKill && ss[k].threads != []
    ensures ss[k].shared.closes == 1
  {
    ClosedAlways(ss, moves, k);
    InvariantAlways(ss, moves, k);
    assert ClosedFits(ss[k].shared, ss[k].threads[0]);
  }

  ghost predicate SomebodyStarting(s: State) {
    exists t :: 0 <= t < |s.threads| && s.threads[t].pc.Start?
  }

  lemma StartingStep(s: State, t: nat, c: Choice)
    requires t < |s.threads| && LockRight(s) && s.shared.operationKill
    ensures var s' := Step(s, t, c);
      && s'.shared.operationKill && (SomebodyStarting(s') ==> SomebodyStarting(s))
      && s'.shared.started == s.shared.started + (if SomebodyStarting(s) && !SomebodyStarting(s') then 1 else 0)
  {
    var s' := Step(s, t, c);
    SwitchesStay(s.shared, t, s.threads[t], c);
    StartsAtStart(s.shared, t, s.threads[t], c);
    BufferStays(s.shared, t, s.threads[t], c);
    assert forall u :: 0 <= u < |s.threads| ==> Holds(s.shared, u, s.threads[u].pc);
    assert forall u :: 0 <= u < |s.threads| && u != t ==> s'.threads[u] == s.threads[u];
    if SomebodyStarting(s') {
      var u :| 0 <= u < |s'.threads| && s'.threads[u].pc.Start?;
      assert s.threads[u].pc.Start?;
    } else if SomebodyStarting(s) {
      var u :| 0 <= u < |s.threads| && s.threads[u].pc.Start?;
      assert u == t;
    }
  }

  lemma NextStarting(ss: seq<State>, moves: seq<Move>, k: nat)
    requires IsRun(ss, moves) && k < |moves| && ss[k].shared.operationKill
    ensures ss[k + 1].shared.operationKill && (SomebodyStarting(ss[k + 1]) ==> SomebodyStarting(ss[k]))
    ensures ss[k + 1].shared.started
         == ss[k].shared.started + (if SomebodyStarting(ss[k]) && !SomebodyStarting(ss[k + 1]) then 1 else 0)
  {
    InvariantAlways(ss, moves, k);
    StartingStep(ss[k], moves[k].thread, moves[k].choice);
  }

  /** After the operation switch is set one exchange may still start: the one behind both checks. */
  lemma {:induction false} AtMostOneAfterKill(ss: seq<State>, moves: seq<Move>, i: nat, k: nat)
    requires IsRun(ss, moves) && i <= k <= |moves| && ss[i].shared.operationKill
    ensures ss[k].shared.operationKill
    ensures SomebodyStarting(ss[k]) ==> SomebodyStarting(ss[i])
    ensures ss[k].shared.started == ss[i].shared.started + (if SomebodyStarting(ss[i]) && !SomebodyStarting(ss[k]) then 1 else 0)
    decreases k
  {
    if i < k {
      AtMostOneAfterKill(ss, moves, i, k - 1);
      NextStarting(ss, moves, k - 1);
    }
  }

  /**
   After a failed exchange another thread gets past its second check only in one window: a
   thread with a broken exchange has given back the lock and not yet set the switch.
   */
  lemma WindowAfterFailure(ss: seq<State>, moves: seq<Move>, k: nat)
    requires IsRun(ss, moves) && k < |moves| && ss[k].shared.failed
    requires ss[k].threads[moves[k].thread].pc.SecondCheck? && ss[k + 1].threads[moves[k].thread].pc.Start?
    ensures exists u :: 0 <= u < |ss[k].threads| && u != moves[k].thread && ss[k].threads[u].pc.KillUnlocked?
  {
    InvariantAlways(ss, moves, k);
    var s, t := ss[k], moves[k].thread;
    StartsAtStart(s.shared, t, s.threads[t], moves[k].choice);
    var u :| 0 <= u < |s.threads| && OwesKill(s.threads[u].pc);
    assert Holds(s.shared, u, s.threads[u].pc) && Holds(s.shared, t, s.threads[t].pc);
  }

  /** After a broken exchange, the lock is given back before the switch is set. */
  predicate KillsLate(pc: Pc) {
    pc.UnlockFirst? || pc.KillUnlocked?
  }

  lemma KillsLateFrom(g: Shared, t: nat, me: Thread, c: Choice)
    requires c == IgnoredTwice || c.Replied? || !me.pc.Exchange?
    ensures KillsLate(Local(g, t, me, c).thread.pc) ==> KillsLate(me.pc)
  {
  }

  /** The exchanges of a run that fail are all commands that were ignored twice. */
  ghost predicate OnlyIgnored(ss: seq<State>, moves: seq<Move>)
    requires IsRun(ss, moves)
  {
    forall i :: 0 <= i < |moves| && ss[i].threads[moves[i].thread].pc.Exchange? ==>
      moves[i].choice == IgnoredTwice || moves[i].choice.Replied?
  }

  lemma {:induction false} NobodyKillsLate(ss: seq<State>, moves: seq<Move>, k: nat)
    requires IsRun(ss, moves) && OnlyIgnored(ss, moves) && k <= |moves|
    ensures forall t :: 0 <= t < |ss[k].threads| ==> !KillsLate(ss[k].threads[t].pc)
  {
    if k > 0 {
      NobodyKillsLate(ss, moves, k - 1);
      var s, u := ss[k - 1], moves[k - 1].thread;
      KillsLateFrom(s.shared, u, s.threads[u], moves[k - 1].choice);
    }
  }

  /** Behind a command that was ignored twice there is no such window: nobody gets past the second check. */
  lemma NoWindowAfterIgnored(ss: seq<State>, moves: seq<Move>, k: nat)
    requires IsRun(ss, moves) && OnlyIgnored(ss, moves) && k < |moves| && ss[k].shared.failed
    requires ss[k].threads[moves[k].thread].pc.SecondCheck?
    ensures !ss[k + 1].threads[moves[k].thread].pc.Start?
  {
    NobodyKillsLate(ss, moves, k);
    if ss[k + 1].threads[moves[k].thread].pc.Start? {
      WindowAfterFailure(ss, moves, k);
    }
  }

  // ----- What does not hold -----

  ghost function Last(ss: seq<State>): State
    requires ss != []
  {
    ss[|ss| - 1]
  }

  lemma Extended(ss: seq<State>, moves: seq<Move>, t: nat, c: Choice) returns (ss': seq<State>, moves': seq<Move>)
    requires IsRun(ss, moves) && t < |Last(ss).threads|
    ensures IsRun(ss', moves') && Last(ss') == Step(Last(ss), t, c)
  {
    ss', moves' := ss + [Step(Last(ss), t, c)], moves + [Move(t, c)];
    forall k | 0 <= k < |moves'|
      ensures moves'[k].thread < |ss'[k].threads|
      ensures ss'[k + 1] == Step(ss'[k], moves'[k].thread, moves'[k].choice)
    {
      if k < |moves| {
        assert ss'[k] == ss[k] && ss'[k + 1] == ss[k + 1];
      }
    }
  }

  /** Nobody holds the lock and operations are allowed. */
  predicate Open(g: Shared) {
    g.owner == NOBODY && g.count == 0 && !g.operationKill
  }

  /** A thread that calls ptp_send gets as far as the endpoint when the lock is free. */
  lemma ToTheEndpoint(ss: seq<State>, moves: seq<Move>, t: nat) returns (ss': seq<State>, moves': seq<Move>)
    requires IsRun(ss, moves) && t < |Last(ss).threads|
    requires Open(Last(ss).shared) && Last(ss).threads[t].pc.Idle?
    ensures IsRun(ss', moves')
    ensures Last(ss').shared == Last(ss).shared.(owner := t, count := 1)
    ensures Last(ss').threads == Last(ss).threads[t := Last(ss).threads[t].(pc := Start(Bare))]
  {
    ss', moves' := Extended(ss, moves, t, CallBare);
    ss', moves' := Extended(ss', moves', t, CallBare);
    ss', moves' := Extended(ss', moves', t, CallBare);
    ss', moves' := Extended(ss', moves', t, CallBare);
  }

  /** ... and with a reply out again, before it parses the reply. */
  lemma ToTheReply(ss: seq<State>, moves: seq<Move>, t: nat) returns (ss': seq<State>, moves': seq<Move>)
    requires IsRun(ss, moves) && t < |Last(ss).threads|
    requires Open(Last(ss).shared) && Last(ss).threads[t].pc.Idle?
    ensures IsRun(ss', moves')
    ensures Last(ss').shared == Last(ss).shared.(buffer := Last(ss).shared.started + 1, started := Last(ss).shared.started + 1)
    ensures Last(ss').threads == Last(ss).threads[t := Thread(Parse(Bare), Last(ss).shared.started + 1)]
  {
    ss', moves' := ToTheEndpoint(ss, moves, t);
    ss', moves' := Extended(ss', moves', t, CallBare);
    ss', moves' := Extended(ss', moves', t, Replied(true));
    ss', moves' := Extended(ss', moves', t, CallBare);
  }

  /**
   Operations that parse after ptp_send has given back the lock, like ptp_get_device_info and
   ptp_get_object_info, can find another thread's reply in the buffer.
   */
  lemma UnlockedParsingFails() returns (ss: seq<State>, moves: seq<Move>)
    ensures IsRun(ss, moves) && |Last(ss).threads| == 2
    ensures Last(ss).threads[0].pc == Parse(Bare) && Last(ss).shared.buffer != Last(ss).threads[0].mine
  {
    ss, moves := [State(Shared(false, false, NOBODY, 0, 0, 0, 0, false), [Thread(Idle, 0), Thread(Idle, 0)])], [];
    ss, moves := ToTheReply(ss, moves, 0);
    ss, moves := ToTheReply(ss, moves, 1);
  }

  /** The window after a broken exchange is real: another thread starts an exchange in it. */
  lemma FailureWindowIsReal() returns (ss: seq<State>, moves: seq<Move>)
    ensures IsRun(ss, moves) && |Last(ss).threads| == 2
    ensures Last(ss).shared.failed && Last(ss).threads[1].pc.Start? && Last(ss).threads[0].pc.KillUnlocked?
  {
    ss, moves := [State(Shared(false, false, NOBODY, 0, 0, 0, 0, false), [Thread(Idle, 0), Thread(Idle, 0)])], [];
    ss, moves := ToTheEndpoint(ss, moves, 0);
    ss, moves := Extended(ss, moves, 0, CallBare);
    ss, moves := Extended(ss, moves, 0, Broken);
    ss, moves := Extended(ss, moves, 0, Broken);
    ss, moves := ToTheEndpoint(ss, moves, 1);
  }
}
