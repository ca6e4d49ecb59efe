/**
 Stopping a receive loop: the atomic flag and the self-pipe (osctap/ip/posix/TcpSocket.h,
 osctap/ip/posix/UdpSocket.h).

 The runner, any number of `AsynchronousBreak` callers and the operating system take steps in any
 order; each step is one access to the flag or the pipe, or one callback. `Break()` is a callback's
 own: it is part of the callback step.
 */
module BreakProtocol {
  import opened Bytes
  import TimerQueue

  /** The UDP multiplexer also has timers; the TCP server may get several packets out of one `recv`. */
  datatype Server = Udp | Tcp

  /** What a `recv` of 4096 bytes can complete at most (`StreamFraming.PacketsPerRead`). */
  const MAX_PACKETS_PER_READ: nat := 1024

  /** Where the thread in `Run()` is. */
  datatype Pc =
    | Outside                          // Run() is not being executed
    | Head                             // at `while (!break_)`
    | Waiting                          // in select()
    | Reading                          // about to read a byte from the pipe
    | Recheck                          // at `if (break_) break` after select()
    | Sockets(left: nat)               // in the loop over the sockets, `left` of them to go
    | Packets(more: nat, left: nat)    // dispatching what one socket gave, `more` packets to go
    | SocketCheck(left: nat)           // at `if (break_) break` after a socket
    | ClockRead                        // about to read the clock for the timers
    | Timers(due: nat)                 // in the loop over the timers, the next `due` of them are due
    | TimerCheck(due: nat)             // at `if (break_) break` after a timer
    | Exiting                          // about to clear the flag and return

  /** `writing` callers have set the flag and not yet written their byte. */
  datatype State = State(flag: bool, pipe: nat, writing: nat, pc: Pc, callbacks: nat)

  datatype Step =
    | CallerSets
    | CallerWrites
    | Start
    | CheckFlag
    | SelectReturns
    | SelectFails(interrupted: bool)
    | ReadByte
    | Resume(sockets: nat)
    | SkipSocket
    | ServeSocket(packets: nat)
    | PacketCallback(breaks: bool)
    | PacketsDone
    | AfterSocket
    | SocketsDone
    | ReadClock(due: nat)
    | TimerCallback(breaks: bool)
    | AfterTimer
    | TimersDone
    | CallbackThrows
    | Exit

  predicate ByRunner(step: Step) {
    !step.CallerSets? && !step.CallerWrites?
  }

  predicate Enabled(server: Server, s: State, step: Step) {
    match step
    case CallerSets => true
    case CallerWrites => s.writing > 0
    case Start => s.pc.Outside?
    case CheckFlag => s.pc.Head? || (s.pc.Recheck? && s.flag)
    case SelectReturns => s.pc.Waiting?
    case SelectFails(_) => s.pc.Waiting?
    case ReadByte => s.pc.Reading? && s.pipe > 0
    case Resume(_) => s.pc.Recheck? && !s.flag
    case SkipSocket => s.pc.Sockets? && s.pc.left > 0
    case ServeSocket(packets) =>
      s.pc.Sockets? && s.pc.left > 0 && if server.Udp? then packets == 1 else packets <= MAX_PACKETS_PER_READ
    case PacketCallback(_) => s.pc.Packets? && s.pc.more > 0
    case PacketsDone => s.pc.Packets? && s.pc.more == 0
    case AfterSocket => s.pc.SocketCheck?
    case SocketsDone => s.pc.Sockets? && s.pc.left == 0
    case ReadClock(_) => s.pc.ClockRead?
    case TimerCallback(_) => s.pc.Timers? && s.pc.due > 0
    case AfterTimer => s.pc.TimerCheck?
    case TimersDone => s.pc.Timers? && s.pc.due == 0
    case CallbackThrows => (s.pc.Packets? && s.pc.more > 0) || (s.pc.Timers? && s.pc.due > 0)
    case Exit => s.pc.Exiting?
  }

  /** Where the loop over the sockets leads, run to its end or broken off. */
  function AfterSockets(server: Server): Pc {
    if server.Udp? then ClockRead else Head
  }

  function Next(server: Server, s: State, step: Step): State
    requires Enabled(server, s, step)
  {
    match step
    case CallerSets => s.(flag := true, writing := s.writing + 1)
    case CallerWrites => s.(pipe := s.pipe + 1, writing := s.writing - 1)
    case Start => s.(pc := Head)
    case CheckFlag => s.(pc := if s.flag then Exiting else Waiting)
    case SelectReturns => s.(pc := if s.pipe > 0 then Reading else Recheck)
    case SelectFails(interrupted) => s.(pc := if s.flag || !interrupted then Exiting else Head)
    case ReadByte => s.(pipe := s.pipe - 1, pc := Recheck)
    case Resume(sockets) => s.(pc := Sockets(sockets))
    case SkipSocket => s.(pc := Sockets(s.pc.left - 1))
    case ServeSocket(packets) => s.(pc := Packets(packets, s.pc.left - 1))
    case PacketCallback(breaks) =>
      s.(flag := s.flag || breaks, callbacks := s.callbacks + 1, pc := Packets(s.pc.more - 1, s.pc.left))
    case PacketsDone => s.(pc := SocketCheck(s.pc.left))
    case AfterSocket => s.(pc := if s.flag then AfterSockets(server) else Sockets(s.pc.left))
    case SocketsDone => s.(pc := AfterSockets(server))
    case ReadClock(due) => s.(pc := Timers(due))
    case TimerCallback(breaks) =>
      s.(flag := s.flag || breaks, callbacks := s.callbacks + 1, pc := TimerCheck(s.pc.due - 1))
    case AfterTimer => s.(pc := if s.flag then Head else Timers(s.pc.due))
    case TimersDone => s.(pc := Head)
    case CallbackThrows => s.(callbacks := s.callbacks + 1, pc := Exiting)
    case Exit => s.(flag := false, pc := Outside)
  }

  /** Before the first run: callers may already have been here. */
  predicate Initial(s: State) {
    s.pc.Outside? && s.callbacks == 0
  }

  /** Each step is enabled where it is taken. */
  predicate Run(server: Server, s: State, steps: seq<Step>)
    decreases |steps|
  {
    steps != [] ==> Enabled(server, s, steps[0]) && Run(server, Next(server, s, steps[0]), steps[1..])
  }

  function After(server: Server, s: State, steps: seq<Step>): State
    requires Run(server, s, steps)
    decreases |steps|
  {
    if steps == [] then s else After(server, Next(server, s, steps[0]), steps[1..])
  }

  // ----- no stop request is lost, and the pipe read never blocks

  predicate Inv(s: State) {
    && (s.pc.Waiting? && s.flag ==> s.pipe > 0 || s.writing > 0)
    && (s.pc.Reading? ==> s.pipe > 0)
  }

  lemma StepKeepsInv(server: Server, s: State, step: Step)
    requires Inv(s) && Enabled(server, s, step)
    ensures Inv(Next(server, s, step))
  {
  }

  /**
   In every reachable state: if the flag is set while the runner waits in select(), there is a byte in
   the pipe or a caller about to write one; and a runner about to read the pipe finds a byte in it.
   */
  lemma NoLostStop(server: Server, s: State, steps: seq<Step>)
    requires Initial(s) && Run(server, s, steps)
    ensures Inv(After(server, s, steps))
  {
    InvKept(server, s, steps);
  }

  lemma {:induction false} InvKept(server: Server, s: State, steps: seq<Step>)
    requires Inv(s) && Run(server, s, steps)
    ensures Inv(After(server, s, steps))
    decreases |steps|
  {
    hide Inv, Next, Enabled;
    if steps != [] {
      StepKeepsInv(server, s, steps[0]);
      InvKept(server, Next(server, s, steps[0]), steps[1..]);
    }
  }

  /** A step the runner can take without waiting for anything: select() returns at once if there is a byte. */
  predicate Ready(server: Server, s: State, step: Step) {
    ByRunner(step) && Enabled(server, s, step) && (s.pc.Waiting? ==> s.pipe > 0)
  }

  /** A runner that has been told to stop is never stuck: it can go on, or a caller can, and then it can. */
  lemma NeverStuck(server: Server, s: State)
    requires Inv(s) && s.flag && !s.pc.Outside?
    ensures (exists step :: Ready(server, s, step))
            || (Enabled(server, s, CallerWrites)
                && exists step :: Ready(server, Next(server, s, CallerWrites), step))
  {
    match s.pc
    case Head => assert Ready(server, s, CheckFlag);
    case Waiting =>
      if s.pipe > 0 {
        assert Ready(server, s, SelectReturns);
      } else {
        assert Ready(server, Next(server, s, CallerWrites), SelectReturns);
      }
    case Reading => assert Ready(server, s, ReadByte);
    case Recheck => assert Ready(server, s, CheckFlag);
    case Sockets(left) => assert Ready(server, s, if left > 0 then SkipSocket else SocketsDone);
    case Packets(more, _) => assert Ready(server, s, if more > 0 then PacketCallback(false) else PacketsDone);
    case SocketCheck(_) => assert Ready(server, s, AfterSocket);
    case ClockRead => assert Ready(server, s, ReadClock(0));
    case Timers(due) => assert Ready(server, s, if due > 0 then TimerCallback(false) else TimersDone);
    case TimerCheck(_) => assert Ready(server, s, AfterTimer);
    case Exiting => assert Ready(server, s, Exit);
    case Outside =>
  }

  // ----- the runner stops soon

  /** A bound on the runner's steps up to `Exit`, once the flag is set. */
  function Rank(pc: Pc): nat {
    match pc
    case Outside => 0
    case Exiting => 1
    case Head => 2
    case Recheck => 2
    case Reading => 3
    case Waiting => 4
    case TimerCheck(_) => 3
    case Timers(_) => 4
    case ClockRead => 5
    case SocketCheck(_) => 6
    case Packets(more, _) => 7 + more
    case Sockets(left) => 8 + MAX_PACKETS_PER_READ + left
  }

  function AtMostOne(n: nat): nat {
    if n > 0 then 1 else 0
  }

  function OneTimer(server: Server): nat {
    if server.Udp? then 1 else 0
  }

  /** A bound on the callbacks still made, once the flag is set. */
  function CallbacksLeft(server: Server, pc: Pc): nat {
    match pc
    case Sockets(_) => OneTimer(server) + if server.Udp? then 1 else MAX_PACKETS_PER_READ
    case Packets(more, _) => OneTimer(server) + more
    case SocketCheck(_) => OneTimer(server)
    case ClockRead => 1
    case Timers(due) => AtMostOne(due)
    case _ => 0
  }

  lemma StopStep(server: Server, s: State, step: Step)
    requires s.flag && !s.pc.Outside? && Enabled(server, s, step)
    ensures var t := Next(server, s, step);
            && (step != Exit ==> t.flag && !t.pc.Outside?)
            && (if ByRunner(step) then Rank(t.pc) < Rank(s.pc) else t.pc == s.pc)
            && t.callbacks + CallbacksLeft(server, t.pc) <= s.callbacks + CallbacksLeft(server, s.pc)
  {
  }

  function RunnerSteps(steps: seq<Step>): nat {
    if steps == [] then 0 else (if ByRunner(steps[0]) then 1 else 0) + RunnerSteps(steps[1..])
  }

  /**
   With the flag set, and whatever the callers and the system do meanwhile, the runner leaves `Run()`
   within `Rank` of its own steps, and makes at most `CallbacksLeft` more callbacks.
   */
  lemma StopsSoon(server: Server, s: State, steps: seq<Step>)
    requires s.flag && !s.pc.Outside? && Run(server, s, steps) && Exit !in steps
    ensures RunnerSteps(steps) < Rank(s.pc)
    ensures After(server, s, steps).flag && !After(server, s, steps).pc.Outside?
    ensures After(server, s, steps).callbacks <= s.callbacks + CallbacksLeft(server, s.pc)
  {
    StopsSoonAux(server, s, steps);
  }

  lemma {:induction false} StopsSoonAux(server: Server, s: State, steps: seq<Step>)
    requires s.flag && !s.pc.Outside? && Run(server, s, steps) && Exit !in steps
    ensures var t := After(server, s, steps);
            && t.flag && !t.pc.Outside?
            && RunnerSteps(steps) + Rank(t.pc) <= Rank(s.pc)
            && t.callbacks + CallbacksLeft(server, t.pc) <= s.callbacks + CallbacksLeft(server, s.pc)
            && Rank(t.pc) > 0
    decreases |steps|
  {
    hide Next, Enabled, CallbacksLeft;
    if steps != [] {
      StopStep(server, s, steps[0]);
      StopsSoonAux(server, Next(server, s, steps[0]), steps[1..]);
    }
  }

  /** A break made before `Run()` makes it return without a single callback. */
  lemma BreakBeforeRun(server: Server, s: State, steps: seq<Step>)
    requires s.pc.Outside? && s.flag
    requires Run(server, s, [Start] + steps) && Exit !in steps
    ensures After(server, s, [Start] + steps).callbacks == s.callbacks
    ensures RunnerSteps(steps) < 2
  {
    hide Enabled;
    assert ([Start] + steps)[1..] == steps;
    StopsSoon(server, Next(server, s, Start), steps);
    CallbacksGrow(server, Next(server, s, Start), steps);
  }

  lemma {:induction false} CallbacksGrow(server: Server, s: State, steps: seq<Step>)
    requires Run(server, s, steps)
    ensures After(server, s, steps).callbacks >= s.callbacks
    decreases |steps|
  {
    if steps != [] {
      CallbacksGrow(server, Next(server, s, steps[0]), steps[1..]);
    }
  }

  // ----- when Run() returns

  /** What can make `Run()` return. */
  predicate Cause(step: Step) {
    step in {CallerSets, PacketCallback(true), TimerCallback(true), SelectFails(false), CallbackThrows}
  }

  /** No spurious stop: without a cause, and whatever bytes earlier breaks left in the pipe, `Run()` goes on. */
  lemma {:induction false} ReturnsOnlyForACause(server: Server, s: State, steps: seq<Step>)
    requires !s.flag && !s.pc.Exiting? && Run(server, s, steps)
    requires forall step :: step in steps ==> !Cause(step)
    ensures Exit !in steps
    ensures !After(server, s, steps).flag && !After(server, s, steps).pc.Exiting?
    decreases |steps|
  {
    if steps != [] {
      assert !Cause(steps[0]);
      ReturnsOnlyForACause(server, Next(server, s, steps[0]), steps[1..]);
    }
  }

  /** However a run ends, the flag is clear right after it; a stop request made before that is consumed. */
  lemma {:induction false} FlagClearAfterExit(server: Server, s: State, steps: seq<Step>)
    requires Run(server, s, steps + [Exit])
    ensures !After(server, s, steps + [Exit]).flag && After(server, s, steps + [Exit]).pc.Outside?
    decreases |steps|
  {
    if steps == [] {
      assert steps + [Exit] == [Exit] && [Exit][1..] == [];
    } else {
      assert (steps + [Exit])[1..] == steps[1..] + [Exit];
      FlagClearAfterExit(server, Next(server, s, steps[0]), steps[1..]);
    }
  }

  // ----- what a pass without a stop request does

  /** What the steps of a pass add up to. */
  datatype Tally = Tally(
    selects: nat,    // calls of select(), and those that did not fail
    returned: nat,
    bytes: nat,      // bytes read from the pipe
    resumed: nat,    // entries into the loop over the sockets, and how many sockets it is over
    sockets: nat,
    handled: nat,    // sockets skipped or served, and the packets they gave
    packets: nat,
    clocks: nat,     // clock readings, and how many timers they found due
    due: nat)

  const NOTHING: Tally := Tally(0, 0, 0, 0, 0, 0, 0, 0, 0)

  function Plus(t: Tally, step: Step): Tally {
    match step
    case SelectReturns => t.(selects := t.selects + 1, returned := t.returned + 1)
    case SelectFails(_) => t.(selects := t.selects + 1)
    case ReadByte => t.(bytes := t.bytes + 1)
    case Resume(sockets) => t.(resumed := t.resumed + 1, sockets := t.sockets + sockets)
    case SkipSocket => t.(handled := t.handled + 1)
    case ServeSocket(packets) => t.(handled := t.handled + 1, packets := t.packets + packets)
    case ReadClock(due) => t.(clocks := t.clocks + 1, due := t.due + due)
    case _ => t
  }

  function Total(steps: seq<Step>): Tally {
    if steps == [] then NOTHING else Plus(Total(steps[1..]), steps[0])
  }

  /** No stop request, no failure, and no start of another pass. */
  predicate Plain(steps: seq<Step>) {
    forall step :: step in steps ==> !Cause(step) && step != CheckFlag
  }

  function SelectsAhead(pc: Pc): nat {
    if pc.Waiting? then 1 else 0
  }

  function BytesAhead(pc: Pc): nat {
    if pc.Reading? then 1 else 0
  }

  function ResumesAhead(pc: Pc): nat {
    if pc.Reading? || pc.Recheck? then 1 else 0
  }

  function SocketsAhead(pc: Pc): nat {
    match pc
    case Sockets(left) => left
    case Packets(_, left) => left
    case SocketCheck(left) => left
    case _ => 0
  }

  function ClocksAhead(server: Server, pc: Pc): nat {
    match pc
    case Sockets(_) => OneTimer(server)
    case Packets(_, _) => OneTimer(server)
    case SocketCheck(_) => OneTimer(server)
    case ClockRead => 1
    case _ => 0
  }

  function CallsAhead(pc: Pc): nat {
    match pc
    case Packets(more, _) => more
    case Timers(due) => due
    case TimerCheck(due) => due
    case _ => 0
  }

  /** Inside a pass that nobody has asked to stop. */
  predicate Undisturbed(s: State) {
    !s.flag && !s.pc.Outside? && !s.pc.Exiting?
  }

  /** What has been done and what lies ahead in `t` is what lay ahead in `s`. */
  predicate Balance(server: Server, s: State, c: Tally, t: State) {
    && c.selects + SelectsAhead(t.pc) == SelectsAhead(s.pc)
    && c.resumed + ResumesAhead(t.pc) == ResumesAhead(s.pc) + c.returned
    && c.handled + SocketsAhead(t.pc) == SocketsAhead(s.pc) + c.sockets
    && c.clocks + ClocksAhead(server, t.pc) == ClocksAhead(server, s.pc) + OneTimer(server) * c.resumed
    && t.callbacks + CallsAhead(t.pc) == s.callbacks + CallsAhead(s.pc) + c.packets + c.due
  }

  lemma PlainStep(server: Server, s: State, step: Step)
    requires Undisturbed(s) && Enabled(server, s, step) && !Cause(step) && step != CheckFlag
    ensures Undisturbed(Next(server, s, step))
    ensures Balance(server, s, Plus(NOTHING, step), Next(server, s, step))
  {
  }

  lemma BalanceAdds(server: Server, s: State, step: Step, r: State, c: Tally, t: State)
    requires Balance(server, s, Plus(NOTHING, step), r) && Balance(server, r, c, t)
    ensures Balance(server, s, Plus(c, step), t)
  {
    hide SelectsAhead, ResumesAhead, SocketsAhead, ClocksAhead, CallsAhead;
  }

  lemma {:induction false} PassBalances(server: Server, s: State, steps: seq<Step>)
    requires Undisturbed(s) && Run(server, s, steps) && Plain(steps)
    ensures Undisturbed(After(server, s, steps))
    ensures Balance(server, s, Total(steps), After(server, s, steps))
    decreases |steps|
  {
    hide Enabled, Next, Undisturbed, Balance, Plus;
    if steps == [] {
      BalanceNothing(server, s);
    } else {
      assert steps[0] in steps && Plain(steps[1..]);
      var r := Next(server, s, steps[0]);
      PlainStep(server, s, steps[0]);
      PassBalances(server, r, steps[1..]);
      BalanceAdds(server, s, steps[0], r, Total(steps[1..]), After(server, s, steps));
    }
  }

  lemma BalanceNothing(server: Server, s: State)
    ensures Balance(server, s, NOTHING, s)
  {
  }

  lemma {:induction false} TotalIsSound(steps: seq<Step>)
    ensures var c := Total(steps);
            && (c.resumed == 0 ==> c.sockets == 0)
            && (c.handled == 0 ==> c.packets == 0)
            && (c.clocks == 0 ==> c.due == 0)
            && (c.clocks <= 1 ==> c.due == DueRead(steps))
            && c.returned <= c.selects
  {
    if steps != [] {
      TotalIsSound(steps[1..]);
    }
  }

  /**
   The loop over `n` sockets, entered without a stop request and left for the head of the main loop, has
   served or skipped each of them, made a callback for each of their packets, and, over UDP, read the
   clock exactly once after that and made a callback for each timer that was due then.
   */
  lemma SocketsThenTimers(server: Server, s: State, n: nat, steps: seq<Step>)
    requires !s.flag && s.pc == Sockets(n) && Run(server, s, steps) && Plain(steps)
    requires After(server, s, steps).pc.Head?
    ensures var c := Total(steps);
            && c.handled == n && c.clocks == OneTimer(server)
            && After(server, s, steps).callbacks
               == s.callbacks + c.packets + if server.Udp? then DueRead(steps) else 0
  {
    hide After, Run;
    PassBalances(server, s, steps);
    TotalIsSound(steps);
  }

  /** One timer callback for each entry of the queue that is due at that reading. */
  lemma UdpPassFiresAllDue(s: State, n: nat, steps: seq<Step>, q: seq<TimerQueue.Entry>, now: int)
    requires !s.flag && s.pc == Sockets(n) && Run(Udp, s, steps) && Plain(steps)
    requires After(Udp, s, steps).pc.Head? && DueRead(steps) == TimerQueue.DueCount(q, now)
    ensures After(Udp, s, steps).callbacks == s.callbacks + Total(steps).packets + TimerQueue.DueCount(q, now)
  {
    hide After, Run, Total;
    SocketsThenTimers(Udp, s, n, steps);
  }

  /** The timer loop without a stop request makes the callbacks that this model counts for it. */
  method PassWithoutBreak(q: seq<TimerQueue.Entry>, timers: seq<TimerQueue.Timer>, fired: seq<nat>, now: int)
    returns (calls: seq<nat>)
    requires TimerQueue.Sorted(q) && TimerQueue.IsQueueOf(q, |timers|) && |fired| == |timers|
    ensures |calls| == CallsAhead(Timers(TimerQueue.DueCount(q, now)))
    ensures forall i :: 0 <= i < |calls| ==> i < |q| && calls[i] == q[i].timer
  {
    hide TimerQueue.Advanced, TimerQueue.FiredFirst, TimerQueue.IsQueueOf, TimerQueue.DueCount;
    var q', fired', stopped;
    q', fired', calls, stopped := TimerQueue.FireDue(q, timers, fired, now, None);
  }

  /**
   A whole pass of the main loop: one call of select(); if a signal interrupted it nothing else happens;
   otherwise the sockets are looped over once, all of them, and the timers after that.
   */
  lemma WholePass(server: Server, s: State, steps: seq<Step>)
    requires !s.flag && s.pc.Head? && Run(server, s, [CheckFlag] + steps) && Plain(steps)
    requires After(server, s, [CheckFlag] + steps).pc.Head?
    ensures var c := Total(steps);
            && c.selects == 1 && c.returned <= 1
            && (c.returned == 0 ==>
                  && c.resumed == c.handled == c.clocks == 0
                  && After(server, s, [CheckFlag] + steps).callbacks == s.callbacks)
            && (c.returned == 1 ==> c.resumed == 1 && c.handled == c.sockets && c.clocks == OneTimer(server))
            && After(server, s, [CheckFlag] + steps).callbacks == s.callbacks + c.packets + DueRead(steps)
  {
    assert ([CheckFlag] + steps)[1..] == steps;
    PassBalances(server, Next(server, s, CheckFlag), steps);
    TotalIsSound(steps);
  }

  /** If there is a byte in the pipe before it, a pass reads one, unless it is interrupted; it never reads more. */
  lemma PassDrains(server: Server, s: State, steps: seq<Step>)
    requires !s.flag && s.pc.Head? && Run(server, s, [CheckFlag] + steps) && Plain(steps)
    requires After(server, s, [CheckFlag] + steps).pc.Head?
    ensures Total(steps).bytes <= Total(steps).returned
    ensures s.pipe > 0 ==> Total(steps).bytes == Total(steps).returned
    ensures After(server, s, [CheckFlag] + steps).pipe + Total(steps).bytes == s.pipe + Written(steps)
  {
    assert ([CheckFlag] + steps)[1..] == steps;
    var r := Next(server, s, CheckFlag);
    assert r == s.(pc := Waiting);
    hide Enabled, Next, Total;
    PipeBalances(server, r, steps);
    BytesBalance(server, r, steps);
  }

  /** How many bytes the callers write. */
  function Written(steps: seq<Step>): nat {
    if steps == [] then 0 else (if steps[0].CallerWrites? then 1 else 0) + Written(steps[1..])
  }

  lemma {:induction false} PipeBalances(server: Server, s: State, steps: seq<Step>)
    requires Run(server, s, steps)
    ensures After(server, s, steps).pipe + Total(steps).bytes == s.pipe + Written(steps)
    decreases |steps|
  {
    if steps != [] {
      PipeBalances(server, Next(server, s, steps[0]), steps[1..]);
    }
  }

  lemma {:induction false} BytesBalance(server: Server, s: State, steps: seq<Step>)
    requires Undisturbed(s) && Run(server, s, steps) && Plain(steps)
    ensures var c, t := Total(steps), After(server, s, steps);
            && c.bytes + BytesAhead(t.pc) <= BytesAhead(s.pc) + c.returned
            && (!s.pc.Waiting? || s.pipe > 0 ==> c.bytes + BytesAhead(t.pc) == BytesAhead(s.pc) + c.returned)
    decreases |steps|
  {
    hide Enabled, Next, Undisturbed, BytesAhead, Plus;
    if steps != [] {
      assert steps[0] in steps && Plain(steps[1..]);
      PlainStep(server, s, steps[0]);
      BytesStep(server, s, steps[0], Total(steps[1..]));
      BytesBalance(server, Next(server, s, steps[0]), steps[1..]);
    }
  }

  lemma BytesStep(server: Server, s: State, step: Step, c: Tally)
    requires Undisturbed(s) && Enabled(server, s, step) && !Cause(step) && step != CheckFlag
    ensures var r, d := Next(server, s, step), Plus(c, step);
            && c.bytes <= d.bytes && c.returned <= d.returned
            && (d.bytes - c.bytes) + BytesAhead(r.pc) <= BytesAhead(s.pc) + (d.returned - c.returned)
            && (!s.pc.Waiting? || s.pipe > 0 ==>
                  && (d.bytes - c.bytes) + BytesAhead(r.pc) == BytesAhead(s.pc) + (d.returned - c.returned)
                  && (!r.pc.Waiting? || r.pipe > 0))
  {
  }

  // ----- failures

  /** A select() that fails for good, or a callback that throws: `Run()` makes no further callback and returns. */
  lemma FailureLeaves(server: Server, s: State, failure: Step, steps: seq<Step>)
    requires failure in {SelectFails(false), CallbackThrows}
    requires Run(server, s, [failure] + steps) && Exit !in steps
    ensures RunnerSteps(steps) == 0 && After(server, s, [failure] + steps).pc.Exiting?
    ensures After(server, s, [failure] + steps).callbacks
            == s.callbacks + if failure == CallbackThrows then 1 else 0
  {
    assert ([failure] + steps)[1..] == steps;
    OnlyExit(server, Next(server, s, failure), steps);
  }

  lemma {:induction false} OnlyExit(server: Server, s: State, steps: seq<Step>)
    requires s.pc.Exiting? && Run(server, s, steps) && Exit !in steps
    ensures RunnerSteps(steps) == 0
    ensures After(server, s, steps).pc.Exiting? && After(server, s, steps).callbacks == s.callbacks
    decreases |steps|
  {
    if steps != [] {
      OnlyExit(server, Next(server, s, steps[0]), steps[1..]);
    }
  }

  // ----- exactly what still happens after a callback's own Break()

  /** Past every point where the runner could begin serving a socket again, once the flag is set. */
  predicate Leaving(pc: Pc) {
    pc.Packets? || pc.SocketCheck? || pc.ClockRead? || pc.Timers? || pc.TimerCheck? || pc.Head? || pc.Exiting?
  }

  /** The callbacks that are certain: the rest of the packets of the read, and one timer if one is due. */
  function Owed(pc: Pc): nat {
    match pc
    case Packets(more, _) => more
    case Timers(due) => AtMostOne(due)
    case _ => 0
  }

  /** How many clock readings for the timers lie ahead. */
  function ReadingsAhead(server: Server, pc: Pc): nat {
    match pc
    case Packets(_, _) => OneTimer(server)
    case SocketCheck(_) => OneTimer(server)
    case ClockRead => 1
    case _ => 0
  }

  /** How many timers are due at the first reading in `steps`. */
  function DueRead(steps: seq<Step>): nat {
    if steps == [] then 0 else if steps[0].ReadClock? then steps[0].due else DueRead(steps[1..])
  }

  predicate Quiet(steps: seq<Step>) {
    Exit !in steps && CallbackThrows !in steps
  }

  lemma {:induction false} LeavingExactly(server: Server, s: State, steps: seq<Step>)
    requires s.flag && Leaving(s.pc) && Run(server, s, steps) && Quiet(steps)
    ensures var t := After(server, s, steps);
            && t.flag && Leaving(t.pc)
            && ReadingsAhead(server, t.pc) <= ReadingsAhead(server, s.pc) <= 1
            && t.callbacks + Owed(t.pc)
               == s.callbacks + Owed(s.pc)
                  + if ReadingsAhead(server, t.pc) < ReadingsAhead(server, s.pc) then AtMostOne(DueRead(steps)) else 0
    decreases |steps|
  {
    hide Enabled, Next, Owed, Leaving;
    if steps != [] {
      assert Quiet(steps[1..]);
      LeavingStep(server, s, steps[0]);
      LeavingExactly(server, Next(server, s, steps[0]), steps[1..]);
    }
  }

  lemma LeavingStep(server: Server, s: State, step: Step)
    requires s.flag && Leaving(s.pc) && Enabled(server, s, step) && step != Exit && step != CallbackThrows
    ensures var t := Next(server, s, step);
            && t.flag && Leaving(t.pc)
            && ReadingsAhead(server, s.pc) <= 1
            && ReadingsAhead(server, t.pc) == ReadingsAhead(server, s.pc) - (if step.ReadClock? then 1 else 0)
            && t.callbacks + Owed(t.pc)
               == s.callbacks + Owed(s.pc) + if step.ReadClock? then AtMostOne(step.due) else 0
  {
  }

  /**
   A packet callback calls `Break()`. By the time the runner is about to return, it has made exactly
   these callbacks more: the remaining packets of the same read, and, over UDP, one timer iff a timer
   was due when the clock was read after that.
   */
  lemma AfterOwnBreak(server: Server, s: State, steps: seq<Step>)
    requires s.pc.Packets? && s.pc.more > 0
    requires Run(server, s, [PacketCallback(true)] + steps) && Quiet(steps)
    requires After(server, s, [PacketCallback(true)] + steps).pc.Exiting?
    ensures After(server, s, [PacketCallback(true)] + steps).callbacks
            == s.callbacks + 1 + (s.pc.more - 1) + if server.Udp? && DueRead(steps) > 0 then 1 else 0
  {
    assert ([PacketCallback(true)] + steps)[1..] == steps;
    LeavingExactly(server, Next(server, s, PacketCallback(true)), steps);
  }

  /** Over TCP nothing follows the breaking packet iff it was the last one of its read. */
  lemma TcpBreakIsPromptIff(s: State, steps: seq<Step>)
    requires s.pc.Packets? && s.pc.more > 0
    requires Run(Tcp, s, [PacketCallback(true)] + steps) && Quiet(steps)
    requires After(Tcp, s, [PacketCallback(true)] + steps).pc.Exiting?
    ensures After(Tcp, s, [PacketCallback(true)] + steps).callbacks == s.callbacks + 1 <==> s.pc.more == 1
  {
    hide After, Run, Next, Enabled;
    AfterOwnBreak(Tcp, s, steps);
  }

  /**
   Over UDP nothing follows the breaking packet iff, at the clock reading after the socket loop, the
   timer queue is empty or its front is not due.
   */
  lemma UdpBreakIsPromptIff(s: State, steps: seq<Step>, q: seq<TimerQueue.Entry>, now: int)
    requires s.pc.Packets? && s.pc.more == 1
    requires Run(Udp, s, [PacketCallback(true)] + steps) && Quiet(steps)
    requires After(Udp, s, [PacketCallback(true)] + steps).pc.Exiting?
    requires DueRead(steps) == TimerQueue.DueCount(q, now)
    ensures After(Udp, s, [PacketCallback(true)] + steps).callbacks == s.callbacks + 1
            <==> q == [] || q[0].due > now
    ensures After(Udp, s, [PacketCallback(true)] + steps).callbacks <= s.callbacks + 2
  {
    hide After, Run, Next, Enabled;
    AfterOwnBreak(Udp, s, steps);
  }

  /** A timer's own `Break()` is the last callback. */
  lemma TimerBreakIsPrompt(server: Server, s: State, steps: seq<Step>)
    requires s.pc.Timers? && s.pc.due > 0
    requires Run(server, s, [TimerCallback(true)] + steps) && Quiet(steps)
    ensures After(server, s, [TimerCallback(true)] + steps).callbacks == s.callbacks + 1
  {
    assert ([TimerCallback(true)] + steps)[1..] == steps;
    LeavingExactly(server, Next(server, s, TimerCallback(true)), steps);
    CallbacksGrow(server, Next(server, s, TimerCallback(true)), steps);
  }

  /** The timer loop entered with the flag set makes the callback that this model counts for it. */
  method PassAfterBreak(q: seq<TimerQueue.Entry>, timers: seq<TimerQueue.Timer>, fired: seq<nat>, now: int)
    returns (calls: seq<nat>)
    requires TimerQueue.Sorted(q) && TimerQueue.IsQueueOf(q, |timers|) && |fired| == |timers|
    ensures |calls| == Owed(Timers(TimerQueue.DueCount(q, now)))
    ensures calls == [] <==> q == [] || q[0].due > now
  {
    hide TimerQueue.Advanced, TimerQueue.FiredFirst, TimerQueue.IsQueueOf;
    var q', fired', stopped;
    q', fired', calls, stopped := TimerQueue.FireDue(q, timers, fired, now, Some(0));
  }

  // ----- both exceptions do happen

  predicate RunTo(server: Server, s: State, steps: seq<Step>, t: State) {
    Run(server, s, steps) && After(server, s, steps) == t
  }

  predicate Goes(server: Server, s: State, step: Step, t: State) {
    Enabled(server, s, step) && Next(server, s, step) == t
  }

  lemma OneStep(server: Server, s: State, step: Step, t: State) returns (steps: seq<Step>)
    requires Goes(server, s, step, t)
    ensures RunTo(server, s, steps, t)
    ensures steps == [step]
  {
    hide Enabled, Next;
    steps := [step];
    assert steps[1..] == [];
    assert RunTo(server, t, [], t);
  }

  /** Put one more step in front of a run to `t`. */
  lemma Before(server: Server, s: State, step: Step, s': State, steps: seq<Step>, t: State) returns (longer: seq<Step>)
    requires Goes(server, s, step, s') && RunTo(server, s', steps, t)
    ensures RunTo(server, s, longer, t)
    ensures longer == [step] + steps
  {
    hide Enabled, Next;
    longer := [step] + steps;
    assert longer[1..] == steps;
  }

  /** With nobody else about, and one socket: a state of the thread. */
  function At(pc: Pc, flag: bool, callbacks: nat): State {
    State(flag, 0, 0, pc, callbacks)
  }

  lemma StartHops(server: Server)
    ensures Goes(server, At(Outside, false, 0), Start, At(Head, false, 0))
    ensures Goes(server, At(Head, false, 0), CheckFlag, At(Waiting, false, 0))
    ensures Goes(server, At(Waiting, false, 0), SelectReturns, At(Recheck, false, 0))
    ensures Goes(server, At(Recheck, false, 0), Resume(1), At(Sockets(1), false, 0))
  {
  }

  lemma ServeHop(server: Server, packets: nat)
    requires if server.Udp? then packets == 1 else packets <= MAX_PACKETS_PER_READ
    ensures Goes(server, At(Sockets(1), false, 0), ServeSocket(packets), At(Packets(packets, 0), false, 0))
  {
  }

  /** From the start of `Run()` to a socket that gives `packets` packets. */
  lemma UpToPackets(server: Server, packets: nat, steps: seq<Step>, t: State) returns (longer: seq<Step>)
    requires if server.Udp? then packets == 1 else packets <= MAX_PACKETS_PER_READ
    requires RunTo(server, At(Packets(packets, 0), false, 0), steps, t)
    ensures RunTo(server, At(Outside, false, 0), longer, t)
    ensures longer == [Start, CheckFlag, SelectReturns, Resume(1), ServeSocket(packets)] + steps
  {
    hide RunTo, Goes, At;
    StartHops(server);
    ServeHop(server, packets);
    var served := At(Packets(packets, 0), false, 0);
    longer := Before(server, At(Sockets(1), false, 0), ServeSocket(packets), served, steps, t);
    longer := Before(server, At(Recheck, false, 0), Resume(1), At(Sockets(1), false, 0), longer, t);
    longer := Before(server, At(Waiting, false, 0), SelectReturns, At(Recheck, false, 0), longer, t);
    longer := Before(server, At(Head, false, 0), CheckFlag, At(Waiting, false, 0), longer, t);
    longer := Before(server, At(Outside, false, 0), Start, At(Head, false, 0), longer, t);
  }

  lemma TimerHops()
    ensures Goes(Udp, At(Packets(1, 0), false, 0), PacketCallback(true), At(Packets(0, 0), true, 1))
    ensures Goes(Udp, At(Packets(0, 0), true, 1), PacketsDone, At(SocketCheck(0), true, 1))
    ensures Goes(Udp, At(SocketCheck(0), true, 1), AfterSocket, At(ClockRead, true, 1))
    ensures Goes(Udp, At(ClockRead, true, 1), ReadClock(1), At(Timers(1), true, 1))
    ensures Goes(Udp, At(Timers(1), true, 1), TimerCallback(false), At(TimerCheck(0), true, 2))
  {
  }

  /** A UDP run in which a timer fires after the `Break()` of the only packet. */
  lemma TimerFiresAfterBreak() returns (steps: seq<Step>)
    ensures Initial(At(Outside, false, 0))
    ensures RunTo(Udp, At(Outside, false, 0), steps, At(TimerCheck(0), true, 2))
    ensures steps == [Start, CheckFlag, SelectReturns, Resume(1), ServeSocket(1)]
                     + [PacketCallback(true), PacketsDone, AfterSocket, ReadClock(1), TimerCallback(false)]
  {
    assert Initial(At(Outside, false, 0));
    hide RunTo, Goes, At;
    TimerHops();
    var t := At(TimerCheck(0), true, 2);
    steps := OneStep(Udp, At(Timers(1), true, 1), TimerCallback(false), t);
    steps := Before(Udp, At(ClockRead, true, 1), ReadClock(1), At(Timers(1), true, 1), steps, t);
    steps := Before(Udp, At(SocketCheck(0), true, 1), AfterSocket, At(ClockRead, true, 1), steps, t);
    steps := Before(Udp, At(Packets(0, 0), true, 1), PacketsDone, At(SocketCheck(0), true, 1), steps, t);
    steps := Before(Udp, At(Packets(1, 0), false, 0), PacketCallback(true), At(Packets(0, 0), true, 1), steps, t);
    steps := UpToPackets(Udp, 1, steps, t);
  }

  /** A TCP run in which a packet is dispatched after the `Break()` of the one before it. */
  lemma PacketFollowsBreak() returns (steps: seq<Step>)
    ensures RunTo(Tcp, At(Outside, false, 0), steps, At(Packets(0, 0), true, 2))
    ensures steps == [Start, CheckFlag, SelectReturns, Resume(1), ServeSocket(2)]
                     + [PacketCallback(true), PacketCallback(false)]
  {
    assert Goes(Tcp, At(Packets(2, 0), false, 0), PacketCallback(true), At(Packets(1, 0), true, 1));
    assert Goes(Tcp, At(Packets(1, 0), true, 1), PacketCallback(false), At(Packets(0, 0), true, 2));
    hide RunTo, Goes, At;
    var t := At(Packets(0, 0), true, 2);
    steps := OneStep(Tcp, At(Packets(1, 0), true, 1), PacketCallback(false), t);
    steps := Before(Tcp, At(Packets(2, 0), false, 0), PacketCallback(true), At(Packets(1, 0), true, 1), steps, t);
    steps := UpToPackets(Tcp, 2, steps, t);
  }
}
