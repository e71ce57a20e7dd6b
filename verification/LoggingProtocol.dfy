/**
  The double-buffered log as an interleaving of steps: any number of writers that
  append under the lock, one logging thread that swaps the buffers under the lock
  and drains the retired one without it, and the thread that ends the program.
  */
module LoggingProtocol {
  import opened Regroup

  datatype Severity = Info | Err | Fatal
  datatype Entry = Entry(severity: Severity, message: string)

  datatype Buffer = Buffer1 | Buffer2

  datatype Thread = Writer(id: nat) | Killer

  datatype Lock = Free | HeldBy(thread: Thread, entry: Entry, stored: bool) | HeldByLogger

  /** Where the logging thread is: the loop of the server, `empty`, and `writeToLog`. */
  datatype Pc =
    | TestTerminated
    | TestBuffer1
    | TestBuffer2
    | CheckAvailable
    | ReadPointer
    | AwaitLock
    | SwapPointer
    | SwapIndex
    | ReleaseLock
    | TestDrain
    | TakeFront
    | Pop
    | Emit
    | Sleep
    | Exited

  datatype KillerPc = Alive | Adding | Added | Stopped

  /**
    `queue` and `top` are the local variables of `writeToLog`. `adds` is the
    history of entries in the order they were stored, and `mark` how many there
    were when the termination flag was set.
    */
  datatype State = State(
    buffer1: seq<Entry>, buffer2: seq<Entry>, available: Buffer, index: int, lock: Lock,
    log: seq<Entry>, terminated: bool, pc: Pc, queue: Buffer, top: Entry, killer: KillerPc,
    adds: seq<Entry>, mark: nat)

  const TERMINATING := Entry(Info, "Recieved interupt signal. Terminating")

  const INITIAL: State := State([], [], Buffer1, 1, Free, [], false, TestTerminated, Buffer1, TERMINATING, Alive, [], 0)

  datatype Action =
    | Acquire(id: nat, entry: Entry)
    | AcquireToKill
    | Store
    | Release
    | SetTerminated
    | LoggerStep

  function Queue(s: State, b: Buffer): seq<Entry> {
    if b == Buffer1 then s.buffer1 else s.buffer2
  }

  function WithQueue(s: State, b: Buffer, q: seq<Entry>): State {
    if b == Buffer1 then s.(buffer1 := q) else s.(buffer2 := q)
  }

  function Other(b: Buffer): Buffer {
    if b == Buffer1 then Buffer2 else Buffer1
  }

  function Number(b: Buffer): int {
    if b == Buffer1 then 1 else 2
  }

  // ----- The steps -----

  /** One step of some thread; a thread that cannot move stays where it is. */
  function Apply(s: State, a: Action): State {
    match a
    case Acquire(id, entry) =>
      if s.lock.Free? then s.(lock := HeldBy(Writer(id), entry, false)) else s
    case AcquireToKill =>
      if s.lock.Free? && s.killer == Alive then s.(lock := HeldBy(Killer, TERMINATING, false), killer := Adding) else s
    case Store =>
      if s.lock.HeldBy? && !s.lock.stored then
        var e := s.lock.entry;
        WithQueue(s, s.available, Queue(s, s.available) + [e]).(lock := s.lock.(stored := true), adds := s.adds + [e])
      else s
    case Release =>
      if s.lock.HeldBy? && s.lock.stored then
        s.(lock := Free, killer := if s.lock.thread == Killer then Added else s.killer)
      else s
    case SetTerminated =>
      if s.killer == Added then s.(terminated := true, killer := Stopped, mark := |s.adds|) else s
    case LoggerStep => Logger(s)
  }

  function Logger(s: State): State {
    if Looping(s.pc) then LoopStep(s)
    else if Swapping(s.pc) then SwapStep(s)
    else DrainStep(s)
  }

  predicate Looping(pc: Pc) {
    pc.TestTerminated? || pc.TestBuffer1? || pc.TestBuffer2? || pc.CheckAvailable? || pc.Sleep? || pc.Exited?
  }

  predicate Swapping(pc: Pc) {
    pc.ReadPointer? || pc.AwaitLock? || pc.SwapPointer? || pc.SwapIndex? || pc.ReleaseLock?
  }

  /** The loop of the server, with `empty` and the emptiness check of `writeToLog`. */
  function LoopStep(s: State): State {
    match s.pc
    case TestTerminated => s.(pc := if s.terminated then TestBuffer1 else CheckAvailable)
    case TestBuffer1 => s.(pc := if s.buffer1 == [] then TestBuffer2 else CheckAvailable)
    case TestBuffer2 => s.(pc := if s.buffer2 == [] then Exited else CheckAvailable)
    case CheckAvailable => s.(pc := if Queue(s, s.available) == [] then Sleep else ReadPointer)
    case Sleep => s.(pc := TestTerminated)
    case _ => s
  }

  /** Switching the buffer that writers use, under the lock. */
  function SwapStep(s: State): State {
    match s.pc
    case ReadPointer => s.(queue := s.available, pc := AwaitLock)
    case AwaitLock => if s.lock.Free? then s.(lock := HeldByLogger, pc := SwapPointer) else s
    case SwapPointer =>
      s.(available := if s.index == 1 then Buffer2 else if s.index == 2 then Buffer1 else s.available, pc := SwapIndex)
    case SwapIndex =>
      s.(index := if s.index == 1 then 2 else if s.index == 2 then 1 else s.index, pc := ReleaseLock)
    case ReleaseLock => s.(lock := Free, pc := TestDrain)
    case _ => s
  }

  /** Emptying the retired buffer, without the lock. */
  function DrainStep(s: State): State {
    match s.pc
    case TestDrain => s.(pc := if Queue(s, s.queue) == [] then TestTerminated else TakeFront)
    case TakeFront => if Queue(s, s.queue) == [] then s else s.(top := Queue(s, s.queue)[0], pc := Pop)
    case Pop => if Queue(s, s.queue) == [] then s else WithQueue(s, s.queue, Queue(s, s.queue)[1..]).(pc := Emit)
    case Emit => s.(log := s.log + [s.top], pc := TestDrain)
    case _ => s
  }

  /** The state after an interleaving of steps. */
  function Exec(s: State, actions: seq<Action>): State
    decreases actions
  {
    if actions == [] then s else Apply(Exec(s, actions[..|actions| - 1]), actions[|actions| - 1])
  }

  // ----- The invariant -----

  function Retired(s: State): seq<Entry> {
    Queue(s, Other(s.available))
  }

  function Available(s: State): seq<Entry> {
    Queue(s, s.available)
  }

  /** The entry the logging thread has popped but not yet emitted. */
  function InFlight(s: State): seq<Entry> {
    if s.pc.Emit? then [s.top] else []
  }

  /** The logging thread has swapped the buffers and still owns the retired one. */
  predicate Draining(pc: Pc) {
    pc.SwapIndex? || pc.ReleaseLock? || pc.TestDrain? || pc.TakeFront? || pc.Pop? || pc.Emit?
  }

  predicate Conserved(s: State) {
    s.adds == s.log + InFlight(s) + Retired(s) + Available(s)
  }

  predicate QueuesFit(s: State) {
    && (!Draining(s.pc) ==> Retired(s) == [])
    && (Draining(s.pc) ==> s.queue == Other(s.available))
    && (s.pc.AwaitLock? || s.pc.SwapPointer? ==> s.queue == s.available && Available(s) != [])
    && (s.pc.ReadPointer? ==> Available(s) != [])
    && (s.pc.SwapIndex? || s.pc.ReleaseLock? || s.pc.TakeFront? ==> Retired(s) != [])
    && (s.pc.Pop? ==> Retired(s) != [] && Retired(s)[0] == s.top)
    && s.index == Number(if s.pc.SwapIndex? then Other(s.available) else s.available)
    && (s.lock.HeldByLogger? <==> s.pc.SwapPointer? || s.pc.SwapIndex? || s.pc.ReleaseLock?)
  }

  predicate KillerFits(s: State) {
    && (s.killer == Adding <==> s.lock.HeldBy? && s.lock.thread == Killer)
    && (s.killer == Adding ==> s.lock.entry == TERMINATING)
    && (s.killer == Adding && s.lock.stored ==> TERMINATING in s.adds)
    && (s.killer == Added ==> TERMINATING in s.adds)
    && s.mark <= |s.adds|
    && (s.terminated <==> s.killer == Stopped)
    && (s.terminated ==> TERMINATING in s.adds[..s.mark])
  }

  /** What the two reads inside `empty` have established so far. */
  predicate ShutdownFits(s: State) {
    && (s.pc.TestBuffer1? || s.pc.TestBuffer2? || s.pc.Exited? ==> s.terminated)
    && (s.pc.TestBuffer2? && s.available == Buffer1 ==> s.mark <= |s.log|)
    && (s.pc.Exited? ==> s.mark <= |s.log|)
  }

  predicate Inv(s: State) {
    Conserved(s) && QueuesFit(s) && KillerFits(s) && ShutdownFits(s)
  }

  lemma StoreKeepsConserved(s: State)
    requires Inv(s)
    ensures Conserved(Apply(s, Store))
  {
    if s.lock.HeldBy? && !s.lock.stored {
      Right3(s.log + InFlight(s) + Retired(s), Available(s), [s.lock.entry]);
    }
  }

  lemma LoggerKeepsConserved(s: State)
    requires Inv(s)
    ensures Conserved(Logger(s))
  {
    match s.pc
    case SwapPointer =>
      Empty(s.log + InFlight(s));
      Empty(s.log + InFlight(s) + Available(s));
    case Pop =>
      assert Retired(s) == [s.top] + Retired(s)[1..];
      Empty(s.log);
      Right3(s.log, [s.top], Retired(s)[1..]);
    case Emit =>
      Empty(s.log + [s.top]);
    case _ =>
  }

  lemma LoggerKeepsQueuesFit(s: State)
    requires QueuesFit(s)
    ensures QueuesFit(Logger(s))
  {
    if Looping(s.pc) {
      assert QueuesFit(LoopStep(s));
    } else if Swapping(s.pc) {
      SwapKeepsQueuesFit(s);
    } else {
      DrainKeepsQueuesFit(s);
    }
  }

  lemma SwapKeepsQueuesFit(s: State)
    requires QueuesFit(s) && Swapping(s.pc)
    ensures QueuesFit(SwapStep(s))
  {
  }

  lemma DrainKeepsQueuesFit(s: State)
    requires QueuesFit(s) && !Looping(s.pc) && !Swapping(s.pc)
    ensures QueuesFit(DrainStep(s))
  {
  }

  lemma OthersKeepQueuesFit(s: State, a: Action)
    requires QueuesFit(s) && !a.LoggerStep?
    ensures QueuesFit(Apply(s, a))
  {
  }

  lemma StoreKeepsKillerFits(s: State)
    requires KillerFits(s)
    ensures KillerFits(Apply(s, Store))
  {
    if s.lock.HeldBy? && !s.lock.stored {
      var adds := s.adds + [s.lock.entry];
      assert adds[..|s.adds|] == s.adds && adds[..s.mark] == s.adds[..s.mark];
      assert adds[|s.adds|] == s.lock.entry;
      assert forall e | e in s.adds :: e in adds;
    }
  }

  /** The logging thread touches neither the flag nor the history, and no lock but its own. */
  lemma LoggerFrame(s: State)
    requires QueuesFit(s)
    ensures SameForKiller(s, Logger(s))
    ensures s.pc.Exited? ==> Logger(s) == s
  {
  }

  predicate SameForKiller(s: State, t: State) {
    && t.terminated == s.terminated && t.adds == s.adds && t.mark == s.mark && t.killer == s.killer
    && (t.lock == s.lock || (!t.lock.HeldBy? && !s.lock.HeldBy?))
  }

  lemma KillerFitsFrame(s: State, t: State)
    requires KillerFits(s) && SameForKiller(s, t)
    ensures KillerFits(t)
  {
  }

  lemma ApplyKeepsKillerFits(s: State, a: Action)
    requires QueuesFit(s) && KillerFits(s)
    ensures KillerFits(Apply(s, a))
  {
    if a.LoggerStep? {
      LoggerFrame(s);
      KillerFitsFrame(s, Logger(s));
    } else if a.Store? {
      StoreKeepsKillerFits(s);
    } else if a.SetTerminated? {
      assert s.adds[..|s.adds|] == s.adds;
    }
  }

  lemma AllEmitted(s: State)
    requires Conserved(s) && QueuesFit(s) && !Draining(s.pc) && Available(s) == []
    ensures s.log == s.adds
  {
    Empty(s.log);
  }

  lemma LoggerKeepsShutdownFits(s: State)
    requires QueuesFit(s) && ShutdownFits(s)
    requires !Draining(s.pc) && Available(s) == [] ==> s.mark <= |s.log|
    ensures ShutdownFits(Logger(s))
  {
    if Looping(s.pc) {
      LoopKeepsShutdownFits(s);
    }
  }

  lemma LoopKeepsShutdownFits(s: State)
    requires ShutdownFits(s) && Looping(s.pc)
    requires Available(s) == [] ==> s.mark <= |s.log|
    ensures ShutdownFits(LoopStep(s))
  {
  }

  lemma OthersKeepShutdownFits(s: State, a: Action)
    requires KillerFits(s) && ShutdownFits(s) && !a.LoggerStep?
    ensures ShutdownFits(Apply(s, a))
  {
  }

  lemma ApplyKeepsInv(s: State, a: Action)
    requires Inv(s)
    ensures Inv(Apply(s, a))
  {
    StoreKeepsConserved(s);
    LoggerKeepsConserved(s);
    ApplyKeepsKillerFits(s, a);
    if a.LoggerStep? {
      LoggerKeepsQueuesFit(s);
      if !Draining(s.pc) && Available(s) == [] {
        AllEmitted(s);
      }
      LoggerKeepsShutdownFits(s);
    } else {
      OthersKeepQueuesFit(s, a);
      OthersKeepShutdownFits(s, a);
    }
  }

  lemma {:induction false} ReachableInv(actions: seq<Action>)
    ensures Inv(Exec(INITIAL, actions))
    decreases actions
  {
    if actions != [] {
      ReachableInv(actions[..|actions| - 1]);
      ApplyKeepsInv(Exec(INITIAL, actions[..|actions| - 1]), actions[|actions| - 1]);
    }
  }

  // ----- Main results, over every interleaving -----

  /**
    What has been emitted, then the entry in flight, then the retired buffer, then
    the available one, is the history of adds: nothing is lost, duplicated or
    reordered, and the log is always a prefix of the adds.
    */
  lemma LogIsPrefixOfAdds(actions: seq<Action>)
    ensures var s := Exec(INITIAL, actions);
      && s.log + InFlight(s) + Retired(s) + Available(s) == s.adds
      && s.log <= s.adds
  {
    ReachableInv(actions);
  }

  /**
    When the logging loop has exited, every entry stored before the termination
    flag was set has been emitted, the terminating message among them, although
    `empty` looks at the two buffers at different moments.
    */
  lemma ShutdownFlushes(actions: seq<Action>)
    requires Exec(INITIAL, actions).pc.Exited?
    ensures var s := Exec(INITIAL, actions);
      && s.mark <= |s.adds| && s.adds[..s.mark] <= s.log
      && Entry(Info, "Recieved interupt signal. Terminating") in s.log
  {
    ReachableInv(actions);
    var s := Exec(INITIAL, actions);
    assert s.adds[..s.mark] == s.log[..s.mark];
  }

  /** Each entry is in the history once for each time it was stored; the history only grows. */
  lemma {:induction false} HistoryGrows(s: State, actions: seq<Action>)
    ensures s.adds <= Exec(s, actions).adds
    ensures s.log <= Exec(s, actions).log
    decreases actions
  {
    if actions != [] {
      var front := actions[..|actions| - 1];
      HistoryGrows(s, front);
      ApplyGrows(Exec(s, front), actions[|actions| - 1]);
    }
  }

  lemma ApplyGrows(s: State, a: Action)
    ensures s.adds <= Apply(s, a).adds && s.log <= Apply(s, a).log
  {
  }

  // ----- The drain loop cannot be kept alive by the writers -----

  /** The steps the logging thread still needs to leave the drain loop. */
  function DrainWork(s: State): nat {
    match s.pc
    case SwapIndex => 4 * |Queue(s, s.queue)| + 3
    case ReleaseLock => 4 * |Queue(s, s.queue)| + 2
    case TestDrain => 4 * |Queue(s, s.queue)| + 1
    case TakeFront => 4 * |Queue(s, s.queue)|
    case Pop => if Queue(s, s.queue) == [] then 0 else 4 * |Queue(s, s.queue)| - 1
    case Emit => 4 * |Queue(s, s.queue)| + 2
    case _ => 0
  }

  lemma DrainWorkShrinks(s: State, a: Action)
    requires QueuesFit(s) && Draining(s.pc)
    ensures DrainWork(Apply(s, a)) == if a.LoggerStep? then DrainWork(s) - 1 else DrainWork(s)
    ensures a.LoggerStep? && DrainWork(s) == 1 ==> !Draining(Apply(s, a).pc)
  {
  }

  // ----- Which entries are emitted: exactly those not stored in the window -----

  /**
    The logging thread has found the buffer empty that an entry would now be stored
    in, and will not look at it again.
    */
  predicate Window(s: State) {
    (s.pc.TestBuffer2? && s.available == Buffer1) || s.pc.Exited?
  }

  /** By the time the window opens, the first `n` entries have been emitted. */
  predicate Promised(s: State, n: nat) {
    Window(s) ==> n <= |s.log|
  }

  lemma StepKeepsPromise(s: State, a: Action, n: nat)
    requires Inv(s) && n <= |s.adds| && Promised(s, n)
    ensures Promised(Apply(s, a), n)
  {
    ApplyGrows(s, a);
    if !Window(s) && Window(Apply(s, a)) {
      WindowOpens(s, a);
    }
  }

  lemma WindowOpens(s: State, a: Action)
    requires Inv(s) && !Window(s) && Window(Apply(s, a))
    ensures Apply(s, a).log == s.log == s.adds
  {
    assert a.LoggerStep? && Looping(s.pc) && Available(s) == [];
    AllEmitted(s);
  }

  predicate Promising(s: State, n: nat) {
    Inv(s) && n <= |s.adds| && Promised(s, n)
  }

  lemma StepKeepsPromising(s: State, a: Action, n: nat)
    requires Promising(s, n)
    ensures Promising(Apply(s, a), n)
  {
    ApplyKeepsInv(s, a);
    ApplyGrows(s, a);
    StepKeepsPromise(s, a, n);
  }

  lemma {:induction false} RunKeepsPromise(s: State, more: seq<Action>, n: nat)
    requires Promising(s, n)
    ensures Promising(Exec(s, more), n)
    decreases more
  {
    if more != [] {
      RunKeepsPromise(s, more[..|more| - 1], n);
      StepKeepsPromising(Exec(s, more[..|more| - 1]), more[|more| - 1], n);
    }
  }

  lemma {:induction false} WindowStaysOpen(s: State, more: seq<Action>)
    requires Window(s) && (s.pc.TestBuffer2? ==> s.buffer2 == [])
    ensures var t := Exec(s, more); Window(t) && (t.pc.TestBuffer2? ==> t.buffer2 == []) && t.log == s.log
    decreases more
  {
    if more != [] {
      WindowStaysOpen(s, more[..|more| - 1]);
      StaysOpen(Exec(s, more[..|more| - 1]), more[|more| - 1]);
    }
  }

  lemma StaysOpen(s: State, a: Action)
    requires Window(s) && (s.pc.TestBuffer2? ==> s.buffer2 == [])
    ensures var t := Apply(s, a); Window(t) && (t.pc.TestBuffer2? ==> t.buffer2 == []) && t.log == s.log
  {
  }

  lemma WindowAfterStore(s: State)
    requires Inv(s) && s.lock.HeldBy? && !s.lock.stored
    ensures var t := Apply(s, Store);
      && t.adds == s.adds + [s.lock.entry] && t.log == s.log && Inv(t)
      && (Window(t) <==> Window(s)) && (Window(t) && t.pc.TestBuffer2? ==> t.buffer2 == [])
  {
    ApplyKeepsInv(s, Store);
  }

  lemma LogIsPrefix(s: State)
    requires Conserved(s)
    ensures s.log <= s.adds
  {
  }

  /**
    Whatever happens afterwards: when the logging loop has exited, an entry has been
    emitted exactly if it was not stored in the window.
    */
  lemma EmittedUnlessInWindow(s: State, more: seq<Action>)
    requires Inv(s) && s.lock.HeldBy? && !s.lock.stored
    requires Exec(Apply(s, Store), more).pc.Exited?
    ensures var k, t := |s.adds|, Exec(Apply(s, Store), more);
      && k < |t.adds| && t.adds[k] == s.lock.entry && t.log <= t.adds
      && (k < |t.log| <==> !Window(s))
  {
    var stored := Apply(s, Store);
    WindowAfterStore(s);
    HistoryGrows(stored, more);
    LogIsPrefix(s);
    if Window(s) {
      WindowStaysOpen(stored, more);
      RunKeepsPromise(stored, more, 0);
    } else {
      RunKeepsPromise(stored, more, |stored.adds|);
    }
    LogIsPrefix(Exec(stored, more));
  }

  /** The same for an entry added without interruption: it is lost exactly if it came in the window. */
  lemma LateEntryIsLost(s: State, id: nat, late: Entry, more: seq<Action>)
    requires Inv(s) && s.lock.Free?
    requires Exec(s, [Acquire(id, late), Store, Release] + more).pc.Exited?
    ensures var k, t := |s.adds|, Exec(s, [Acquire(id, late), Store, Release] + more);
      && k < |t.adds| && t.adds[k] == late && t.log <= t.adds
      && (|t.log| <= k <==> Window(s))
  {
    LateSteps(s, id, late, more);
    AcquireKeepsWindow(s, id, late);
    EmittedUnlessInWindow(Apply(s, Acquire(id, late)), [Release] + more);
  }

  lemma LateSteps(s: State, id: nat, late: Entry, more: seq<Action>)
    ensures Exec(s, [Acquire(id, late), Store, Release] + more)
         == Exec(Apply(Apply(s, Acquire(id, late)), Store), [Release] + more)
  {
    assert [Acquire(id, late), Store, Release] + more == [Acquire(id, late)] + ([Store] + ([Release] + more));
    ExecFirst(s, Acquire(id, late), [Store] + ([Release] + more));
    ExecFirst(Apply(s, Acquire(id, late)), Store, [Release] + more);
  }

  lemma AcquireKeepsWindow(s: State, id: nat, late: Entry)
    requires Inv(s) && s.lock.Free?
    ensures var held := Apply(s, Acquire(id, late));
      && Inv(held) && held.lock.HeldBy? && !held.lock.stored && held.lock.entry == late
      && held.adds == s.adds && (Window(held) <==> Window(s))
  {
    ApplyKeepsInv(s, Acquire(id, late));
  }

  // ----- Once told to stop, and left alone, the logging thread exits -----

  /** The steps the logging thread needs to exit if nothing more is added. */
  function Work(s: State): nat {
    var rest := 20 * (|s.buffer1| + |s.buffer2|);
    match s.pc
    case Exited => 0
    case TestBuffer2 => if Available(s) == [] then rest + 1 else rest + 12
    case TestBuffer1 => if Available(s) == [] then rest + 2 else rest + 13
    case TestTerminated => if Available(s) == [] then rest + 3 else rest + 14
    case Sleep => if Available(s) == [] then rest + 4 else rest + 15
    case CheckAvailable => if Available(s) == [] then rest + 5 else rest + 11
    case ReadPointer => rest + 10
    case AwaitLock => rest + 9
    case SwapPointer => rest + 8
    case SwapIndex => rest + 7
    case ReleaseLock => rest + 6
    case TestDrain => if Retired(s) == [] then rest + 15 else rest + 5
    case TakeFront => rest + 4
    case Pop => rest + 3
    case Emit => rest + 16
  }

  lemma WorkShrinks(s: State)
    requires Inv(s) && s.terminated && !s.lock.HeldBy? && !s.pc.Exited?
    ensures Work(Logger(s)) < Work(s)
  {
    if Looping(s.pc) {
      LoopShrinksWork(s);
    } else if Swapping(s.pc) {
      SwapShrinksWork(s);
    } else {
      DrainShrinksWork(s);
    }
  }

  lemma LoopShrinksWork(s: State)
    requires QueuesFit(s) && s.terminated && Looping(s.pc) && !s.pc.Exited?
    ensures Work(LoopStep(s)) < Work(s)
  {
  }

  lemma SwapShrinksWork(s: State)
    requires QueuesFit(s) && !s.lock.HeldBy? && Swapping(s.pc)
    ensures Work(SwapStep(s)) < Work(s)
  {
  }

  lemma DrainShrinksWork(s: State)
    requires QueuesFit(s) && !Looping(s.pc) && !Swapping(s.pc)
    ensures Work(DrainStep(s)) < Work(s)
  {
  }

  /** The flag is set and no writer holds the lock; entries may have been added since. */
  predicate Quiet(s: State) {
    Inv(s) && s.terminated && !s.lock.HeldBy?
  }

  lemma LoggerKeepsQuiet(s: State)
    requires Quiet(s)
    ensures Quiet(Logger(s)) && Logger(s).adds == s.adds
  {
    ApplyKeepsInv(s, LoggerStep);
    LoggerFrame(s);
  }

  lemma QuietWorkShrinks(s: State)
    requires Quiet(s)
    ensures Work(Logger(s)) <= if s.pc.Exited? then 0 else Work(s) - 1
  {
    if s.pc.Exited? {
      LoggerFrame(s);
    } else {
      WorkShrinks(s);
    }
  }

  function LoggerAlone(n: nat): seq<Action> {
    seq(n, _ => LoggerStep)
  }

  lemma {:induction false} LoggerExits(s: State, n: nat)
    requires Quiet(s) && n >= Work(s)
    ensures var t := Exec(s, LoggerAlone(n)); t.pc.Exited? && t.adds == s.adds
    decreases n
  {
    if n == 0 {
      NoWorkIsExited(s);
    } else {
      LoggerKeepsQuiet(s);
      QuietWorkShrinks(s);
      LoggerExits(Logger(s), n - 1);
      OneStepFirst(s, n);
    }
  }

  lemma NoWorkIsExited(s: State)
    requires Work(s) == 0
    ensures s.pc.Exited? && Exec(s, LoggerAlone(0)) == s
  {
  }

  lemma OneStepFirst(s: State, n: nat)
    requires n > 0
    ensures Exec(s, LoggerAlone(n)) == Exec(Logger(s), LoggerAlone(n - 1))
  {
    ExecFirst(s, LoggerStep, LoggerAlone(n - 1));
    assert [LoggerStep] + LoggerAlone(n - 1) == LoggerAlone(n);
  }

  /** Outside the window, or with nothing waiting, every entry there is will have been emitted at the exit. */
  lemma AllPromised(s: State)
    requires Inv(s)
    ensures Promised(s, |s.adds|) <==> !(Window(s) && Available(s) != [])
  {
    if Window(s) {
      Empty(s.log);
      assert s.adds == s.log + Available(s);
    }
  }

  /**
    Once the flag is set and the writers are quiet, the logging thread exits within
    a bounded number of its own steps. By then it has emitted every entry, whether
    stored before the flag or after it, exactly if none was waiting in the window;
    in particular if none was stored after the flag.
    */
  lemma ShutdownCompletes(s: State, n: nat)
    requires Quiet(s) && n >= Work(s)
    ensures var t := Exec(s, LoggerAlone(n));
      && t.pc.Exited? && t.adds == s.adds && t.log <= t.adds
      && (t.log == t.adds <==> !(Window(s) && Available(s) != []))
      && (s.mark == |s.adds| ==> t.log == t.adds)
  {
    LoggerExits(s, n);
    AllPromised(s);
    var t := Exec(s, LoggerAlone(n));
    if Window(s) {
      WindowStaysOpen(s, LoggerAlone(n));
      RunKeepsPromise(s, LoggerAlone(n), 0);
    } else {
      RunKeepsPromise(s, LoggerAlone(n), |s.adds|);
    }
    LogIsPrefix(t);
    assert t.log == t.adds <==> |t.adds| <= |t.log|;
  }

  lemma {:induction false} ExecFirst(s: State, a: Action, actions: seq<Action>)
    ensures Exec(s, [a] + actions) == Exec(Apply(s, a), actions)
    decreases actions
  {
    if actions == [] {
      assert [a] + actions == [a] && [a][..0] == [];
    } else {
      var front := actions[..|actions| - 1];
      assert ([a] + actions)[..|actions|] == [a] + front;
      ExecFirst(s, a, front);
    }
  }

  // ----- What is not promised -----

  /**
    When the logging loop has exited, the entries that were not emitted are those in
    the available buffer, all of them stored after the flag was set.
    */
  lemma OnlyLateEntriesAreLost(actions: seq<Action>)
    requires Exec(INITIAL, actions).pc.Exited?
    ensures var s := Exec(INITIAL, actions);
      s.adds == s.log + Available(s) && s.mark <= |s.log|
  {
    ReachableInv(actions);
    Empty(Exec(INITIAL, actions).log);
  }

  /** Nothing is emitted after the exit. */
  lemma {:induction false} NothingIsLoggedAfterExit(s: State, actions: seq<Action>)
    requires s.pc.Exited?
    ensures Exec(s, actions).pc.Exited? && Exec(s, actions).log == s.log
    decreases actions
  {
    if actions != [] {
      NothingIsLoggedAfterExit(s, actions[..|actions| - 1]);
    }
  }

  lemma ExecThree(s: State, a: Action, b: Action, c: Action)
    ensures Exec(s, [a, b, c]) == Apply(Apply(Apply(s, a), b), c)
  {
    assert [a] == [] + [a] && [a, b] == [a] + [b] && [a, b, c] == [a, b] + [c];
    ExecLast(s, [], a);
    ExecLast(s, [a], b);
    ExecLast(s, [a, b], c);
  }

  lemma ExecLast(s: State, front: seq<Action>, a: Action)
    ensures Exec(s, front + [a]) == Apply(Exec(s, front), a)
  {
    assert (front + [a])[..|front|] == front;
  }

  lemma ExecFour(s: State, a: Action, b: Action, c: Action, d: Action)
    ensures Exec(s, [a, b, c, d]) == Apply(Apply(Apply(Apply(s, a), b), c), d)
  {
    ExecThree(s, a, b, c);
    assert [a, b, c, d] == [a, b, c] + [d];
    ExecLast(s, [a, b, c], d);
  }

  lemma {:induction false} ExecConcat(s: State, first: seq<Action>, then_: seq<Action>)
    ensures Exec(s, first + then_) == Exec(Exec(s, first), then_)
    decreases then_
  {
    if then_ == [] {
      Empty(first);
    } else {
      assert (first + then_)[..|first + then_| - 1] == first + then_[..|then_| - 1];
      ExecConcat(s, first, then_[..|then_| - 1]);
    }
  }

  /** Nobody holds the lock, and `queue`, in the available buffer, is all that is waiting. */
  predicate Here(s: State, pc: Pc, available: Buffer, queue: seq<Entry>, log: seq<Entry>, adds: seq<Entry>,
                 killer: KillerPc)
  {
    && s.lock.Free? && s.pc == pc && s.available == available && s.index == Number(available)
    && Available(s) == queue && Retired(s) == [] && s.log == log && s.adds == adds
    && s.killer == killer && (s.terminated <==> killer == Stopped)
  }

  lemma StoresOne(s: State, pc: Pc, b: Buffer, log: seq<Entry>, adds: seq<Entry>, killer: KillerPc, id: nat, e: Entry)
    requires Here(s, pc, b, [], log, adds, killer)
    ensures Here(Exec(s, [Acquire(id, e), Store, Release]), pc, b, [e], log, adds + [e], killer)
  {
    ExecThree(s, Acquire(id, e), Store, Release);
    Empty([e]);
  }

  lemma StoresTheLast(s: State, pc: Pc, b: Buffer, log: seq<Entry>, adds: seq<Entry>)
    requires Here(s, pc, b, [], log, adds, Alive)
    ensures Here(Exec(s, [AcquireToKill, Store, Release, SetTerminated]),
                 pc, b, [TERMINATING], log, adds + [TERMINATING], Stopped)
  {
    ExecFour(s, AcquireToKill, Store, Release, SetTerminated);
    Empty([TERMINATING]);
  }

  lemma ThreeSteps(s: State, s1: State, s2: State, s3: State)
    requires Logger(s) == s1 && Logger(s1) == s2 && Logger(s2) == s3
    ensures Exec(s, LoggerAlone(3)) == s3
  {
    assert LoggerAlone(3) == [LoggerStep, LoggerStep, LoggerStep];
    ExecThree(s, LoggerStep, LoggerStep, LoggerStep);
  }

  lemma LooksOnce(s: State, b: Buffer, q: seq<Entry>, log: seq<Entry>, adds: seq<Entry>, killer: KillerPc)
    requires Here(s, TestTerminated, b, q, log, adds, killer) && killer != Stopped
    ensures Here(Exec(s, [LoggerStep]), CheckAvailable, b, q, log, adds, killer)
  {
    assert [LoggerStep][..0] == [];
  }

  lemma LooksAtBoth(s: State, q: seq<Entry>, log: seq<Entry>, adds: seq<Entry>)
    requires Here(s, TestTerminated, Buffer2, q, log, adds, Stopped) && q != []
    ensures Here(Exec(s, LoggerAlone(3)), CheckAvailable, Buffer2, q, log, adds, Stopped)
  {
    ThreeSteps(s, s.(pc := TestBuffer1), s.(pc := TestBuffer2), s.(pc := CheckAvailable));
  }

  lemma LooksAtTheFirst(s: State, log: seq<Entry>, adds: seq<Entry>)
    requires Here(s, TestTerminated, Buffer1, [], log, adds, Stopped)
    ensures Here(Exec(s, [LoggerStep] + [LoggerStep]), TestBuffer2, Buffer1, [], log, adds, Stopped)
  {
    ExecConcat(s, [LoggerStep], [LoggerStep]);
    assert [LoggerStep][..0] == [];
  }

  function FourRounds(): seq<Action> {
    LoggerAlone(3) + LoggerAlone(3) + LoggerAlone(3) + (LoggerAlone(3)[..2])
  }

  lemma ElevenSteps(s: State, s3: State, s6: State, s9: State, s10: State, s11: State)
    requires Exec(s, LoggerAlone(3)) == s3 && Exec(s3, LoggerAlone(3)) == s6 && Exec(s6, LoggerAlone(3)) == s9
    requires Logger(s9) == s10 && Logger(s10) == s11
    ensures Exec(s, FourRounds()) == s11
  {
    assert LoggerAlone(3)[..2] == [LoggerStep] + [LoggerStep] && [LoggerStep][..0] == [];
    ExecConcat(s9, [LoggerStep], [LoggerStep]);
    ExecConcat(s, LoggerAlone(3), LoggerAlone(3));
    ExecConcat(s, LoggerAlone(3) + LoggerAlone(3), LoggerAlone(3));
    ExecConcat(s, LoggerAlone(3) + LoggerAlone(3) + LoggerAlone(3), LoggerAlone(3)[..2]);
  }

  /** From seeing one entry to having emitted it, undisturbed. */
  lemma EmitsOne(s: State, b: Buffer, e: Entry, log: seq<Entry>, adds: seq<Entry>, killer: KillerPc)
    requires Here(s, CheckAvailable, b, [e], log, adds, killer)
    ensures Here(Exec(s, FourRounds()), TestTerminated, Other(b), [], log + [e], adds, killer)
  {
    var s3 := s.(pc := SwapPointer, queue := b, lock := HeldByLogger);
    SwapBegins(s, b);
    var s6 := s.(pc := TestDrain, queue := b, available := Other(b), index := Number(Other(b)));
    SwapEnds(s3, b);
    DrainsOne(s6, b, e);
    var s9 := WithQueue(s6, b, []).(pc := Emit, top := e);
    ElevenSteps(s, s3, s6, s9, s9.(pc := TestDrain, log := s.log + [e]), s9.(pc := TestTerminated, log := s.log + [e]));
  }

  lemma SwapBegins(s: State, b: Buffer)
    requires s.pc == CheckAvailable && s.lock.Free? && s.available == b && Queue(s, b) != []
    ensures Exec(s, LoggerAlone(3)) == s.(pc := SwapPointer, queue := b, lock := HeldByLogger)
  {
    ThreeSteps(s, s.(pc := ReadPointer), s.(pc := AwaitLock, queue := b),
               s.(pc := SwapPointer, queue := b, lock := HeldByLogger));
  }

  lemma SwapEnds(s: State, b: Buffer)
    requires s.pc == SwapPointer && s.available == b && s.index == Number(b)
    ensures Exec(s, LoggerAlone(3))
         == s.(pc := TestDrain, available := Other(b), index := Number(Other(b)), lock := Free)
  {
    var s1 := s.(pc := SwapIndex, available := Other(b));
    var s2 := s1.(pc := ReleaseLock, index := Number(Other(b)));
    ThreeSteps(s, s1, s2, s2.(pc := TestDrain, lock := Free));
  }

  lemma DrainsOne(s: State, b: Buffer, e: Entry)
    requires s.pc == TestDrain && s.queue == b && Queue(s, b) == [e]
    ensures Exec(s, LoggerAlone(3)) == WithQueue(s, b, []).(pc := Emit, top := e)
  {
    assert [e][1..] == [];
    ThreeSteps(s, s.(pc := TakeFront), s.(pc := Pop, top := e), WithQueue(s, b, []).(pc := Emit, top := e));
  }

  lemma ExitsWithout(s: State, id: nat, late: Entry)
    requires s.lock.Free? && s.pc == TestBuffer2 && s.available == Buffer1 && s.buffer2 == []
    ensures var t := Exec(s, [Acquire(id, late), Store, Release, LoggerStep]);
      t.pc.Exited? && t.terminated == s.terminated && t.adds == s.adds + [late] && t.log == s.log
  {
    ExecFour(s, Acquire(id, late), Store, Release, LoggerStep);
  }

  /** A run that emits one entry and then sets the flag. */
  function FlaggingRun(early: Entry): seq<Action> {
    [Acquire(0, early), Store, Release] + [LoggerStep] + FourRounds() + [AcquireToKill, Store, Release, SetTerminated]
  }

  lemma FlagIsSet(early: Entry)
    ensures Here(Exec(INITIAL, FlaggingRun(early)),
                 TestTerminated, Buffer2, [TERMINATING], [early], [early, TERMINATING], Stopped)
  {
    var r0, kill := [Acquire(0, early), Store, Release], [AcquireToKill, Store, Release, SetTerminated];
    StoresOne(INITIAL, TestTerminated, Buffer1, [], [], Alive, 0, early);
    Empty([early]);
    ExecConcat(INITIAL, r0, [LoggerStep]);
    LooksOnce(Exec(INITIAL, r0), Buffer1, [early], [], [early], Alive);
    ExecConcat(INITIAL, r0 + [LoggerStep], FourRounds());
    EmitsOne(Exec(INITIAL, r0 + [LoggerStep]), Buffer1, early, [], [early], Alive);
    ExecConcat(INITIAL, r0 + [LoggerStep] + FourRounds(), kill);
    StoresTheLast(Exec(INITIAL, r0 + [LoggerStep] + FourRounds()), TestTerminated, Buffer2, [early], [early]);
    assert [early] + [TERMINATING] == [early, TERMINATING];
  }

  /** A run in which an entry that comes after the flag is never emitted. */
  function LosingRun(early: Entry, late: Entry): seq<Action> {
    FlaggingRun(early) + LoggerAlone(3) + FourRounds() + ([LoggerStep] + [LoggerStep])
    + [Acquire(1, late), Store, Release, LoggerStep]
  }

  lemma LateEntryCanBeLost(early: Entry, late: Entry)
    ensures var s := Exec(INITIAL, LosingRun(early, late));
      && s.pc.Exited? && s.terminated
      && s.adds == [early, TERMINATING, late]
      && forall more :: Exec(s, more).log == [early, TERMINATING]
  {
    LosingRunExits(early, late);
    forall more
      ensures Exec(Exec(INITIAL, LosingRun(early, late)), more).log == [early, TERMINATING]
    {
      NothingIsLoggedAfterExit(Exec(INITIAL, LosingRun(early, late)), more);
    }
  }

  lemma LosingRunExits(early: Entry, late: Entry)
    ensures var s := Exec(INITIAL, LosingRun(early, late));
      s.pc.Exited? && s.terminated && s.adds == [early, TERMINATING, late] && s.log == [early, TERMINATING]
  {
    var flagged := FlaggingRun(early);
    FlagIsSet(early);
    ExecConcat(INITIAL, flagged, LoggerAlone(3));
    LooksAtBoth(Exec(INITIAL, flagged), [TERMINATING], [early], [early, TERMINATING]);
    var seen := flagged + LoggerAlone(3);
    ExecConcat(INITIAL, seen, FourRounds());
    EmitsOne(Exec(INITIAL, seen), Buffer2, TERMINATING, [early], [early, TERMINATING], Stopped);
    assert [early] + [TERMINATING] == [early, TERMINATING];
    var emitted := seen + FourRounds();
    ExecConcat(INITIAL, emitted, [LoggerStep] + [LoggerStep]);
    LooksAtTheFirst(Exec(INITIAL, emitted), [early, TERMINATING], [early, TERMINATING]);
    var looked := emitted + ([LoggerStep] + [LoggerStep]);
    ExecConcat(INITIAL, looked, [Acquire(1, late), Store, Release, LoggerStep]);
    ExitsWithout(Exec(INITIAL, looked), 1, late);
    assert [early, TERMINATING] + [late] == [early, TERMINATING, late];
  }
}
