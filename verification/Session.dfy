/** The session protocol under every interleaving: any number of threads run the sender of
    sendMsgNetlink, or a handler of recvMsgNetlink, one atomic step at a time. */
module Session {
  import Requests

  /** What a thread has been started for: a report from the hook, or one received request. */
  datatype Job = Report | Connect(pid: nat) | Disconnect

  /** Where a thread stands. The sender's steps come in the order of its statements; the three write
      steps are those of the handlers. */
  datatype Pc =
    | Idle
    | Lock1(job: Job) | Check1(job: Job) | Fail1(job: Job) | Unlock1(job: Job)
    | Alloc(job: Job) | Fill(job: Job)
    | Lock2(job: Job) | Check2(job: Job) | Fail2(job: Job) | Unicast(job: Job) | Unlock2(job: Job)
    | WriteLock(job: Job) | Write(job: Job) | WriteUnlock(job: Job)

  datatype Event = Wrote(pid: nat) | Allocated | Sent(pid: nat) | Lost

  /** What the threads share: the pid and the flag, and the lock's reader count and writer bit. */
  datatype Shared = Shared(pid: nat, operatorflag: nat, readers: int, writer: bool)

  datatype State = State(shared: Shared, threads: seq<Pc>, log: seq<Event>)

  /** What the scheduler decides: which job an idle thread starts, whether an allocation succeeds, or
      just that the thread goes on. */
  datatype Choice = Start(job: Job) | Order(text: string) | Go | NoRoom

  /** A connect writes first and then answers; the other jobs begin with the sender. */
  function Begin(job: Job): Pc {
    if job.Connect? then WriteLock(job) else Lock1(job)
  }

  /** Every return of the sender leads here: a disconnect still has to clear the pid. */
  function AfterSend(job: Job): Pc {
    if job.Disconnect? then WriteLock(job) else Idle
  }

  function AfterWrite(job: Job): Pc {
    if job.Connect? then Lock1(job) else Idle
  }

  function NewPid(job: Job): nat {
    if job.Connect? then job.pid else 0
  }

  /** The outcome of one atomic step of one thread. */
  datatype Outcome = Outcome(shared: Shared, pc: Pc, events: seq<Event>)

  /** One atomic step of a thread at pc; a thread that cannot go on stays where it is. */
  function Act(sh: Shared, pc: Pc, c: Choice): Outcome {
    match pc
    case Idle =>
      (match c
       case Start(job) => Outcome(sh, Begin(job), [])
       case Order(text) =>
         var flag := if text == "drop" then Requests.DROP_FLAG else Requests.PASS_FLAG;
         Outcome(sh.(operatorflag := flag), pc, [])
       case _ => Outcome(sh, pc, []))
    case Lock1(job) => if sh.writer then Outcome(sh, pc, []) else Outcome(sh.(readers := sh.readers + 1), Check1(job), [])
    case Check1(job) => Outcome(sh, if sh.pid == 0 then Fail1(job) else Unlock1(job), [])
    case Fail1(job) => Outcome(sh.(readers := sh.readers - 1), AfterSend(job), [])
    case Unlock1(job) => Outcome(sh.(readers := sh.readers - 1), Alloc(job), [])
    case Alloc(job) => if c.NoRoom? then Outcome(sh, AfterSend(job), []) else Outcome(sh, Fill(job), [Allocated])
    case Fill(job) => Outcome(sh, Lock2(job), [])
    case Lock2(job) => if sh.writer then Outcome(sh, pc, []) else Outcome(sh.(readers := sh.readers + 1), Check2(job), [])
    case Check2(job) => if sh.pid == 0 then Outcome(sh, Fail2(job), [Lost]) else Outcome(sh, Unicast(job), [])
    case Fail2(job) => Outcome(sh.(readers := sh.readers - 1), AfterSend(job), [])
    case Unicast(job) => Outcome(sh, Unlock2(job), [Sent(sh.pid)])
    case Unlock2(job) => Outcome(sh.(readers := sh.readers - 1), AfterSend(job), [])
    case WriteLock(job) =>
      if sh.writer || sh.readers != 0 then Outcome(sh, pc, []) else Outcome(sh.(writer := true), Write(job), [])
    case Write(job) => Outcome(sh.(pid := NewPid(job)), WriteUnlock(job), [Wrote(NewPid(job))])
    case WriteUnlock(job) => Outcome(sh.(writer := false), AfterWrite(job), [])
  }

  /** Thread i takes one step, the others stay where they are. */
  function Step(s: State, i: nat, c: Choice): State
    requires i < |s.threads|
  {
    var o := Act(s.shared, s.threads[i], c);
    State(o.shared, s.threads[i := o.pc], s.log + o.events)
  }

  /** A schedule: which thread steps, and with which choice. Schedules are all interleavings. */
  type Schedule = seq<(nat, Choice)>

  function Run(s: State, schedule: Schedule): State {
    if schedule == [] then s
    else
      var before := Run(s, schedule[..|schedule| - 1]);
      var (i, c) := schedule[|schedule| - 1];
      if i < |before.threads| then Step(before, i, c) else before
  }

  function Init(n: nat): State {
    State(Shared(0, 0, 0, false), seq(n, _ => Idle), [])
  }

  predicate Reading(pc: Pc) {
    pc.Check1? || pc.Fail1? || pc.Unlock1? || pc.Check2? || pc.Fail2? || pc.Unicast? || pc.Unlock2?
  }

  predicate Writing(pc: Pc) {
    pc.Write? || pc.WriteUnlock?
  }

  /** A filled buffer that is neither handed on nor lost. */
  predicate Carrying(pc: Pc) {
    pc.Fill? || pc.Lock2? || pc.Check2? || pc.Unicast?
  }

  function Count(threads: seq<Pc>, what: Pc -> bool): nat {
    if threads == [] then 0 else Count(threads[1..], what) + if what(threads[0]) then 1 else 0
  }

  lemma {:induction false} CountUpdate(threads: seq<Pc>, i: nat, pc: Pc, what: Pc -> bool)
    requires i < |threads|
    ensures Count(threads[i := pc], what) + (if what(threads[i]) then 1 else 0)
         == Count(threads, what) + (if what(pc) then 1 else 0)
  {
    if i > 0 {
      assert threads[i := pc][1..] == threads[1..][i - 1 := pc];
      CountUpdate(threads[1..], i - 1, pc, what);
    }
  }

  lemma {:induction false} CountPositive(threads: seq<Pc>, i: nat, what: Pc -> bool)
    requires i < |threads| && what(threads[i])
    ensures Count(threads, what) >= 1
  {
    if i > 0 {
      CountPositive(threads[1..], i - 1, what);
    }
  }

  lemma {:induction false} CountTwo(threads: seq<Pc>, i: nat, j: nat, what: Pc -> bool)
    requires i < j < |threads| && what(threads[i]) && what(threads[j])
    ensures Count(threads, what) >= 2
  {
    if i == 0 {
      CountPositive(threads[1..], j - 1, what);
    } else {
      CountTwo(threads[1..], i - 1, j - 1, what);
    }
  }

  lemma {:induction false} CountNone(threads: seq<Pc>, what: Pc -> bool)
    requires forall i :: 0 <= i < |threads| ==> !what(threads[i])
    ensures Count(threads, what) == 0
  {
    if threads != [] {
      CountNone(threads[1..], what);
    }
  }

  predicate IsAllocated(e: Event) {
    e.Allocated?
  }

  predicate IsSent(e: Event) {
    e.Sent?
  }

  predicate IsLost(e: Event) {
    e.Lost?
  }

  function CountEvents(log: seq<Event>, what: Event -> bool): nat {
    if log == [] then 0
    else CountEvents(log[..|log| - 1], what) + if what(log[|log| - 1]) then 1 else 0
  }

  /** The pid written last, zero before the first write. */
  function LastWritten(log: seq<Event>): nat {
    if log == [] then 0
    else if log[|log| - 1].Wrote? then log[|log| - 1].pid
    else LastWritten(log[..|log| - 1])
  }

  /** What an event says about the pid stored at that moment: a unicast goes to it and it is not
      zero; a buffer is lost only when it is zero. */
  predicate Fits(e: Event, pid: nat) {
    && (e.Sent? ==> e.pid == pid && pid != 0)
    && (e.Lost? ==> pid == 0)
  }

  ghost predicate Faithful(log: seq<Event>) {
    forall k :: 0 <= k < |log| ==> Fits(log[k], LastWritten(log[..k]))
  }

  /** The reader count is the number of threads that hold the lock for reading; at most one thread
      holds it for writing, and then nobody reads. */
  ghost predicate LockInv(s: State) {
    && s.shared.readers == Count(s.threads, Reading)
    && Count(s.threads, Writing) == (if s.shared.writer then 1 else 0)
    && (s.shared.writer ==> s.shared.readers == 0)
  }

  /** Between the second check and the unicast the pid stays other than zero. */
  ghost predicate CheckedInv(s: State) {
    forall i :: 0 <= i < |s.threads| && s.threads[i].Unicast? ==> s.shared.pid != 0
  }

  ghost predicate LogInv(s: State) {
    s.shared.pid == LastWritten(s.log) && Faithful(s.log)
  }

  /** Buffers allocated are sent, lost, or still carried by a thread. */
  ghost predicate BufferInv(s: State) {
    CountEvents(s.log, IsAllocated)
    == CountEvents(s.log, IsSent) + CountEvents(s.log, IsLost) + Count(s.threads, Carrying)
  }

  ghost predicate Inv(s: State) {
    LockInv(s) && CheckedInv(s) && LogInv(s) && BufferInv(s)
  }

  lemma Appended(log: seq<Event>, e: Event)
    requires Faithful(log) && Fits(e, LastWritten(log))
    ensures Faithful(log + [e])
    ensures LastWritten(log + [e]) == if e.Wrote? then e.pid else LastWritten(log)
  {
    var longer := log + [e];
    assert longer[..|log|] == log;
    forall k | 0 <= k < |longer|
      ensures Fits(longer[k], LastWritten(longer[..k]))
    {
      if k < |log| {
        assert longer[..k] == log[..k];
      }
    }
  }

  lemma CountAppended(log: seq<Event>, e: Event, what: Event -> bool)
    ensures CountEvents(log + [e], what) == CountEvents(log, what) + if what(e) then 1 else 0
  {
    assert (log + [e])[..|log|] == log;
  }

  /** While a thread writes, no thread reads: in particular none is about to unicast. */
  lemma WriterExcludesUnicast(s: State, i: nat, j: nat)
    requires LockInv(s) && i < |s.threads| && j < |s.threads|
    requires Writing(s.threads[i])
    ensures s.shared.writer && !Reading(s.threads[j])
  {
    CountPositive(s.threads, i, Writing);
    if Reading(s.threads[j]) {
      CountPositive(s.threads, j, Reading);
    }
  }

  /** What one step does to the lock, seen from the thread that takes it. */
  lemma ActLock(sh: Shared, pc: Pc, c: Choice)
    ensures var o := Act(sh, pc, c);
            && o.shared.readers - sh.readers == (if Reading(o.pc) then 1 else 0) - (if Reading(pc) then 1 else 0)
            && (Writing(o.pc) && !Writing(pc) ==> !sh.writer && sh.readers == 0 && o.shared.writer)
            && (Writing(pc) && !Writing(o.pc) ==> !o.shared.writer && o.shared.readers == sh.readers)
            && (Writing(pc) == Writing(o.pc) ==> o.shared.writer == sh.writer)
            && (Reading(o.pc) && !Reading(pc) ==> !sh.writer)
  {
  }

  /** What one step does to the pid and the log. */
  lemma ActLog(sh: Shared, pc: Pc, c: Choice)
    requires pc.Unicast? ==> sh.pid != 0
    ensures var o := Act(sh, pc, c);
            && |o.events| <= 1
            && (o.shared.pid != sh.pid ==> pc.Write?)
            && (o.events == [] ==> o.shared.pid == sh.pid)
            && (o.events != [] ==> Fits(o.events[0], sh.pid))
            && (o.events != [] ==> o.shared.pid == if o.events[0].Wrote? then o.events[0].pid else sh.pid)
            && (o.pc.Unicast? ==> sh.pid != 0 && o.shared.pid == sh.pid)
  {
  }

  /** What one step does to the buffer that the thread carries. */
  lemma ActBuffer(sh: Shared, pc: Pc, c: Choice)
    ensures var o := Act(sh, pc, c);
            && |o.events| <= 1
            && (if Carrying(o.pc) then 1 else 0) - (if Carrying(pc) then 1 else 0)
               == if o.events == [] then 0
                  else if o.events[0].Allocated? then 1
                  else if o.events[0].Sent? || o.events[0].Lost? then -1
                  else 0
  {
  }

  lemma StepKeepsLockInv(s: State, i: nat, c: Choice)
    requires LockInv(s) && i < |s.threads|
    ensures LockInv(Step(s, i, c))
  {
    var pc := s.threads[i];
    var o := Act(s.shared, pc, c);
    ActLock(s.shared, pc, c);
    CountUpdate(s.threads, i, o.pc, Reading);
    CountUpdate(s.threads, i, o.pc, Writing);
    if Writing(pc) {
      CountPositive(s.threads, i, Writing);
    }
  }

  lemma StepKeepsCheckedInv(s: State, i: nat, c: Choice)
    requires LockInv(s) && CheckedInv(s) && i < |s.threads|
    ensures CheckedInv(Step(s, i, c))
  {
    var pc := s.threads[i];
    var o := Act(s.shared, pc, c);
    ActLog(s.shared, pc, c);
    var threads' := s.threads[i := o.pc];
    forall j | 0 <= j < |threads'| && threads'[j].Unicast?
      ensures o.shared.pid != 0
    {
      if pc.Write? {
        WriterExcludesUnicast(s, i, j);
      }
    }
  }

  lemma StepKeepsLogInv(s: State, i: nat, c: Choice)
    requires CheckedInv(s) && LogInv(s) && i < |s.threads|
    ensures LogInv(Step(s, i, c))
  {
    var o := Act(s.shared, s.threads[i], c);
    ActLog(s.shared, s.threads[i], c);
    if o.events == [] {
      assert s.log + o.events == s.log;
    } else {
      assert o.events == [o.events[0]];
      Appended(s.log, o.events[0]);
    }
  }

  lemma StepKeepsBufferInv(s: State, i: nat, c: Choice)
    requires BufferInv(s) && i < |s.threads|
    ensures BufferInv(Step(s, i, c))
  {
    var o := Act(s.shared, s.threads[i], c);
    ActBuffer(s.shared, s.threads[i], c);
    CountUpdate(s.threads, i, o.pc, Carrying);
    if o.events == [] {
      assert s.log + o.events == s.log;
    } else {
      assert o.events == [o.events[0]];
      CountAppended(s.log, o.events[0], IsAllocated);
      CountAppended(s.log, o.events[0], IsSent);
      CountAppended(s.log, o.events[0], IsLost);
    }
  }

  /** Every step of every thread keeps the invariant. */
  lemma StepKeepsInv(s: State, i: nat, c: Choice)
    requires Inv(s) && i < |s.threads|
    ensures Inv(Step(s, i, c)) && |Step(s, i, c).threads| == |s.threads|
  {
    StepKeepsLockInv(s, i, c);
    StepKeepsCheckedInv(s, i, c);
    StepKeepsLogInv(s, i, c);
    StepKeepsBufferInv(s, i, c);
  }

  lemma {:induction false} InitInv(n: nat)
    ensures Inv(Init(n))
  {
    var threads := Init(n).threads;
    CountNone(threads, Reading);
    CountNone(threads, Writing);
    CountNone(threads, Carrying);
  }

  /** The invariant holds after every schedule, for any number of threads. */
  lemma {:induction false} RunKeepsInv(n: nat, schedule: Schedule)
    ensures Inv(Run(Init(n), schedule)) && |Run(Init(n), schedule).threads| == n
  {
    if schedule == [] {
      InitInv(n);
    } else {
      var front := schedule[..|schedule| - 1];
      RunKeepsInv(n, front);
      var (i, c) := schedule[|schedule| - 1];
      if i < n {
        StepKeepsInv(Run(Init(n), front), i, c);
      }
    }
  }

  /** Mutual exclusion after every schedule: a writing thread is alone with the lock. */
  lemma WriterExclusion(n: nat, schedule: Schedule, i: nat, j: nat)
    requires i < n && j < n && i != j
    ensures var s := Run(Init(n), schedule);
            |s.threads| == n && (Writing(s.threads[i]) ==> !Writing(s.threads[j]) && !Reading(s.threads[j]))
  {
    RunKeepsInv(n, schedule);
    var s := Run(Init(n), schedule);
    if Writing(s.threads[i]) {
      WriterExcludesUnicast(s, i, j);
      if Writing(s.threads[j]) {
        CountTwo(s.threads, if i < j then i else j, if i < j then j else i, Writing);
      }
    }
  }

  /** Every path gives back what it took: once all threads are idle the lock is free. */
  lemma EveryPathReleases(n: nat, schedule: Schedule)
    requires forall i :: 0 <= i < |Run(Init(n), schedule).threads| ==> Run(Init(n), schedule).threads[i].Idle?
    ensures Run(Init(n), schedule).shared.readers == 0 && !Run(Init(n), schedule).shared.writer
  {
    RunKeepsInv(n, schedule);
    CountNone(Run(Init(n), schedule).threads, Reading);
    CountNone(Run(Init(n), schedule).threads, Writing);
  }

  /** Every unicast of every run goes to the pid stored at that moment, never to zero; and a buffer
      is lost only by a sender that finds the pid zero at its second check. */
  lemma UnicastTarget(n: nat, schedule: Schedule, k: nat)
    requires k < |Run(Init(n), schedule).log|
    ensures var log := Run(Init(n), schedule).log;
            && (log[k].Sent? ==> log[k].pid != 0 && log[k].pid == LastWritten(log[..k]))
            && (log[k].Lost? ==> LastWritten(log[..k]) == 0)
  {
    RunKeepsInv(n, schedule);
  }

  lemma {:induction false} LastWrittenIs(log: seq<Event>, w: nat)
    requires w < |log| && log[w].Wrote? && forall j :: w < j < |log| ==> !log[j].Wrote?
    ensures LastWritten(log) == log[w].pid
  {
    if w < |log| - 1 {
      LastWrittenIs(log[..|log| - 1], w);
    }
  }

  /** After the pid was cleared, nothing is sent before the next write of a pid. */
  lemma SilenceAfterClear(n: nat, schedule: Schedule, w: nat, k: nat)
    requires w < k < |Run(Init(n), schedule).log|
    requires Run(Init(n), schedule).log[w] == Wrote(0)
    requires forall j :: w < j < k ==> !Run(Init(n), schedule).log[j].Wrote?
    ensures !Run(Init(n), schedule).log[k].Sent?
  {
    RunKeepsInv(n, schedule);
    LastWrittenIs(Run(Init(n), schedule).log[..k], w);
  }

  /** Buffer conservation after every schedule. */
  lemma BufferConservation(n: nat, schedule: Schedule)
    ensures var s := Run(Init(n), schedule);
            CountEvents(s.log, IsAllocated)
            == CountEvents(s.log, IsSent) + CountEvents(s.log, IsLost) + Count(s.threads, Carrying)
  {
    RunKeepsInv(n, schedule);
  }

  /** A thread that runs alone, until it has made k steps; room says whether allocations succeed. */
  function Alone(sh: Shared, pc: Pc, room: bool, k: nat): Outcome
    decreases k
  {
    if k == 0 then Outcome(sh, pc, [])
    else
      var o := Act(sh, pc, if room then Go else NoRoom);
      var rest := Alone(o.shared, o.pc, room, k - 1);
      Outcome(rest.shared, rest.pc, o.events + rest.events)
  }

  /** The lock is held by this thread only, and only as pc says. */
  predicate Undisturbed(sh: Shared, pc: Pc) {
    && sh.readers == (if Reading(pc) then 1 else 0)
    && sh.writer == Writing(pc)
    && (pc.Unicast? ==> sh.pid != 0)
  }

  /** What the rest of a sender logs when the pid does not change. */
  function SenderEvents(pid: nat, pc: Pc, room: bool): seq<Event> {
    var last := if pid == 0 then [Lost] else [Sent(pid)];
    match pc
    case Lock1(_) => if pid == 0 || !room then [] else [Allocated, Sent(pid)]
    case Check1(_) => if pid == 0 || !room then [] else [Allocated, Sent(pid)]
    case Unlock1(_) => if room then [Allocated] + last else []
    case Alloc(_) => if room then [Allocated] + last else []
    case Fill(_) => last
    case Lock2(_) => last
    case Check2(_) => last
    case Unicast(_) => last
    case _ => []
  }

  predicate BeforeWrite(pc: Pc) {
    pc.WriteLock? || pc.Write?
  }

  /** The pid that a thread leaves behind. */
  function FinalPid(pid: nat, pc: Pc): nat {
    if pc.Idle? then pid
    else if pc.job.Connect? then (if BeforeWrite(pc) then pc.job.pid else pid)
    else if pc.job.Disconnect? then (if pc.WriteUnlock? then pid else 0)
    else if BeforeWrite(pc) then 0
    else pid
  }

  function FinalEvents(pid: nat, pc: Pc, room: bool): seq<Event> {
    if pc.Idle? then []
    else if BeforeWrite(pc) then
      [Wrote(NewPid(pc.job))] + (if pc.job.Connect? then SenderEvents(pc.job.pid, Lock1(pc.job), room) else [])
    else if pc.WriteUnlock? then (if pc.job.Connect? then SenderEvents(pid, Lock1(pc.job), room) else [])
    else SenderEvents(pid, pc, room) + (if pc.job.Disconnect? then [Wrote(0)] else [])
  }

  /** How many steps a thread that runs alone still needs. */
  function Rank(pc: Pc): nat {
    match pc
    case Idle => 0
    case WriteLock(job) => if job.Connect? then 20 else 3
    case Write(job) => if job.Connect? then 19 else 2
    case WriteUnlock(job) => if job.Connect? then 18 else 1
    case Lock1(_) => 13
    case Check1(_) => 12
    case Fail1(_) => 11
    case Unlock1(_) => 11
    case Alloc(_) => 10
    case Fill(_) => 9
    case Lock2(_) => 8
    case Check2(_) => 7
    case Fail2(_) => 6
    case Unicast(_) => 6
    case Unlock2(_) => 5
  }

  lemma AloneStep(sh: Shared, pc: Pc, room: bool)
    requires Undisturbed(sh, pc) && !pc.Idle?
    ensures var o := Act(sh, pc, if room then Go else NoRoom);
            && Undisturbed(o.shared, o.pc) && Rank(o.pc) < Rank(pc)
            && o.shared.operatorflag == sh.operatorflag
            && FinalPid(o.shared.pid, o.pc) == FinalPid(sh.pid, pc)
  {
  }

  predicate AtWrite(pc: Pc) {
    BeforeWrite(pc) || pc.WriteUnlock?
  }

  lemma SenderStepEvents(sh: Shared, pc: Pc, room: bool)
    requires !pc.Idle? && !AtWrite(pc) && (pc.Unicast? ==> sh.pid != 0) && !sh.writer
    ensures var o := Act(sh, pc, if room then Go else NoRoom);
            && o.shared.pid == sh.pid
            && (AtWrite(o.pc) <==> o.pc == AfterSend(pc.job) && pc.job.Disconnect?)
            && (o.pc.Idle? ==> !pc.job.Disconnect?)
            && (!o.pc.Idle? ==> o.pc.job == pc.job)
            && SenderEvents(sh.pid, pc, room) == o.events + SenderEvents(sh.pid, o.pc, room)
  {
  }

  lemma AloneStepEvents(sh: Shared, pc: Pc, room: bool)
    requires Undisturbed(sh, pc) && !pc.Idle?
    ensures var o := Act(sh, pc, if room then Go else NoRoom);
            FinalEvents(sh.pid, pc, room) == o.events + FinalEvents(o.shared.pid, o.pc, room)
  {
    if !AtWrite(pc) {
      SenderStepEvents(sh, pc, room);
      hide Act, SenderEvents;
    }
  }

  /** A thread that runs alone comes to its end, with the lock free, the final pid stored, and the
      final events logged. */
  lemma {:induction false} AloneFinishes(sh: Shared, pc: Pc, room: bool) returns (k: nat)
    requires Undisturbed(sh, pc)
    ensures k <= Rank(pc)
    ensures Alone(sh, pc, room, k)
         == Outcome(Shared(FinalPid(sh.pid, pc), sh.operatorflag, 0, false), Idle, FinalEvents(sh.pid, pc, room))
    decreases Rank(pc)
  {
    if pc.Idle? {
      k := 0;
    } else {
      AloneStep(sh, pc, room);
      AloneStepEvents(sh, pc, room);
      var o := Act(sh, pc, if room then Go else NoRoom);
      var rest := AloneFinishes(o.shared, o.pc, room);
      k := rest + 1;
    }
  }

  function JobOf(r: Requests.Request): Job
    requires Requests.Session(r)
  {
    if r.Connect? then Connect(r.pid) else Disconnect
  }

  /** Run to completion, a handler does what one receive step is specified to do, whether or not there
      is room for its answer: the atomic steps refine the receive function, and the answer of a connect
      goes to the new pid, that of a disconnect to the old one. */
  lemma HandlerRefinesReceive(sh: Shared, r: Requests.Request, room: bool) returns (k: nat)
    requires sh.readers == 0 && !sh.writer && Requests.Session(r)
    ensures var o := Alone(sh, Act(sh, Idle, Start(JobOf(r))).pc, room, k);
            && o.pc == Idle && o.shared.readers == 0 && !o.shared.writer
            && Requests.Kernel(o.shared.pid, o.shared.operatorflag)
               == Requests.Receive(Requests.Kernel(sh.pid, sh.operatorflag), r)
            && o.events ==
               if r.Connect? then [Wrote(r.pid)] + (if r.pid == 0 || !room then [] else [Allocated, Sent(r.pid)])
               else (if sh.pid == 0 || !room then [] else [Allocated, Sent(sh.pid)]) + [Wrote(0)]
  {
    k := AloneFinishes(sh, Begin(JobOf(r)), room);
  }

  /** Run to completion, a report is sent to the stored pid; nothing is built without one, and nothing sent
      without room. */
  lemma ReportIsSent(sh: Shared, room: bool) returns (k: nat)
    requires sh.readers == 0 && !sh.writer
    ensures Alone(sh, Act(sh, Idle, Start(Report)).pc, room, k)
         == Outcome(sh, Idle, if sh.pid == 0 || !room then [] else [Allocated, Sent(sh.pid)])
  {
    k := AloneFinishes(sh, Begin(Report), room);
  }

  /** A sender of any job that has passed its first check, when other threads leave a pid behind before it
      goes on alone: the buffer goes to that pid, or is lost when that is zero; nothing is built without
      room; and a disconnect clears the pid in every case. */
  lemma SenderAfterOthers(job: Job, room: bool, pid: nat, flag: nat) returns (k: nat)
    ensures Alone(Shared(pid, flag, 0, false), Alloc(job), room, k)
         == Outcome(Shared(if job.Disconnect? then 0 else pid, flag, 0, false), Idle,
                    (if !room then [] else if pid == 0 then [Allocated, Lost] else [Allocated, Sent(pid)])
                    + if job.Disconnect? then [Wrote(0)] else [])
  {
    k := AloneFinishes(Shared(pid, flag, 0, false), Alloc(job), room);
  }

  /** The lock admits any number of readers or one writer, and nobody who is admitted waits. */
  lemma LockAdmits(sh: Shared, job: Job, c: Choice)
    ensures Act(sh, Lock1(job), c).pc.Check1? <==> !sh.writer
    ensures Act(sh, Lock2(job), c).pc.Check2? <==> !sh.writer
    ensures Act(sh, WriteLock(job), c).pc.Write? <==> !sh.writer && sh.readers == 0
    ensures Act(sh, Lock1(job), c).pc in {Lock1(job), Check1(job)}
    ensures Act(sh, Lock2(job), c).pc in {Lock2(job), Check2(job)}
    ensures Act(sh, WriteLock(job), c).pc in {WriteLock(job), Write(job)}
  {
  }

  /** A command is one step of an idle thread: it takes no lock, logs nothing, and does to the flag what
      the receive step is specified to do. */
  lemma OrderRefinesReceive(sh: Shared, text: string)
    ensures var o := Act(sh, Idle, Order(text));
            && o.pc == Idle && o.events == [] && o.shared == sh.(operatorflag := o.shared.operatorflag)
            && Requests.Kernel(o.shared.pid, o.shared.operatorflag)
               == Requests.Receive(Requests.Kernel(sh.pid, sh.operatorflag), Requests.Command(text))
  {
  }

  /** The commands that a schedule carries out, in their order. */
  function Orders(n: nat, schedule: Schedule): seq<Requests.Request> {
    if schedule == [] then []
    else
      var front := schedule[..|schedule| - 1];
      var (i, c) := schedule[|schedule| - 1];
      var s := Run(Init(n), front);
      Orders(n, front) + if i < |s.threads| && s.threads[i].Idle? && c.Order? then [Requests.Command(c.text)] else []
  }

  /** Only a command changes the flag. */
  lemma FlagOfStep(sh: Shared, pc: Pc, c: Choice)
    ensures !(pc.Idle? && c.Order?) ==> Act(sh, pc, c).shared.operatorflag == sh.operatorflag
  {
  }

  lemma RunLast(s: State, schedule: Schedule)
    requires schedule != []
    ensures var before := Run(s, schedule[..|schedule| - 1]);
            var (i, c) := schedule[|schedule| - 1];
            Run(s, schedule) == if i < |before.threads| then Step(before, i, c) else before
  {
  }

  lemma ReplayOneMore(rs: seq<Requests.Request>, r: Requests.Request)
    ensures Requests.Replay(Requests.INITIAL, rs + [r]) == Requests.Receive(Requests.Replay(Requests.INITIAL, rs), r)
  {
    assert (rs + [r])[..|rs + [r]| - 1] == rs;
  }

  /** After every schedule, whatever else it interleaves, the flag is that of replaying its commands. */
  lemma {:induction false} FlagOfSchedule(n: nat, schedule: Schedule)
    ensures Run(Init(n), schedule).shared.operatorflag
         == Requests.Replay(Requests.INITIAL, Orders(n, schedule)).operatorflag
  {
    hide Act, Run, Requests.Replay;
    if schedule == [] {
      RunNothing(Init(n));
      ReplayNothing();
    } else {
      var front := schedule[..|schedule| - 1];
      var (i, c) := schedule[|schedule| - 1];
      var s, rs := Run(Init(n), front), Orders(n, front);
      FlagOfSchedule(n, front);
      RunLast(Init(n), schedule);
      assert rs + [] == rs;
      if i < |s.threads| {
        FlagOfStep(s.shared, s.threads[i], c);
        if s.threads[i].Idle? && c.Order? {
          OrderRefinesReceive(s.shared, c.text);
          ReplayOneMore(rs, Requests.Command(c.text));
        }
      }
    }
  }

  lemma ReplayNothing()
    ensures Requests.Replay(Requests.INITIAL, []) == Requests.Kernel(0, 0)
  {
  }

  /** Hence 2 exactly when the last command carried out was "drop", 1 when it was anything else, 0 when
      there was none. */
  lemma FlagAfterSchedule(n: nat, schedule: Schedule)
    ensures var flag, rs := Run(Init(n), schedule).shared.operatorflag, Orders(n, schedule);
            && (flag == 2 <==> exists i: nat :: Requests.LastCommand(rs, i) && rs[i].text == "drop")
            && (flag == 1 <==> exists i: nat :: Requests.LastCommand(rs, i) && rs[i].text != "drop")
            && (flag == 0 <==> rs == [])
  {
    hide Run, Orders, Requests.Replay;
    FlagOfSchedule(n, schedule);
    Requests.FlagTrace(Orders(n, schedule));
    OrdersAreCommands(n, schedule);
    assert Orders(n, schedule) != [] ==> Orders(n, schedule)[0].Command?;
  }

  lemma {:induction false} OrdersAreCommands(n: nat, schedule: Schedule)
    ensures forall i :: 0 <= i < |Orders(n, schedule)| ==> Orders(n, schedule)[i].Command?
  {
    hide Run;
    if schedule != [] {
      OrdersAreCommands(n, schedule[..|schedule| - 1]);
    }
  }

  /** A thread that holds the lock, or any thread when nobody does, comes closer to its end. */
  lemma ActProgress(sh: Shared, pc: Pc)
    requires !pc.Idle? && (Reading(pc) || Writing(pc) || (sh.readers == 0 && !sh.writer))
    ensures Rank(Act(sh, pc, Go).pc) < Rank(pc)
  {
  }

  function TotalRank(threads: seq<Pc>): nat {
    if threads == [] then 0 else Rank(threads[0]) + TotalRank(threads[1..])
  }

  lemma {:induction false} TotalRankUpdate(threads: seq<Pc>, i: nat, pc: Pc)
    requires i < |threads|
    ensures TotalRank(threads[i := pc]) + Rank(threads[i]) == TotalRank(threads) + Rank(pc)
  {
    if i > 0 {
      assert threads[i := pc][1..] == threads[1..][i - 1 := pc];
      TotalRankUpdate(threads[1..], i - 1, pc);
    }
  }

  predicate AllIdle(s: State) {
    forall i :: 0 <= i < |s.threads| ==> s.threads[i].Idle?
  }

  /** There is always a thread that can go on. */
  lemma SomeoneCanStep(s: State) returns (i: nat)
    requires LockInv(s) && !AllIdle(s)
    ensures i < |s.threads| && !s.threads[i].Idle?
    ensures Reading(s.threads[i]) || Writing(s.threads[i]) || (s.shared.readers == 0 && !s.shared.writer)
  {
    if holder: nat :| holder < |s.threads| && (Reading(s.threads[holder]) || Writing(s.threads[holder])) {
      i := holder;
    } else {
      CountNone(s.threads, Reading);
      CountNone(s.threads, Writing);
      i :| i < |s.threads| && !s.threads[i].Idle?;
    }
  }

  lemma {:induction false} ComesToIdle(s: State) returns (rest: Schedule)
    requires LockInv(s)
    ensures AllIdle(Run(s, rest)) && |rest| <= TotalRank(s.threads)
    decreases TotalRank(s.threads)
  {
    hide Act, Run, LockInv, Rank;
    if AllIdle(s) {
      rest := [];
      RunNothing(s);
    } else {
      var i := SomeoneCanStep(s);
      ActProgress(s.shared, s.threads[i]);
      var s' := Step(s, i, Go);
      StepKeepsLockInv(s, i, Go);
      TotalRankUpdate(s.threads, i, Act(s.shared, s.threads[i], Go).pc);
      var more := ComesToIdle(s');
      rest := [(i, Go)] + more;
      RunConcat(s, [(i, Go)], more);
      RunOne(s, i, Go);
    }
  }

  /** No schedule is a dead end: after every schedule the threads can come to their ends, and then the
      lock is free and every allocated buffer was sent or lost. */
  lemma Progress(n: nat, schedule: Schedule) returns (rest: Schedule)
    ensures var s := Run(Init(n), schedule + rest);
            && |s.threads| == n && AllIdle(s)
            && s.shared.readers == 0 && !s.shared.writer
            && CountEvents(s.log, IsAllocated) == CountEvents(s.log, IsSent) + CountEvents(s.log, IsLost)
  {
    hide Run;
    RunKeepsInv(n, schedule);
    rest := ComesToIdle(Run(Init(n), schedule));
    RunConcat(Init(n), schedule, rest);
    RunKeepsInv(n, schedule + rest);
    var s := Run(Init(n), schedule + rest);
    CountNone(s.threads, Reading);
    CountNone(s.threads, Writing);
    CountNone(s.threads, Carrying);
  }

  /** Jobs that store a pid, and jobs that clear it. */
  ghost predicate CanStore(jobs: iset<Job>) {
    exists p: nat :: p != 0 && Connect(p) in jobs
  }

  predicate Clears(job: Job) {
    job == Disconnect || job == Connect(0)
  }

  ghost predicate CanClear(jobs: iset<Job>) {
    Disconnect in jobs || Connect(0) in jobs
  }

  /** No other job is started. */
  ghost predicate OnlyStarts(schedule: Schedule, jobs: iset<Job>) {
    forall k :: 0 <= k < |schedule| && schedule[k].1.Start? ==> schedule[k].1.job in jobs
  }

  /** The sender has found a pid at its first check and has not yet handed on or lost its buffer. */
  predicate PastCheck1(pc: Pc) {
    pc.Unlock1? || pc.Alloc? || Carrying(pc)
  }

  /** Two threads, one job that stores a pid, and one that clears it: this is what it takes. */
  ghost predicate LossPossible(n: nat, jobs: iset<Job>) {
    n >= 2 && CanStore(jobs) && CanClear(jobs)
  }

  /** A thread's job is one of those that are started, and only handlers write. */
  ghost predicate Doing(pc: Pc, jobs: iset<Job>) {
    !pc.Idle? ==> pc.job in jobs && (BeforeWrite(pc) || pc.WriteUnlock? ==> !pc.job.Report?)
  }

  /** While a sender is past its first check, the pid is there. */
  ghost predicate NoLossInv(s: State, jobs: iset<Job>) {
    && (forall i :: 0 <= i < |s.threads| ==> Doing(s.threads[i], jobs))
    && (s.shared.pid != 0 ==> CanStore(jobs))
    && (forall i :: 0 <= i < |s.threads| && PastCheck1(s.threads[i]) ==> s.shared.pid != 0)
    && Lost !in s.log
  }

  /** What one step does, for the invariant. */
  lemma ActNoLoss(sh: Shared, pc: Pc, c: Choice, jobs: iset<Job>)
    requires Doing(pc, jobs)
    requires c.Start? ==> c.job in jobs
    requires sh.pid != 0 ==> CanStore(jobs)
    requires PastCheck1(pc) ==> sh.pid != 0
    ensures var o := Act(sh, pc, c);
            && Doing(o.pc, jobs)
            && (o.shared.pid != 0 ==> CanStore(jobs))
            && (PastCheck1(o.pc) ==> o.shared.pid != 0)
            && Lost !in o.events
            && (sh.pid != 0 && o.shared.pid == 0 ==> CanStore(jobs) && CanClear(jobs))
  {
  }

  lemma StepKeepsNoLoss(s: State, i: nat, c: Choice, jobs: iset<Job>)
    requires NoLossInv(s, jobs) && !LossPossible(|s.threads|, jobs) && i < |s.threads|
    requires c.Start? ==> c.job in jobs
    ensures NoLossInv(Step(s, i, c), jobs)
  {
    hide Act, Doing, CanStore, CanClear;
    ActNoLoss(s.shared, s.threads[i], c, jobs);
  }

  lemma {:induction false} RunKeepsNoLoss(n: nat, schedule: Schedule, jobs: iset<Job>)
    requires OnlyStarts(schedule, jobs) && !LossPossible(n, jobs)
    ensures NoLossInv(Run(Init(n), schedule), jobs) && |Run(Init(n), schedule).threads| == n
  {
    hide Step;
    if schedule != [] {
      var front := schedule[..|schedule| - 1];
      RunKeepsNoLoss(n, front, jobs);
      RunKeepsInv(n, schedule);
      var (i, c) := schedule[|schedule| - 1];
      if i < n {
        StepKeepsNoLoss(Run(Init(n), front), i, c, jobs);
      }
    }
  }

  /** k steps of thread i and of no other. */
  function Solo(i: nat, room: bool, k: nat): Schedule {
    seq(k, _ => (i, if room then Go else NoRoom))
  }

  lemma {:induction false} RunConcat(s: State, a: Schedule, b: Schedule)
    ensures Run(s, a + b) == Run(Run(s, a), b)
  {
    if b == [] {
      assert a + b == a;
    } else {
      var front := b[..|b| - 1];
      assert (a + b)[..|a + b| - 1] == a + front;
      RunConcat(s, a, front);
    }
  }

  lemma RunNothing(s: State)
    ensures Run(s, []) == s
  {
  }

  lemma {:induction false} RunOne(s: State, i: nat, c: Choice)
    requires i < |s.threads|
    ensures Run(s, [(i, c)]) == Step(s, i, c)
  {
    assert [(i, c)][..0] == [];
  }

  /** What a thread does alone it does in the company of threads that do not step. */
  lemma {:induction false} SoloRun(s: State, i: nat, room: bool, k: nat)
    requires i < |s.threads|
    ensures var o := Alone(s.shared, s.threads[i], room, k);
            Run(s, Solo(i, room, k)) == State(o.shared, s.threads[i := o.pc], s.log + o.events)
    decreases k
  {
    hide Act, Run;
    var c := if room then Go else NoRoom;
    if k == 0 {
      assert Solo(i, room, 0) == [];
      RunNothing(s);
      assert s.threads[i := s.threads[i]] == s.threads && s.log + [] == s.log;
    } else {
      var s' := Step(s, i, c);
      SoloRun(s', i, room, k - 1);
      assert Solo(i, room, k) == [(i, c)] + Solo(i, room, k - 1);
      RunConcat(s, [(i, c)], Solo(i, room, k - 1));
      RunOne(s, i, c);
      var o, rest := Act(s.shared, s.threads[i], c), Alone(s'.shared, s'.threads[i], room, k - 1);
      assert (s.log + o.events) + rest.events == s.log + (o.events + rest.events);
    }
  }

  /** A thread starts a job and makes k steps. */
  function StartAndRun(i: nat, job: Job, k: nat): Schedule {
    [(i, Choice.Start(job))] + Solo(i, true, k)
  }

  lemma StartedRun(s: State, i: nat, job: Job, k: nat)
    requires i < |s.threads| && s.threads[i] == Idle
    ensures var o := Alone(s.shared, Begin(job), true, k);
            Run(s, StartAndRun(i, job, k)) == State(o.shared, s.threads[i := o.pc], s.log + o.events)
  {
    hide Alone, Run;
    RunConcat(s, [(i, Choice.Start(job))], Solo(i, true, k));
    RunOne(s, i, Choice.Start(job));
    var s' := Step(s, i, Choice.Start(job));
    assert s' == State(s.shared, s.threads[i := Begin(job)], s.log) by {
      assert s.log + [] == s.log;
    }
    SoloRun(s', i, true, k);
  }

  /** A connect on its way to the second check of its own answer. */
  predicate Answering(sh: Shared, pc: Pc) {
    && Undisturbed(sh, pc) && Rank(Lock2(Report)) <= Rank(pc) && !pc.Fail1?
    && pc.job.Connect? && pc.job.pid != 0 && (BeforeWrite(pc) || sh.pid == pc.job.pid)
  }

  /** Running alone, it stores its pid and gets to its second check with a filled buffer. */
  lemma {:induction false} ReachesLock2(sh: Shared, pc: Pc) returns (k: nat)
    requires Answering(sh, pc)
    ensures var o := Alone(sh, pc, true, k);
            o.pc == Lock2(pc.job) && o.shared == Shared(pc.job.pid, sh.operatorflag, 0, false)
    decreases Rank(pc)
  {
    if pc.Lock2? {
      k := 0;
    } else {
      AloneStep(sh, pc, true);
      var o := Act(sh, pc, Go);
      assert Answering(o.shared, o.pc) && o.pc.job == pc.job;
      var rest := ReachesLock2(o.shared, o.pc);
      k := rest + 1;
    }
  }

  lemma SecondCheckLoses(job: Job, flag: nat)
    ensures Lost in Alone(Shared(0, flag, 0, false), Lock2(job), true, 2).events
  {
    assert Alone(Shared(0, flag, 1, false), Check2(job), true, 1).events == [Lost] + [];
  }

  /** A sender whose pid is cleared between its two checks loses its buffer. */
  lemma LosingSchedule(n: nat, pid: nat, clearing: Job) returns (schedule: Schedule)
    requires n >= 2 && pid != 0 && Clears(clearing)
    ensures Lost in Run(Init(n), schedule).log
    ensures OnlyStarts(schedule, iset{Connect(pid), clearing})
  {
    hide Run, Alone, StartAndRun;
    var s0, job := Init(n), Connect(pid);
    var m := ReachesLock2(s0.shared, Begin(job));
    var connect := StartAndRun(0, job, m);
    StartedRun(s0, 0, job, m);
    var s1 := Run(s0, connect);
    var k := AloneFinishes(s1.shared, Begin(clearing), true);
    var clear := StartAndRun(1, clearing, k);
    StartedRun(s1, 1, clearing, k);
    var s2 := Run(s1, clear);
    assert s2.threads[0] == Lock2(job) && s2.shared == Shared(0, 0, 0, false);
    SoloRun(s2, 0, true, 2);
    SecondCheckLoses(job, 0);
    RunConcat(s0, connect, clear);
    RunConcat(s0, connect + clear, Solo(0, true, 2));
    schedule := connect + clear + Solo(0, true, 2);
    StartsOf(0, job, m);
    StartsOf(1, clearing, k);
  }

  lemma StartsOf(i: nat, job: Job, k: nat)
    ensures forall j :: 0 <= j < |StartAndRun(i, job, k)| && StartAndRun(i, job, k)[j].1.Start? ==>
              StartAndRun(i, job, k)[j].1.job == job
  {
  }

  /** When a buffer can be lost: some schedule that starts only the given jobs loses one exactly when
      there are two threads, a job that stores a pid, and a job that clears it. */
  lemma LossExact(n: nat, jobs: iset<Job>)
    ensures (exists schedule :: OnlyStarts(schedule, jobs) && Lost in Run(Init(n), schedule).log)
            <==> LossPossible(n, jobs)
  {
    hide Run;
    if LossPossible(n, jobs) {
      var pid: nat :| pid != 0 && Connect(pid) in jobs;
      var clearing := if Disconnect in jobs then Disconnect else Connect(0);
      var schedule := LosingSchedule(n, pid, clearing);
      assert OnlyStarts(schedule, jobs);
    } else {
      forall schedule | OnlyStarts(schedule, jobs)
        ensures Lost !in Run(Init(n), schedule).log
      {
        RunKeepsNoLoss(n, schedule, jobs);
      }
    }
  }
}
