/**
 A worker thread and its job queue: the worker's loop against enqueues that nest like interrupts. An
 enqueue from a task runs with preemption disabled, so the worker moves only when none is in flight.
 */
module WorkerThread {
  import opened SafeRingbuf

  /** What an enqueue still has to do once its ring buffer write is done. */
  datatype Stage = Test | Clear | Wake

  datatype Pc =
    | Start     // about to clear the waiting flag
    | Reading   // taking and running jobs
    | Settle    // found no job; about to look again with interrupts disabled
    | Look      // about to test the waiting flag
    | Off       // has given up the processor

  /** `waiting` is the flag waiting_for_jobs, `sleeping` says that the task state is SLEEPING. */
  datatype Worker<T> = Worker(ring: State<T>, stages: seq<Stage>, waiting: bool, sleeping: bool, pc: Pc)

  datatype Action<T> = Enqueue(job: T) | Enqueuer(fail: bool) | Work(fail: bool)

  function NewWorker<T>(buf: seq<T>): Worker<T> { Worker(Initial(buf), [], false, false, Start) }

  predicate Possible<T>(s: Worker<T>, a: Action<T>) {
    |s.ring.buf| > 0 && |s.stages| == |s.ring.writers| &&
    match a
    case Enqueue(_) => true
    case Enqueuer(_) => s.ring.writers != []
    case Work(_) => s.ring.writers == [] && (s.pc.Off? ==> !s.sleeping)
  }

  function Leave<T>(s: Worker<T>): Worker<T>
    requires s.ring.writers != [] && Top(s.ring).Done? && |s.stages| == |s.ring.writers|
  {
    s.(ring := Popped(s.ring), stages := s.stages[..|s.stages| - 1])
  }

  /** The innermost enqueue moves. */
  function EnqueueStep<T>(s: Worker<T>, fail: bool): Worker<T>
    requires Possible(s, Enqueuer(fail))
  {
    var f, top := Top(s.ring), |s.stages| - 1;
    if !f.Done? then s.(ring := WriterStep(s.ring, fail))
    else match s.stages[top]
      case Test => if f.ok && f.wasEmpty && s.waiting then s.(stages := s.stages[top := Clear]) else Leave(s)
      case Clear => s.(waiting := false, stages := s.stages[top := Wake])
      case Wake => Leave(s.(sleeping := false))
  }

  /** The worker moves. */
  function WorkStep<T>(s: Worker<T>, fail: bool): Worker<T>
    requires Possible(s, Work(fail))
  {
    match s.pc
    case Start => s.(waiting := false, pc := Reading)
    case Reading =>
      (match s.ring.reader
       case Idle => s.(ring := Step(s.ring, Read))
       case RDone(job, _) => s.(ring := Step(s.ring, ReadReturn), pc := if job.Some? then Reading else Settle)
       case _ => s.(ring := Step(s.ring, RunReader(fail))))
    case Settle => if IsEmpty(s.ring.raw) then s.(sleeping := true, waiting := true, pc := Look) else s.(pc := Look)
    case Look => s.(pc := if s.waiting then Off else Start)
    case Off => s.(pc := Start)
  }

  function Next<T>(s: Worker<T>, a: Action<T>): Worker<T>
    requires Possible(s, a)
  {
    match a
    case Enqueue(job) => s.(ring := Step(s.ring, Write(job)), stages := s.stages + [Test])
    case Enqueuer(fail) => EnqueueStep(s, fail)
    case Work(fail) => WorkStep(s, fail)
  }

  // ------------------------------------------------------------ invariant

  /** A write that found the queue empty. */
  predicate First<T>(f: Frame<T>) { (f.Copy? && IsEmpty(f.cs)) || (f.Done? && f.ok && f.wasEmpty) }

  ghost predicate Jobs<T>(s: Worker<T>) { |s.ring.got| < |s.ring.log| }

  /** Some enqueue in flight found the queue empty. */
  ghost predicate FirstInFlight<T>(s: Worker<T>) { exists i :: 0 <= i < |s.ring.writers| && First(s.ring.writers[i]) }

  /** Some enqueue in flight has cleared the flag and is about to wake the worker. */
  ghost predicate WakeInFlight<T>(s: Worker<T>) { exists i :: 0 <= i < |s.stages| && s.stages[i].Wake? }

  ghost predicate StagesOk<T>(s: Worker<T>) {
    && |s.stages| == |s.ring.writers|
    && forall i | 0 <= i < |s.stages| && !s.stages[i].Test? :: s.ring.writers[i].Done? && First(s.ring.writers[i])
  }

  ghost predicate WakeOk<T>(s: Worker<T>) {
    && (s.sleeping && !s.waiting ==> WakeInFlight(s))
    && (s.sleeping && Jobs(s) ==> FirstInFlight(s))
  }

  ghost predicate WorkerOk<T>(s: Worker<T>) {
    && Inv(s.ring) && StagesOk(s) && WakeOk(s)
    && (s.sleeping ==> s.pc.Look? || s.pc.Off?) && (s.ring.reader.Idle? || s.pc.Reading?)
  }

  lemma FirstStays<T>(s: Worker<T>, s': Worker<T>)
    requires FirstInFlight(s) && |s'.ring.writers| >= |s.ring.writers|
    requires forall i | 0 <= i < |s.ring.writers| && First(s.ring.writers[i]) :: First(s'.ring.writers[i])
    ensures FirstInFlight(s')
  {
    var i :| 0 <= i < |s.ring.writers| && First(s.ring.writers[i]);
    assert First(s'.ring.writers[i]);
  }

  lemma WakeStays<T>(s: Worker<T>, s': Worker<T>)
    requires WakeInFlight(s) && |s'.stages| >= |s.stages|
    requires forall i | 0 <= i < |s.stages| && s.stages[i].Wake? :: s'.stages[i].Wake?
    ensures WakeInFlight(s')
  {
    var i :| 0 <= i < |s.stages| && s.stages[i].Wake?;
    assert s'.stages[i].Wake?;
  }

  /** A write step keeps the writes that found the queue empty, and the first to arrive is one. */
  lemma WriteStepFirst<T>(r: State<T>, fail: bool)
    requires Inv(r) && r.writers != [] && !Top(r).Done?
    ensures var r', top := WriterStep(r, fail), |r.writers| - 1;
            && |r'.writers| == |r.writers| && r'.writers[..top] == r.writers[..top] && r'.got == r.got
            && (First(r.writers[top]) ==> First(r'.writers[top]))
            && (|r.got| == |r.log| < |r'.log| ==> First(r'.writers[top]))
  {
    assert FrameOk(r, Top(r));
    WordEmpty(|r.got|, |r.log|, |r.buf|);
  }

  lemma WriteKeeps<T>(s: Worker<T>, fail: bool)
    requires WorkerOk(s) && s.ring.writers != [] && !Top(s.ring).Done?
    ensures WorkerOk(EnqueueStep(s, fail))
  {
    var r := WriterStep(s.ring, fail);
    assert Inv(r) by { WriterKeeps(s.ring, fail); }
    WriteStepFirst(s.ring, fail);
    OuterKept(s.ring, r);
    MovedStages(s, r);
    MovedWake(s, r);
  }

  lemma OuterKept<T>(r: State<T>, r': State<T>)
    requires r.writers != [] && |r'.writers| == |r.writers| && r'.writers[..|r.writers| - 1] == r.writers[..|r.writers| - 1]
    ensures forall i | 0 <= i < |r.writers| - 1 :: r'.writers[i] == r.writers[i]
  {
    var top := |r.writers| - 1;
    forall i | 0 <= i < top ensures r'.writers[i] == r.writers[i] {
      assert r'.writers[..top][i] == r.writers[..top][i];
    }
  }

  lemma MovedStages<T>(s: Worker<T>, r: State<T>)
    requires s.ring.writers != [] && !Top(s.ring).Done? && StagesOk(s) && |r.writers| == |s.ring.writers|
    requires forall i | 0 <= i < |r.writers| - 1 :: r.writers[i] == s.ring.writers[i]
    ensures StagesOk(s.(ring := r))
  {
  }

  /** The innermost write has moved on and the rest is as before: whoever sleeps has the same to rely on. */
  lemma MovedWake<T>(s: Worker<T>, r: State<T>)
    requires s.ring.writers != [] && WakeOk(s)
    requires |r.writers| == |s.ring.writers| && r.got == s.ring.got
    requires forall i | 0 <= i < |r.writers| && First(s.ring.writers[i]) :: First(r.writers[i])
    requires |r.got| >= |s.ring.log| && |r.got| < |r.log| ==> First(Top(r))
    ensures WakeOk(s.(ring := r))
  {
    var s' := s.(ring := r);
    if s.sleeping && !s.waiting { WakeStays(s, s'); }
    if s.sleeping && Jobs(s) { FirstStays(s, s'); }
    if !Jobs(s) && Jobs(s') { assert First(r.writers[|r.writers| - 1]); }
  }

  /** An enqueue that leaves without waking has someone else to rely on. */
  lemma LeaveKeeps<T>(s: Worker<T>)
    requires WorkerOk(s) && s.ring.writers != [] && Top(s.ring).Done?
    requires s.sleeping ==> s.stages[|s.stages| - 1].Test? && !(First(Top(s.ring)) && s.waiting)
    ensures WorkerOk(Leave(s))
  {
    var s', top := Leave(s), |s.stages| - 1;
    PopKeeps(s.ring);
    if s.sleeping && !s.waiting {
      var i :| 0 <= i < |s.stages| && s.stages[i].Wake?;
      assert s'.stages[i].Wake? && First(s'.ring.writers[i]);
    } else if s.sleeping && Jobs(s) {
      var i :| 0 <= i < |s.ring.writers| && First(s.ring.writers[i]);
      assert First(s'.ring.writers[i]);
    }
  }

  lemma TestKeeps<T>(s: Worker<T>)
    requires WorkerOk(s) && s.ring.writers != [] && First(Top(s.ring)) && Top(s.ring).Done? && s.waiting
    ensures WorkerOk(s.(stages := s.stages[|s.stages| - 1 := Clear]))
  {
    var s' := s.(stages := s.stages[|s.stages| - 1 := Clear]);
    if s.sleeping && Jobs(s) { FirstStays(s, s'); }
  }

  lemma ClearKeeps<T>(s: Worker<T>)
    requires WorkerOk(s) && s.ring.writers != [] && First(Top(s.ring)) && Top(s.ring).Done?
    ensures WorkerOk(s.(waiting := false, stages := s.stages[|s.stages| - 1 := Wake]))
  {
    var s', top := s.(waiting := false, stages := s.stages[|s.stages| - 1 := Wake]), |s.stages| - 1;
    assert s'.stages[top].Wake?;
    if s.sleeping && Jobs(s) { FirstStays(s, s'); }
  }

  lemma EnqueueKeeps<T>(s: Worker<T>, fail: bool)
    requires WorkerOk(s) && s.ring.writers != []
    ensures WorkerOk(EnqueueStep(s, fail))
  {
    var s', top := EnqueueStep(s, fail), |s.stages| - 1;
    var f := Top(s.ring);
    if !f.Done? {
      WriteKeeps(s, fail);
    } else {
      match s.stages[top]
      case Test => if f.ok && f.wasEmpty && s.waiting { TestKeeps(s); } else { LeaveKeeps(s); }
      case Clear => ClearKeeps(s);
      case Wake => LeaveKeeps(s.(sleeping := false));
    }
  }

  lemma ArriveKeeps<T>(s: Worker<T>, job: T)
    requires WorkerOk(s)
    ensures WorkerOk(Next(s, Enqueue(job)))
  {
    var s' := Next(s, Enqueue(job));
    PushKeeps(s.ring, job);
    if s.sleeping && !s.waiting { WakeStays(s, s'); }
    if s.sleeping && Jobs(s) { FirstStays(s, s'); }
  }

  /** The worker sleeps only with the queue empty. */
  lemma WorkKeeps<T>(s: Worker<T>, fail: bool)
    requires WorkerOk(s) && Possible(s, Work(fail))
    ensures WorkerOk(WorkStep(s, fail))
  {
    match s.pc
    case Reading =>
      match s.ring.reader {
        case Idle => StepInv(s.ring, Read);
        case RDone(_, _) => StepInv(s.ring, ReadReturn);
        case _ => StepInv(s.ring, RunReader(fail));
      }
    case Settle => WordEmpty(|s.ring.got|, |s.ring.log|, |s.ring.buf|);
    case _ =>
  }

  lemma NextKeeps<T>(s: Worker<T>, a: Action<T>)
    requires WorkerOk(s) && Possible(s, a)
    ensures WorkerOk(Next(s, a))
  {
    match a
    case Enqueue(job) => ArriveKeeps(s, job);
    case Enqueuer(fail) => EnqueueKeeps(s, fail);
    case Work(fail) => WorkKeeps(s, fail);
  }

  // ----------------------------------------------------------------- runs

  ghost predicate LegalActions<T>(s: Worker<T>, es: seq<Action<T>>)
    decreases |es|
  {
    es == [] || (Possible(s, es[0]) && LegalActions(Next(s, es[0]), es[1..]))
  }

  ghost function After<T>(s: Worker<T>, es: seq<Action<T>>): Worker<T>
    requires LegalActions(s, es)
    decreases |es|
  {
    if es == [] then s else After(Next(s, es[0]), es[1..])
  }

  lemma {:induction false} ActionsKeep<T>(s: Worker<T>, es: seq<Action<T>>)
    requires WorkerOk(s) && LegalActions(s, es)
    ensures WorkerOk(After(s, es))
    decreases |es|
  {
    if es != [] {
      NextKeeps(s, es[0]);
      ActionsKeep(Next(s, es[0]), es[1..]);
    }
  }

  /**
   In every run, a worker that sleeps while there are jobs has an enqueue in flight that will wake it: one
   that found the queue empty, if the flag is still set, or one that has cleared the flag. With none in
   flight, a sleeping worker has taken every job, in order.
   */
  lemma NoJobLost<T>(buf: seq<T>, es: seq<Action<T>>)
    requires 0 < |buf| <= MAX_ELEMS && LegalActions(NewWorker(buf), es)
    ensures var s := After(NewWorker(buf), es);
            && s.ring.got <= s.ring.log
            && (s.sleeping && s.ring.got != s.ring.log ==> if s.waiting then FirstInFlight(s) else WakeInFlight(s))
            && (s.sleeping && s.ring.writers == [] ==> s.waiting && s.ring.got == s.ring.log)
  {
    InitialInv(buf);
    ActionsKeep(NewWorker(buf), es);
  }

  // ------------------------------------------------------------- progress

  /** No enqueue is in flight, the worker has run all jobs of the queue, in order, and waits for more. */
  ghost predicate Drained<T>(s: Worker<T>) {
    s.ring.writers == [] && s.sleeping && s.waiting && s.ring.returned == s.ring.log
  }

  /** The actions lead from s to s'. */
  ghost predicate Leads<T>(s: Worker<T>, es: seq<Action<T>>, s': Worker<T>) { LegalActions(s, es) && After(s, es) == s' }

  /** Nothing but undisturbed steps of the given kind. */
  ghost predicate OnlyWork<T>(es: seq<Action<T>>) { forall i | 0 <= i < |es| :: es[i] == Work(false) }

  ghost predicate OnlyEnqueuers<T>(es: seq<Action<T>>) { forall i | 0 <= i < |es| :: es[i] == Enqueuer(false) }

  lemma EnqueueRing<T>(s: Worker<T>, fail: bool)
    requires Possible(s, Enqueuer(fail))
    ensures var r, r' := s.ring, EnqueueStep(s, fail).ring;
            if !Top(r).Done? then r' == WriterStep(r, fail) else r' == r || r' == Popped(r)
  {
  }

  lemma EnqueueAccounted<T>(s: Worker<T>, fail: bool, r: State<T>)
    requires Accounted(s.ring) && s.ring.writers != [] && |s.ring.buf| > 0
    requires if !Top(s.ring).Done? then r == WriterStep(s.ring, fail) else r == s.ring || r == Popped(s.ring)
    ensures Accounted(r)
  {
    if Top(s.ring).Done? { PoppedAccounted(s.ring); } else { WriterAccounted(s.ring, fail); }
  }

  lemma WorkAccounted<T>(s: Worker<T>, fail: bool)
    requires Possible(s, Work(fail))
    ensures var r := WorkStep(s, fail).ring; r.log == s.ring.log && r.written == s.ring.written && r.writers == s.ring.writers
  {
  }

  lemma NextAccounted<T>(s: Worker<T>, a: Action<T>)
    requires Accounted(s.ring) && Possible(s, a)
    ensures Accounted(Next(s, a).ring)
  {
    match a
    case Enqueue(job) => OwedPush(s.ring.writers, Begin(job));
    case Enqueuer(fail) =>
      EnqueueRing(s, fail);
      EnqueueAccounted(s, fail, EnqueueStep(s, fail).ring);
    case Work(fail) => WorkAccounted(s, fail);
  }

  lemma {:induction false} ActionsAccounted<T>(s: Worker<T>, es: seq<Action<T>>)
    requires Accounted(s.ring) && LegalActions(s, es)
    ensures Accounted(After(s, es).ring)
    decreases |es|
  {
    if es != [] {
      NextAccounted(s, es[0]);
      ActionsAccounted(Next(s, es[0]), es[1..]);
    }
  }

  lemma LeadsOn<T>(s: Worker<T>, a: Action<T>, es: seq<Action<T>>, s': Worker<T>)
    requires Possible(s, a) && Leads(Next(s, a), es, s')
    ensures Leads(s, [a] + es, s')
  {
    assert ([a] + es)[1..] == es;
  }

  lemma {:induction false} LeadsOver<T>(s: Worker<T>, es: seq<Action<T>>, s1: Worker<T>, fs: seq<Action<T>>, s2: Worker<T>)
    requires Leads(s, es, s1) && Leads(s1, fs, s2)
    ensures Leads(s, es + fs, s2)
    decreases |es|
  {
    if es == [] {
      assert es + fs == fs;
    } else {
      LeadsOver(Next(s, es[0]), es[1..], s1, fs, s2);
      LeadsOn(s, es[0], es[1..] + fs, s2);
      assert [es[0]] + (es[1..] + fs) == es + fs;
    }
  }

  /** How far a worker with no enqueue in flight is from taking the next job or going to sleep. */
  ghost function Distance<T>(s: Worker<T>): nat {
    match s.pc
    case Off => 13
    case Look => 14
    case Settle => if Jobs(s) then 15 else 2
    case Start => 9
    case Reading =>
      var n := |s.ring.log|;
      match s.ring.reader
      case Idle => 8
      case RBegin => 7
      case RSecond(_, at1) => if at1 == n then 6 else 19
      case RCopy(_, _, at1, _) => if at1 == n then 5 else 18
      case RSwap(_, _, _, at1, _) => if at1 == n then 4 else 17
      case RDone(job, _) => if job.Some? then 20 else if Jobs(s) then 16 else 3
  }

  ghost predicate Closer<T>(s: Worker<T>, s': Worker<T>) {
    var left, left' := |s.ring.log| - |s.ring.got|, |s'.ring.log| - |s'.ring.got|;
    left' < left || (left' == left && Distance(s') < Distance(s))
  }

  lemma WorkGoesOn<T>(s: Worker<T>)
    requires WorkerOk(s) && s.ring.writers == [] && !s.sleeping
    ensures var s' := WorkStep(s, false);
            s'.ring.writers == [] && s'.ring.log == s.ring.log && (s'.sleeping || Closer(s, s'))
  {
    match s.pc
    case Settle => WordEmpty(|s.ring.got|, |s.ring.log|, |s.ring.buf|);
    case Reading => ReadGoesOn(s);
    case _ =>
  }

  lemma ReadGoesOn<T>(s: Worker<T>)
    requires WorkerOk(s) && s.ring.writers == [] && s.pc.Reading?
    ensures var s' := WorkStep(s, false);
            s'.ring.writers == [] && s'.ring.log == s.ring.log && Closer(s, s')
  {
    var t, n, m := |s.ring.got|, |s.ring.log|, |s.ring.buf|;
    match s.ring.reader
    case RCopy(_, _, at1, _) => WordEmpty(t, at1, m);
    case RSwap(_, cs, _, at1, _) => if s.ring.raw == cs { WordUnique(t, at1, n, m); }
    case _ =>
  }

  /** With no enqueue in flight the worker, left alone, runs every job and goes to sleep. */
  lemma {:induction false} WorkerDrains<T>(s: Worker<T>) returns (es: seq<Action<T>>, s': Worker<T>)
    requires WorkerOk(s) && s.ring.writers == []
    ensures Leads(s, es, s') && OnlyWork(es) && Drained(s') && s'.ring.log == s.ring.log
    decreases |s.ring.log| - |s.ring.got|, Distance(s)
  {
    if s.sleeping {
      es, s' := [], s;
    } else {
      var a: Action<T> := Work(false);
      var s1 := WorkStep(s, false);
      WorkGoesOn(s);
      NextKeeps(s, a);
      var rest;
      if s1.sleeping {
        rest, s' := [], s1;
      } else {
        rest, s' := WorkerDrains(s1);
      }
      es := [a] + rest;
      LeadsOn(s, a, rest, s');
    }
  }

  /** How far the innermost write is from being done. */
  ghost function WriteDistance<T>(r: State<T>): nat
    requires r.writers != []
  {
    var n := |r.log|;
    match Top(r)
    case Begin(_) => 10
    case Second(_, _, at1) => if at1 == n then 9 else 14
    case Swap(_, _, _, at1, _) => if at1 == n then 8 else 13
    case Copy(_, _, _) => 7
    case Done(_, _, _, _) => 3
  }

  lemma WriteGoesOn<T>(r: State<T>)
    requires Inv(r) && r.writers != [] && !Top(r).Done?
    ensures |WriterStep(r, false).writers| == |r.writers| && WriteDistance(WriterStep(r, false)) < WriteDistance(r)
  {
    var f := Top(r);
    assert FrameOk(r, f);
    if f.Swap? && r.raw == f.cs { WordUnique(|r.got|, f.at1, |r.log|, |r.buf|); }
    if f.Swap? && f.at1 == |r.log| { assert r.raw == f.cs; }
  }

  /** How far the innermost enqueue is from leaving. */
  ghost function EnqueueDistance<T>(s: Worker<T>): nat
    requires s.ring.writers != [] && |s.stages| == |s.ring.writers|
  {
    var stage := s.stages[|s.stages| - 1];
    if !Top(s.ring).Done? then WriteDistance(s.ring) else if stage.Test? then 3 else if stage.Clear? then 2 else 1
  }

  lemma EnqueueGoesOn<T>(s: Worker<T>)
    requires WorkerOk(s) && s.ring.writers != []
    ensures var s' := EnqueueStep(s, false);
            && |s'.stages| == |s'.ring.writers| <= |s.ring.writers|
            && (|s'.ring.writers| == |s.ring.writers| ==> EnqueueDistance(s') < EnqueueDistance(s))
  {
    var f := Top(s.ring);
    if !f.Done? {
      WriteGoesOn(s.ring);
    }
  }

  /** The enqueues in flight, left alone, all return. */
  lemma {:induction false} EnqueuesReturn<T>(s: Worker<T>) returns (es: seq<Action<T>>, s': Worker<T>)
    requires WorkerOk(s)
    ensures Leads(s, es, s') && OnlyEnqueuers(es) && WorkerOk(s') && s'.ring.writers == []
    decreases |s.ring.writers|, if s.ring.writers == [] then 0 else EnqueueDistance(s)
  {
    if s.ring.writers == [] {
      es, s' := [], s;
    } else {
      var a: Action<T> := Enqueuer(false);
      EnqueueGoesOn(s);
      NextKeeps(s, a);
      var rest;
      rest, s' := EnqueuesReturn(Next(s, a));
      es := [a] + rest;
      LeadsOn(s, a, rest, s');
    }
  }

  /**
   From every state of every run, letting the enqueues in flight return and then the worker run ends with
   the worker having run every job whose enqueue succeeded exactly once, in the order of the queue.
   */
  lemma EveryJobRuns<T>(buf: seq<T>, es: seq<Action<T>>) returns (fs: seq<Action<T>>, ws: seq<Action<T>>, s': Worker<T>)
    requires 0 < |buf| <= MAX_ELEMS && LegalActions(NewWorker(buf), es)
    ensures Leads(After(NewWorker(buf), es), fs + ws, s') && OnlyEnqueuers(fs) && OnlyWork(ws)
    ensures Drained(s') && multiset(s'.ring.returned) == multiset(s'.ring.written)
  {
    var s := After(NewWorker(buf), es);
    InitialInv(buf);
    ActionsKeep(NewWorker(buf), es);
    var s1;
    fs, s1 := EnqueuesReturn(s);
    ws, s' := WorkerDrains(s1);
    LeadsOver(s, fs, s1, ws, s');
    ActionsAccounted(NewWorker(buf), es);
    ActionsAccounted(s, fs + ws);
  }
}
