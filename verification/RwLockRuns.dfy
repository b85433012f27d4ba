/** What holds in every state that some run of the read-write lock reaches. */
module RwLockRuns {
  import opened Arith
  import opened RwLock

  predicate Legal(s: State, es: seq<Event>)
    decreases |es|
  {
    es == [] || (Enabled(s, es[0]) && Legal(Step(s, es[0]), es[1..]))
  }

  function RunAll(s: State, es: seq<Event>): State
    requires Legal(s, es)
    decreases |es|
  {
    if es == [] then s else RunAll(Step(s, es[0]), es[1..])
  }

  lemma InitialInv(n: nat, rec: bool)
    ensures Inv(Initial(n, rec))
  {
    SumZero(n);
  }

  lemma {:induction false} RunInv(s: State, es: seq<Event>)
    requires Inv(s) && Legal(s, es)
    ensures Inv(RunAll(s, es))
    decreases |es|
  {
    if es != [] {
      StepInv(s, es[0]);
      RunInv(Step(s, es[0]), es[1..]);
    }
  }

  /** Exclusion in every state of a run. */
  ghost predicate AlwaysExcludes(s: State, es: seq<Event>)
    requires Legal(s, es)
    decreases |es|
  {
    Sizes(s) && Excludes(s) && (es != [] ==> AlwaysExcludes(Step(s, es[0]), es[1..]))
  }

  /** No release of the run finds the 16-bit count at one with more than one level held. */
  ghost predicate NoOverrun(s: State, es: seq<Event>)
    requires Legal(s, es)
    decreases |es|
  {
    es != [] ==> !Overrun(s, es[0]) && NoOverrun(Step(s, es[0]), es[1..])
  }

  lemma InitialNest(n: nat, rec: bool)
    ensures Inv(Initial(n, rec)) && NestOk(Initial(n, rec))
  {
    InitialInv(n, rec);
  }

  lemma {:induction false} RunNest(s: State, es: seq<Event>)
    requires Inv(s) && NestOk(s) && Legal(s, es)
    ensures AlwaysExcludes(s, es) <==> NoOverrun(s, es)
    decreases |es|
  {
    NestExcludes(s);
    if es != [] {
      StepExcludes(s, es[0]);
      if !Overrun(s, es[0]) {
        StepInv(s, es[0]);
        RunNest(Step(s, es[0]), es[1..]);
      }
    }
  }

  /**
   Exclusion, for any number of tasks and any interleaving, stray wake-ups included: it holds throughout a
   run if and only if no release of the run is an overrun.
   */
  lemma RunExcludes(n: nat, rec: bool, es: seq<Event>)
    requires Legal(Initial(n, rec), es)
    ensures AlwaysExcludes(Initial(n, rec), es) <==> NoOverrun(Initial(n, rec), es)
  {
    InitialNest(n, rec);
    RunNest(Initial(n, rec), es);
  }

  /** The lock is not recursive, or no task ever holds more than 65536 levels. */
  ghost predicate Shallow(s: State, es: seq<Event>)
    requires Legal(s, es)
    decreases |es|
  {
    (!s.rec || forall t | 0 <= t < |s.depth| :: s.depth[t] <= RC_LIMIT) && (es != [] ==> Shallow(Step(s, es[0]), es[1..]))
  }

  /** So nesting up to 65536 is safe, although rc is then 0. */
  lemma {:induction false} ShallowRun(s: State, es: seq<Event>)
    requires Inv(s) && NestOk(s) && Legal(s, es) && Shallow(s, es)
    ensures NoOverrun(s, es) && AlwaysExcludes(s, es)
    decreases |es|
  {
    RunNest(s, es);
    if es != [] {
      ShallowStep(s, es[0]);
      StepExcludes(s, es[0]);
      StepInv(s, es[0]);
      ShallowRun(Step(s, es[0]), es[1..]);
    }
  }

  lemma ShallowStep(s: State, e: Event)
    requires Inv(s) && NestOk(s) && Enabled(s, e) && (!s.rec || forall t | 0 <= t < |s.depth| :: s.depth[t] <= RC_LIMIT)
    ensures !Overrun(s, e)
  {
    if e.Run? && s.pc[e.t] == HasMutex(ExDrop) { assert TaskOk(s, e.t) && NestAt(s, e.t); }
  }

  /** While w is set no task becomes a shared holder. */
  lemma WritersFirst(s: State, e: Event, t: nat)
    requires Inv(s) && Enabled(s, e) && s.w && t < |s.pc|
    ensures StepInvSizes(s, e) && Step(s, e).shared[t] <= s.shared[t]
  {
    StepInv(s, e);
    match e
    case Call(_, _) =>
    case Stir(_) =>
    case Run(u) =>
      if s.pc[u].HasMutex? { ActShared(s, u, s.pc[u].at); }
  }

  ghost predicate StepInvSizes(s: State, e: Event)
    requires Enabled(s, e)
  {
    Sizes(Step(s, e)) && |Step(s, e).pc| == |s.pc|
  }

  lemma ActShared(s: State, t: nat, k: Point)
    requires Inv(s) && t < |s.pc| && s.pc[t] == HasMutex(k)
    ensures k.ShTest? && !s.w ==> Act(s, t, k).shared == s.shared[t := s.shared[t] + 1]
    ensures k.ShDrop? ==> s.shared[t] > 0 && Act(s, t, k).shared == s.shared[t := s.shared[t] - 1]
    ensures !(k.ShTest? && !s.w) && !k.ShDrop? ==> Act(s, t, k).shared == s.shared
  {
    assert TaskOk(s, t);
    if k.ExDrop? {
      var s1 := ExclusiveLess(s, t);
      SignalEachShared(s1.(exOwner := None, w := false), s.condList);
    }
  }

  lemma {:induction false} SignalEachShared(s: State, l: seq<nat>)
    ensures SignalEach(s, l).shared == s.shared
    decreases |l|
  {
    if l != [] { SignalEachShared(Signal(s, l[0]), l[1..]); }
  }

  // ------------------------------------------------------- no stranding

  /** The pending writer sleeps only at the head of the list and only while there are readers. */
  ghost predicate WriterOk(s: State, p: nat)
    requires p < |s.pc|
  {
    match s.pc[p]
    case OnCond(_) => s.r > 0 && s.condList != [] && s.condList[0] == p
    case OnMutex(_) => s.r == 0
    case Woken(_) => s.r == 0
    case HasMutex(_) => s.r == 0 || s.condList == []
    case _ => true
  }

  ghost predicate Calm(s: State) {
    && (forall t | 0 <= t < |s.pc| :: !s.pc[t].Stray?)
    && (!s.w ==> s.condList == [])
    && (s.pending.Some? && s.pending.value < |s.pc| ==> WriterOk(s, s.pending.value))
  }

  lemma LockCalm(s: State, t: nat, k: Point)
    requires Calm(s) && t < |s.pc| && (s.pending == Some(t) ==> s.pc[t].Woken?)
    ensures Calm(Lock(s, t, k))
  {
    var s' := Lock(s, t, k);
    assert s'.pc[t].HasMutex? || s'.pc[t].OnMutex?;
    assert forall u | 0 <= u < |s.pc| && u != t :: s'.pc[u] == s.pc[u];
  }

  lemma UnlockCalm(s: State, t: nat)
    requires Leaving(s, t) && Calm(s)
    ensures Calm(Unlock(s))
  {
  }

  lemma WaitCalm(s: State, t: nat, k: Point)
    requires Inv(s) && Calm(s) && t < |s.pc| && s.pc[t] == HasMutex(k) && s.w && (k.ExReaders? ==> s.r > 0)
    ensures Calm(Wait(s, t, k))
  {
    assert TaskOk(s, t);
    var s1 := At(s, t, OnCond(k)).(condList := s.condList + [t]);
    assert Leaving(s1, t);
    UnlockCalm(s1, t);
  }

  lemma SharedDropCalm(s: State, t: nat)
    requires Inv(s) && Calm(s) && t < |s.pc| && s.pc[t] == HasMutex(ShDrop)
    ensures Calm(Act(s, t, ShDrop))
  {
    assert TaskOk(s, t);
    SumAtLeast(s.shared, t);
    if s.condList != [] {
      var h := s.condList[0];
      assert h in s.condList;
      DropRemoves(s.condList, h);
    }
  }

  lemma {:induction false} SignalEachCalm(s: State, l: seq<nat>)
    requires CondOk(s) && MutexOk(s) && s.condList == l && (forall t | 0 <= t < |s.pc| :: !s.pc[t].Stray?)
    ensures var s' := SignalEach(s, l);
            s'.condList == [] && (forall t | 0 <= t < |s'.pc| :: !s'.pc[t].Stray?) && s'.w == s.w && s'.pending == s.pending
    decreases |l|
  {
    if l != [] {
      assert l[0] in l;
      SignalKeeps(s, l[0]);
      SignalEachCalm(Signal(s, l[0]), l[1..]);
    }
  }

  lemma ExclusiveDropCalm(s: State, t: nat)
    requires Inv(s) && Calm(s) && t < |s.pc| && s.pc[t] == HasMutex(ExDrop)
    ensures Calm(Act(s, t, ExDrop))
  {
    assert TaskOk(s, t);
    MoveKeeps(s, t, Release);
    var s1 := ExclusiveLess(s, t);
    if !(s.rec && s1.rc > 0) { SignalEachCalm(s1.(exOwner := None, w := false), s.condList); }
  }

  lemma ActCalm(s: State, t: nat, k: Point)
    requires Inv(s) && Calm(s) && t < |s.pc| && s.pc[t] == HasMutex(k)
    ensures Calm(Act(s, t, k))
  {
    assert TaskOk(s, t);
    match k
    case ShTest => if s.w { WaitCalm(s, t, k); }
    case ShDrop => SharedDropCalm(s, t);
    case ExEntry =>
    case ExTest => if s.w { WaitCalm(s, t, k); }
    case ExReaders => if s.r > 0 { WaitCalm(s, t, k); }
    case ExDrop => ExclusiveDropCalm(s, t);
    case Release => UnlockCalm(At(s, t, Out), t);
  }

  lemma StepCalm(s: State, e: Event)
    requires Inv(s) && Calm(s) && Enabled(s, e) && !e.Stir?
    ensures Calm(Step(s, e))
  {
    match e
    case Call(t, op) =>
      assert TaskOk(s, t);
      LockCalm(s, t, Entry(op));
    case Run(t) =>
      if s.pc[t].HasMutex? {
        ActCalm(s, t, s.pc[t].at);
      } else {
        LockCalm(s, t, s.pc[t].at);
      }
  }

  lemma {:induction false} RunCalm(s: State, es: seq<Event>)
    requires Inv(s) && Calm(s) && Legal(s, es) && (forall e | e in es :: !e.Stir?)
    ensures Inv(RunAll(s, es)) && Calm(RunAll(s, es))
    decreases |es|
  {
    if es != [] {
      StepInv(s, es[0]);
      StepCalm(s, es[0]);
      RunCalm(Step(s, es[0]), es[1..]);
    }
  }

  ghost predicate Sleeps(s: State, t: nat) { t < |s.pc| && (s.pc[t].OnMutex? || s.pc[t].OnCond?) }

  /** No task can move by itself. */
  ghost predicate Still(s: State) { forall t | 0 <= t < |s.pc| :: !(s.pc[t].HasMutex? || s.pc[t].Woken? || s.pc[t].Stray?) }

  /** Someone has the lock. */
  ghost predicate Held(s: State) { s.exOwner.Some? || s.r > 0 }

  lemma StillHeld(s: State, t: nat)
    requires Inv(s) && Calm(s) && Still(s) && Sleeps(s, t)
    ensures Held(s)
  {
    assert TaskOk(s, t);
    if s.pending.Some? { assert TaskOk(s, s.pending.value); }
  }

  /**
   Without stray wake-ups nobody is stranded: tasks sleep on the condition only while w is set; a pending
   writer that does not hold the mutex sleeps first in line while there are readers and is awake once there
   are none; and when everyone who is inside an operation sleeps, some task still has the lock to release.
   */
  lemma NeverStranded(n: nat, rec: bool, es: seq<Event>, t: nat)
    requires Legal(Initial(n, rec), es) && (forall e | e in es :: !e.Stir?) && t < n
    ensures var s := RunAll(Initial(n, rec), es);
            && |s.pc| == n
            && (s.pc[t].OnCond? ==> s.w)
            && (s.w && s.exOwner.None? ==> s.pending.Some? && s.pending.value < n)
            && (s.pending == Some(t) && !s.pc[t].HasMutex? ==>
                  if s.r > 0 then s.pc[t].OnCond? && [t] <= s.condList else s.pc[t].Woken? || s.pc[t].OnMutex?)
            && (Still(s) && Sleeps(s, t) ==> Held(s))
  {
    InitialInv(n, rec);
    RunCalm(Initial(n, rec), es);
    RunTasks(Initial(n, rec), es);
    var s := RunAll(Initial(n, rec), es);
    assert TaskOk(s, t);
    if Still(s) && Sleeps(s, t) { StillHeld(s, t); }
  }

  lemma {:induction false} RunTasks(s: State, es: seq<Event>)
    requires Inv(s) && Legal(s, es)
    ensures |RunAll(s, es).pc| == |s.pc|
    decreases |es|
  {
    if es != [] {
      StepInv(s, es[0]);
      RunTasks(Step(s, es[0]), es[1..]);
    }
  }

  // ------------------------------------------------ with stray wake-ups

  /** Nobody sleeps on the condition while w is clear. */
  ghost predicate NoneAsleep(s: State) { !s.w ==> forall t | 0 <= t < |s.pc| :: !s.pc[t].OnCond? }

  lemma {:induction false} SignalEachWakes(s: State, l: seq<nat>, t: nat)
    requires t < |s.pc|
    ensures var s' := SignalEach(s, l); |s'.pc| == |s.pc| && (s'.pc[t].OnCond? ==> s.pc[t].OnCond? && t !in l)
    decreases |l|
  {
    if l != [] { SignalEachWakes(Signal(s, l[0]), l[1..], t); }
  }

  lemma ExclusiveDropWakes(s: State, t: nat)
    requires Inv(s) && t < |s.pc| && s.pc[t] == HasMutex(ExDrop)
    ensures NoneAsleep(Act(s, t, ExDrop))
  {
    assert TaskOk(s, t);
    var s1 := ExclusiveLess(s, t);
    var s2 := s1.(exOwner := None, w := false);
    if !(s.rec && s1.rc > 0) {
      forall u | 0 <= u < |s.pc| ensures |SignalAll(s2).pc| == |s.pc| && !SignalAll(s2).pc[u].OnCond? { SignalEachWakes(s2, s.condList, u); }
      SignalEachWakes(s2, s.condList, t);
    }
  }

  lemma ActAsleep(s: State, t: nat, k: Point)
    requires Inv(s) && NoneAsleep(s) && t < |s.pc| && s.pc[t] == HasMutex(k)
    ensures NoneAsleep(Act(s, t, k))
  {
    assert TaskOk(s, t);
    match k
    case ShTest =>
    case ShDrop =>
    case ExEntry =>
    case ExTest =>
    case ExReaders =>
    case ExDrop => ExclusiveDropWakes(s, t);
    case Release =>
  }

  lemma StepAsleep(s: State, e: Event)
    requires Inv(s) && NoneAsleep(s) && Enabled(s, e)
    ensures NoneAsleep(Step(s, e))
  {
    if e.Run? && s.pc[e.t].HasMutex? { ActAsleep(s, e.t, s.pc[e.t].at); }
  }

  lemma {:induction false} RunAsleep(s: State, es: seq<Event>)
    requires Inv(s) && NoneAsleep(s) && Legal(s, es)
    ensures Inv(RunAll(s, es)) && NoneAsleep(RunAll(s, es))
    decreases |es|
  {
    if es != [] {
      StepInv(s, es[0]);
      StepAsleep(s, es[0]);
      RunAsleep(Step(s, es[0]), es[1..]);
    }
  }

  /** The pending writer sleeps although no reader is left. */
  ghost predicate Missed(s: State) {
    s.pending.Some? && s.pending.value < |s.pc| && s.pc[s.pending.value].OnCond? && s.r == 0
  }

  /** The last reader releases while the pending writer sleeps, but not first in line. */
  ghost predicate MissingRelease(s: State, e: Event)
    requires Enabled(s, e)
  {
    && e.Run? && s.pc[e.t] == HasMutex(ShDrop) && s.r == 1
    && s.pending.Some? && s.pending.value < |s.pc| && s.pc[s.pending.value].OnCond?
    && !([s.pending.value] <= s.condList)
  }

  lemma ReleaseMisses(s: State, t: nat)
    requires Inv(s) && !Missed(s) && t < |s.pc| && s.pc[t] == HasMutex(ShDrop)
    ensures Enabled(s, Run(t)) && (Missed(Act(s, t, ShDrop)) <==> MissingRelease(s, Run(t)))
  {
    assert TaskOk(s, t);
    if s.pending.Some? { assert TaskOk(s, s.pending.value); }
  }

  lemma ExclusiveDropPending(s: State, t: nat)
    requires Inv(s) && t < |s.pc| && s.pc[t] == HasMutex(ExDrop)
    ensures s.pending.None? && Act(s, t, ExDrop).pending.None?
  {
    assert TaskOk(s, t);
    MoveKeeps(s, t, Release);
    var s1 := ExclusiveLess(s, t);
    if !(s.rec && s1.rc > 0) { SignalEachKeeps(s1.(exOwner := None, w := false), s.condList); }
  }

  lemma ActMisses(s: State, t: nat, k: Point)
    requires Inv(s) && !Missed(s) && t < |s.pc| && s.pc[t] == HasMutex(k)
    ensures Enabled(s, Run(t)) && (Missed(Act(s, t, k)) <==> MissingRelease(s, Run(t)))
  {
    assert TaskOk(s, t);
    if s.pending.Some? { assert TaskOk(s, s.pending.value); }
    match k
    case ShTest =>
    case ShDrop => ReleaseMisses(s, t);
    case ExEntry =>
    case ExTest =>
    case ExReaders =>
    case ExDrop => ExclusiveDropPending(s, t);
    case Release =>
  }

  /** A step makes the pending writer miss its wake-up exactly when it is such a release. */
  lemma StepMisses(s: State, e: Event)
    requires Inv(s) && !Missed(s) && Enabled(s, e)
    ensures Missed(Step(s, e)) <==> MissingRelease(s, e)
  {
    if s.pending.Some? { assert TaskOk(s, s.pending.value); }
    if e.Run? && s.pc[e.t].HasMutex? { ActMisses(s, e.t, s.pc[e.t].at); }
  }

  lemma ActStaysMissed(s: State, t: nat, k: Point)
    requires Inv(s) && Missed(s) && t < |s.pc| && s.pc[t] == HasMutex(k)
    ensures Missed(Act(s, t, k)) && Act(s, t, k).pending == s.pending
  {
    assert TaskOk(s, t) && TaskOk(s, s.pending.value);
    SumAtLeast(s.shared, t);
    match k
    case ShTest =>
    case ShDrop =>
    case ExEntry =>
    case ExTest =>
    case ExReaders =>
    case ExDrop => ExclusiveDropPending(s, t);
    case Release =>
  }

  /** Nothing ends that state but another stray wake-up of the same writer. */
  lemma StepStaysMissed(s: State, e: Event)
    requires Inv(s) && Missed(s) && Enabled(s, e)
    ensures Missed(Step(s, e)) <==> !Repairs(s, e)
  {
    assert TaskOk(s, s.pending.value);
    if e.Run? && s.pc[e.t].HasMutex? { ActStaysMissed(s, e.t, s.pc[e.t].at); }
  }

  predicate Repairs(s: State, e: Event) { e.Stir? && s.pending == Some(e.t) }

  /** Follows the guards of a run: was there a missing release, not repaired since? */
  ghost predicate EndsMissed(s: State, es: seq<Event>, missed: bool)
    requires Legal(s, es)
    decreases |es|
  {
    if es == [] then missed
    else EndsMissed(Step(s, es[0]), es[1..], if missed then !Repairs(s, es[0]) else MissingRelease(s, es[0]))
  }

  lemma {:induction false} RunMissed(s: State, es: seq<Event>)
    requires Inv(s) && Legal(s, es)
    ensures Missed(RunAll(s, es)) <==> EndsMissed(s, es, Missed(s))
    decreases |es|
  {
    if es != [] {
      StepInv(s, es[0]);
      if Missed(s) { StepStaysMissed(s, es[0]); } else { StepMisses(s, es[0]); }
      RunMissed(Step(s, es[0]), es[1..]);
    }
  }

  lemma StillMissed(s: State, t: nat)
    requires Inv(s) && NoneAsleep(s) && Still(s) && Sleeps(s, t)
    ensures !Held(s) <==> Missed(s)
  {
    assert s.r == Sum(s.shared);
    if s.pending.Some? { assert TaskOk(s, s.pending.value); }
  }

  /**
   With stray wake-ups, when nobody can move and someone sleeps, the lock is free if and only if the run
   had a last-reader release with the pending writer asleep behind someone else, not repaired since.
   */
  lemma StuckIffReleaseMissed(n: nat, rec: bool, es: seq<Event>, t: nat)
    requires Legal(Initial(n, rec), es)
    ensures var s := RunAll(Initial(n, rec), es);
            Still(s) && Sleeps(s, t) ==> (!Held(s) <==> EndsMissed(Initial(n, rec), es, false))
  {
    InitialInv(n, rec);
    RunAsleep(Initial(n, rec), es);
    RunMissed(Initial(n, rec), es);
    var s := RunAll(Initial(n, rec), es);
    if Still(s) && Sleeps(s, t) { StillMissed(s, t); }
  }

  ghost predicate Follows(s: State, es: seq<Event>, s': State) { Legal(s, es) && RunAll(s, es) == s' }

  lemma {:induction false} Then(s: State, es: seq<Event>, s1: State, e: Event)
    requires Follows(s, es, s1) && Enabled(s1, e)
    ensures Follows(s, es + [e], Step(s1, e))
    decreases |es|
  {
    if es == [] {
      assert [] + [e] == [e];
    } else {
      assert (es + [e])[1..] == es[1..] + [e];
      Then(Step(s, es[0]), es[1..], s1, e);
    }
  }

  lemma {:induction false} ThenAll(s: State, xs: seq<Event>, s1: State, ys: seq<Event>, s2: State)
    requires Follows(s, xs, s1) && Follows(s1, ys, s2)
    ensures Follows(s, xs + ys, s2)
    decreases |xs|
  {
    if xs == [] {
      assert xs + ys == ys;
    } else {
      assert (xs + ys)[1..] == xs[1..] + ys;
      ThenAll(Step(s, xs[0]), xs[1..], s1, ys, s2);
    }
  }

  function Three(r: int, w: bool, mutex: Option<nat>, condList: seq<nat>, p0: Pc, p1: Pc, p2: Pc): State {
    State(false, r, w, 0, None, mutex, [], condList, [p0, p1, p2], [if r > 0 then r else 0, 0, 0], [0, 0, 0], if w then Some(1) else None)
  }

  /** Task 0 gets the lock shared. */
  lemma ReaderEnters()
    ensures Follows(Three(0, false, None, [], Out, Out, Out),
                    [Call(0, ShLock), Run(0), Run(0)],
                    Three(1, false, None, [], Out, Out, Out))
  {
    var s0, s1, s2 := Three(0, false, None, [], Out, Out, Out), Three(0, false, Some(0), [], HasMutex(ShTest), Out, Out), Three(1, false, Some(0), [], HasMutex(Release), Out, Out);
    assert Step(s0, Call(0, ShLock)) == s1;
    assert Step(s1, Run(0)) == s2;
    assert Step(s2, Run(0)) == Three(1, false, None, [], Out, Out, Out);
    Then(s0, [], s0, Call(0, ShLock));
    Then(s0, [Call(0, ShLock)], s1, Run(0));
    Then(s0, [Call(0, ShLock), Run(0)], s2, Run(0));
  }

  /** Task 1 sets w. */
  lemma WriterArrives()
    ensures Follows(Three(1, false, None, [], Out, Out, Out),
                    [Call(1, ExLock), Run(1), Run(1)],
                    Three(1, true, Some(1), [], Out, HasMutex(ExReaders), Out))
  {
    var s0, s1, s2 := Three(1, false, None, [], Out, Out, Out), Three(1, false, Some(1), [], Out, HasMutex(ExEntry), Out), Three(1, false, Some(1), [], Out, HasMutex(ExTest), Out);
    assert Step(s0, Call(1, ExLock)) == s1;
    assert Step(s1, Run(1)) == s2;
    assert Step(s2, Run(1)) == Three(1, true, Some(1), [], Out, HasMutex(ExReaders), Out);
    Then(s0, [], s0, Call(1, ExLock));
    Then(s0, [Call(1, ExLock)], s1, Run(1));
    Then(s0, [Call(1, ExLock), Run(1)], s2, Run(1));
  }

  /** Task 1 sleeps behind the reader, task 2 behind task 1. */
  lemma WriterSleeps()
    ensures Follows(Three(1, true, Some(1), [], Out, HasMutex(ExReaders), Out),
                    [Run(1), Call(2, ShLock), Run(2)],
                    Three(1, true, None, [1, 2], Out, OnCond(ExReaders), OnCond(ShTest)))
  {
    var s0, s1, s2 := Three(1, true, Some(1), [], Out, HasMutex(ExReaders), Out), Three(1, true, None, [1], Out, OnCond(ExReaders), Out), Three(1, true, Some(2), [1], Out, OnCond(ExReaders), HasMutex(ShTest));
    assert Step(s0, Run(1)) == s1;
    assert Step(s1, Call(2, ShLock)) == s2;
    assert Step(s2, Run(2)) == Three(1, true, None, [1, 2], Out, OnCond(ExReaders), OnCond(ShTest));
    Then(s0, [], s0, Run(1));
    Then(s0, [Run(1)], s1, Call(2, ShLock));
    Then(s0, [Run(1), Call(2, ShLock)], s2, Run(2));
  }

  /** Task 1 is woken by something else and leaves the list. */
  lemma WriterStrays()
    ensures Follows(Three(1, true, None, [1, 2], Out, OnCond(ExReaders), OnCond(ShTest)),
                    [Stir(1), Run(1), Run(1)],
                    Three(1, true, Some(1), [2], Out, HasMutex(ExReaders), OnCond(ShTest)))
  {
    var s0, s1, s2 := Three(1, true, None, [1, 2], Out, OnCond(ExReaders), OnCond(ShTest)), Three(1, true, None, [1, 2], Out, Stray(ExReaders), OnCond(ShTest)), Three(1, true, None, [2], Out, Woken(ExReaders), OnCond(ShTest));
    assert Step(s0, Stir(1)) == s1;
    assert Step(s1, Run(1)) == s2;
    assert Step(s2, Run(1)) == Three(1, true, Some(1), [2], Out, HasMutex(ExReaders), OnCond(ShTest));
    Then(s0, [], s0, Stir(1));
    Then(s0, [Stir(1)], s1, Run(1));
    Then(s0, [Stir(1), Run(1)], s2, Run(1));
  }

  /** Task 1 queues again, now last; task 0 leaves and signals task 2. */
  lemma WriterRequeues()
    ensures Follows(Three(1, true, Some(1), [2], Out, HasMutex(ExReaders), OnCond(ShTest)),
                    [Run(1), Call(0, ShUnlock), Run(0)],
                    Three(0, true, Some(0), [1], HasMutex(Release), OnCond(ExReaders), Woken(ShTest)))
  {
    var s0, s1, s2 := Three(1, true, Some(1), [2], Out, HasMutex(ExReaders), OnCond(ShTest)), Three(1, true, None, [2, 1], Out, OnCond(ExReaders), OnCond(ShTest)), Three(1, true, Some(0), [2, 1], HasMutex(ShDrop), OnCond(ExReaders), OnCond(ShTest));
    assert Step(s0, Run(1)) == s1;
    assert Step(s1, Call(0, ShUnlock)) == s2;
    assert Step(s2, Run(0)) == Three(0, true, Some(0), [1], HasMutex(Release), OnCond(ExReaders), Woken(ShTest));
    Then(s0, [], s0, Run(1));
    Then(s0, [Run(1)], s1, Call(0, ShUnlock));
    Then(s0, [Run(1), Call(0, ShUnlock)], s2, Run(0));
  }

  /** Task 2 finds w still set and sleeps again. */
  lemma SignalMissed()
    ensures Follows(Three(0, true, Some(0), [1], HasMutex(Release), OnCond(ExReaders), Woken(ShTest)),
                    [Run(0), Run(2), Run(2)],
                    Three(0, true, None, [1, 2], Out, OnCond(ExReaders), OnCond(ShTest)))
  {
    var s0, s1, s2 := Three(0, true, Some(0), [1], HasMutex(Release), OnCond(ExReaders), Woken(ShTest)), Three(0, true, None, [1], Out, OnCond(ExReaders), Woken(ShTest)), Three(0, true, Some(2), [1], Out, OnCond(ExReaders), HasMutex(ShTest));
    assert Step(s0, Run(0)) == s1;
    assert Step(s1, Run(2)) == s2;
    assert Step(s2, Run(2)) == Three(0, true, None, [1, 2], Out, OnCond(ExReaders), OnCond(ShTest));
    Then(s0, [], s0, Run(0));
    Then(s0, [Run(0)], s1, Run(2));
    Then(s0, [Run(0), Run(2)], s2, Run(2));
  }

  /** A run after which the lock is free, nobody can move, and tasks 1 and 2 sleep. */
  lemma StrayStrands() returns (es: seq<Event>, s: State)
    ensures Follows(Initial(3, false), es, s) && Still(s) && Sleeps(s, 1) && Sleeps(s, 2) && !Held(s)
  {
    es := StrayRun();
    s := Three(0, true, None, [1, 2], Out, OnCond(ExReaders), OnCond(ShTest));
    InitialThree();
  }

  lemma InitialThree()
    ensures Initial(3, false) == Three(0, false, None, [], Out, Out, Out)
  {
    var s, s' := Initial(3, false), Three(0, false, None, [], Out, Out, Out);
    assert s.pc == s'.pc && s.shared == s'.shared && s.depth == s'.depth;
  }

  /** Task 0 reads, task 1 wants to write, task 2 wants to read; a stray wake-up moves the writer behind task 2. */
  lemma StrayRun() returns (es: seq<Event>)
    ensures Follows(Three(0, false, None, [], Out, Out, Out), es,
                    Three(0, true, None, [1, 2], Out, OnCond(ExReaders), OnCond(ShTest)))
  {
    ReaderEnters();
    WriterArrives();
    WriterSleeps();
    WriterStrays();
    WriterRequeues();
    SignalMissed();
    Chain(Three(0, false, None, [], Out, Out, Out), [Call(0, ShLock), Run(0), Run(0)],
          Three(1, false, None, [], Out, Out, Out), [Call(1, ExLock), Run(1), Run(1)],
          Three(1, true, Some(1), [], Out, HasMutex(ExReaders), Out), [Run(1), Call(2, ShLock), Run(2)],
          Three(1, true, None, [1, 2], Out, OnCond(ExReaders), OnCond(ShTest)), [Stir(1), Run(1), Run(1)],
          Three(1, true, Some(1), [2], Out, HasMutex(ExReaders), OnCond(ShTest)), [Run(1), Call(0, ShUnlock), Run(0)],
          Three(0, true, Some(0), [1], HasMutex(Release), OnCond(ExReaders), Woken(ShTest)), [Run(0), Run(2), Run(2)],
          Three(0, true, None, [1, 2], Out, OnCond(ExReaders), OnCond(ShTest)));
    es := [Call(0, ShLock), Run(0), Run(0)] + [Call(1, ExLock), Run(1), Run(1)] + [Run(1), Call(2, ShLock), Run(2)] + [Stir(1), Run(1), Run(1)] + [Run(1), Call(0, ShUnlock), Run(0)] + [Run(0), Run(2), Run(2)];
  }

  lemma Chain(s0: State, a: seq<Event>, s1: State, b: seq<Event>, s2: State, c: seq<Event>, s3: State,
              d: seq<Event>, s4: State, e: seq<Event>, s5: State, f: seq<Event>, s6: State)
    requires Follows(s0, a, s1) && Follows(s1, b, s2) && Follows(s2, c, s3)
    requires Follows(s3, d, s4) && Follows(s4, e, s5) && Follows(s5, f, s6)
    ensures Follows(s0, a + b + c + d + e + f, s6)
  {
    ThenAll(s0, a, s1, b, s2);
    ThenAll(s0, a + b, s2, c, s3);
    ThenAll(s0, a + b + c, s3, d, s4);
    ThenAll(s0, a + b + c + d, s4, e, s5);
    ThenAll(s0, a + b + c + d + e, s5, f, s6);
  }

  // ------------------------------------------------------- too deep nesting

  /** A recursive lock of two tasks: who owns it, where they are and how deep they hold it. */
  function Two(owner: Option<nat>, rc: nat, mutex: Option<nat>, p0: Pc, p1: Pc, d0: nat, d1: nat): State {
    State(true, 0, owner.Some?, rc, owner, mutex, [], [], [p0, p1], [0, 0], [d0, d1], None)
  }

  lemma Follow3(s: State, a: Event, s1: State, b: Event, s2: State, c: Event)
    requires Enabled(s, a) && Step(s, a) == s1 && Enabled(s1, b) && Step(s1, b) == s2 && Enabled(s2, c)
    ensures Follows(s, [a, b, c], Step(s2, c))
  {
    assert [] + [a] == [a] && [a] + [b] == [a, b] && [a, b] + [c] == [a, b, c];
    Then(s, [], s, a);
    Then(s, [a], s1, b);
    Then(s, [a, b], s2, c);
  }

  lemma Follow5(s: State, a: Event, s1: State, b: Event, s2: State, c: Event, s3: State, d: Event, s4: State, e: Event)
    requires Enabled(s, a) && Step(s, a) == s1 && Enabled(s1, b) && Step(s1, b) == s2 && Enabled(s2, c) && Step(s2, c) == s3
    requires Enabled(s3, d) && Step(s3, d) == s4 && Enabled(s4, e)
    ensures Follows(s, [a, b, c, d, e], Step(s4, e))
  {
    assert [a, b, c] + [d] == [a, b, c, d] && [a, b, c, d] + [e] == [a, b, c, d, e];
    Follow3(s, a, s1, b, s2, c);
    Then(s, [a, b, c], s3, d);
    Then(s, [a, b, c, d], s4, e);
  }

  lemma InitialTwo()
    ensures Initial(2, true) == Two(None, 0, None, Out, Out, 0, 0)
  {
    var s, z := Initial(2, true), Two(None, 0, None, Out, Out, 0, 0);
    assert s.pc == z.pc && s.shared == z.shared && s.depth == z.depth;
  }

  lemma FirstLock()
    ensures Follows(Initial(2, true), [Call(0, ExLock), Run(0), Run(0), Run(0), Run(0)], Two(Some(0), 1, None, Out, Out, 1, 0))
  {
    InitialTwo();
    var z := Two(None, 0, None, Out, Out, 0, 0);
    var s1 := Two(None, 0, Some(0), HasMutex(ExEntry), Out, 0, 0);
    var s2 := Two(None, 0, Some(0), HasMutex(ExTest), Out, 0, 0);
    var s3 := s2.(w := true, pending := Some(0), pc := [HasMutex(ExReaders), Out]);
    var s4 := Two(Some(0), 1, Some(0), HasMutex(Release), Out, 1, 0);
    assert Step(z, Call(0, ExLock)) == s1 && Step(s1, Run(0)) == s2;
    assert Step(s2, Run(0)) == s3 && Step(s3, Run(0)) == s4;
    assert Step(s4, Run(0)) == Two(Some(0), 1, None, Out, Out, 1, 0);
    Follow5(z, Call(0, ExLock), s1, Run(0), s2, Run(0), s3, Run(0), s4, Run(0));
  }

  /** The owner locks once more. */
  lemma LockAgain(k: nat)
    requires k > 0
    ensures Follows(Two(Some(0), k % RC_LIMIT, None, Out, Out, k, 0), [Call(0, ExLock), Run(0), Run(0)],
                    Two(Some(0), (k + 1) % RC_LIMIT, None, Out, Out, k + 1, 0))
  {
    var s := Two(Some(0), k % RC_LIMIT, None, Out, Out, k, 0);
    var s1 := Two(Some(0), k % RC_LIMIT, Some(0), HasMutex(ExEntry), Out, k, 0);
    var s2 := Two(Some(0), (k + 1) % RC_LIMIT, Some(0), HasMutex(Release), Out, k + 1, 0);
    RcSteps(k);
    assert Step(s, Call(0, ExLock)) == s1 && Step(s1, Run(0)) == s2;
    assert Step(s2, Run(0)) == Two(Some(0), (k + 1) % RC_LIMIT, None, Out, Out, k + 1, 0);
    Follow3(s, Call(0, ExLock), s1, Run(0), s2, Run(0));
  }

  lemma {:induction false} LockDeep(k: nat) returns (es: seq<Event>)
    requires k > 0
    ensures Follows(Initial(2, true), es, Two(Some(0), k % RC_LIMIT, None, Out, Out, k, 0))
    decreases k
  {
    if k == 1 {
      FirstLock();
      es := [Call(0, ExLock), Run(0), Run(0), Run(0), Run(0)];
    } else {
      var front := LockDeep(k - 1);
      var j := k - 1;
      LockAgain(j);
      var s1, s2 := Two(Some(0), j % RC_LIMIT, None, Out, Out, j, 0), Two(Some(0), k % RC_LIMIT, None, Out, Out, k, 0);
      var again := [Call(0, ExLock), Run(0), Run(0)];
      ThenAll(Initial(2, true), front, s1, again, s2);
      es := front + again;
    }
  }

  /** One release at count one drops the lock, whatever the depth. */
  lemma ReleaseAtOne(k: nat) returns (es: seq<Event>)
    requires k > 0
    ensures Follows(Two(Some(0), 1, None, Out, Out, k, 0), es, Two(None, 0, None, Out, Out, k - 1, 0))
  {
    var s := Two(Some(0), 1, None, Out, Out, k, 0);
    var s1 := Two(Some(0), 1, Some(0), HasMutex(ExDrop), Out, k, 0);
    var s2 := Two(None, 0, Some(0), HasMutex(Release), Out, k - 1, 0);
    assert Step(s, Call(0, ExUnlock)) == s1 && Step(s1, Run(0)) == s2;
    assert Step(s2, Run(0)) == Two(None, 0, None, Out, Out, k - 1, 0);
    Follow3(s, Call(0, ExUnlock), s1, Run(0), s2, Run(0));
    es := [Call(0, ExUnlock), Run(0), Run(0)];
  }

  lemma OtherLocks(k: nat) returns (es: seq<Event>)
    ensures Follows(Two(None, 0, None, Out, Out, k, 0), es, Two(Some(1), 1, None, Out, Out, k, 1))
  {
    var s := Two(None, 0, None, Out, Out, k, 0);
    var s1 := Two(None, 0, Some(1), Out, HasMutex(ExEntry), k, 0);
    var s2 := Two(None, 0, Some(1), Out, HasMutex(ExTest), k, 0);
    var s3 := s2.(w := true, pending := Some(1), pc := [Out, HasMutex(ExReaders)]);
    var s4 := Two(Some(1), 1, Some(1), Out, HasMutex(Release), k, 1);
    assert Step(s, Call(1, ExLock)) == s1 && Step(s1, Run(1)) == s2;
    assert Step(s2, Run(1)) == s3 && Step(s3, Run(1)) == s4;
    assert Step(s4, Run(1)) == Two(Some(1), 1, None, Out, Out, k, 1);
    Follow5(s, Call(1, ExLock), s1, Run(1), s2, Run(1), s3, Run(1), s4, Run(1));
    es := [Call(1, ExLock), Run(1), Run(1), Run(1), Run(1)];
  }

  lemma Chain3(s0: State, a: seq<Event>, s1: State, b: seq<Event>, s2: State, c: seq<Event>, s3: State)
    requires Follows(s0, a, s1) && Follows(s1, b, s2) && Follows(s2, c, s3)
    ensures Follows(s0, a + b + c, s3)
  {
    ThenAll(s0, a, s1, b, s2);
    ThenAll(s0, a + b, s2, c, s3);
  }

  /** k nested locks that leave the count at one, and one unlock, by task 0; then a lock by task 1. */
  lemma DropAndShare(k: nat) returns (es: seq<Event>)
    requires k > 0 && k % RC_LIMIT == 1
    ensures Follows(Initial(2, true), es, Two(Some(1), 1, None, Out, Out, k - 1, 1))
  {
    var deep := LockDeep(k);
    var drop := ReleaseAtOne(k);
    var other := OtherLocks(k - 1);
    Chain3(Initial(2, true), deep, Two(Some(0), 1, None, Out, Out, k, 0), drop, Two(None, 0, None, Out, Out, k - 1, 0), other,
           Two(Some(1), 1, None, Out, Out, k - 1, 1));
    es := deep + drop + other;
  }

  /** With 65537 nested locks, both tasks then hold the lock exclusively. */
  lemma DeepNestingBreaks() returns (es: seq<Event>, s: State)
    ensures Follows(Initial(2, true), es, s) && s.depth == [RC_LIMIT, 1] && Sizes(s) && !Excludes(s)
  {
    var k := RC_LIMIT + 1;
    es := DropAndShare(k);
    s := Two(Some(1), 1, None, Out, Out, k - 1, 1);
    assert s.depth[0] > 0 && s.depth[1] > 0;
  }
}
