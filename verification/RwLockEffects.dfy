/**
 What the operations of the read-write lock do for the tasks that call them: the inner mutex is handed over
 in the order of arrival, a task waits exactly while another one bars its way, and every operation has its
 effect exactly once.
 */
module RwLockEffects {
  import opened Arith
  import opened RwLock
  import opened RwLockRuns

  // ------------------------------------------------ order of the inner mutex

  /** The task that starts to wait for the inner mutex, if one does. */
  function Joined(s: State, e: Event, s': State): seq<nat> {
    if e.t < |s.pc| && e.t < |s'.pc| && !s.pc[e.t].OnMutex? && s'.pc[e.t].OnMutex? then [e.t] else []
  }

  /** The task that is handed the inner mutex by its owner, if one is. */
  function Handed(s: State, s': State): seq<nat> {
    if s.mutex.Some? && s'.mutex.Some? && s'.mutex != s.mutex then [s'.mutex.value] else []
  }

  /** What is handed over leaves the head of the queue; who joins goes to its end. */
  ghost predicate Queues(s: State, e: Event, s': State) {
    Handed(s, s') + s'.mutexList == s.mutexList + Joined(s, e, s')
  }

  lemma LeavingQueues(s: State, t: nat, p: Pc, l: seq<nat>)
    requires Inv(s) && t < |s.pc| && s.pc[t].HasMutex? && !p.HasMutex? && !p.OnMutex?
    ensures var s' := Unlock(At(s, t, p).(condList := l)); Queues(s, Run(t), s') && !s'.pc[t].OnMutex?
    ensures var s' := Unlock(At(s, t, p).(condList := l));
            s.mutexList != [] ==> s.mutexList[0] < |s'.pc| && s'.mutex == Some(s.mutexList[0]) && s'.pc[s.mutexList[0]].HasMutex?
  {
    OwnerNotQueued(s, t);
    UnlockQueue(At(s, t, p).(condList := l), t);
  }

  lemma OwnerNotQueued(s: State, t: nat)
    requires Inv(s) && t < |s.pc| && s.pc[t].HasMutex?
    ensures s.mutex == Some(t) && t !in s.mutexList && forall u | u in s.mutexList :: u < |s.pc| && s.pc[u].OnMutex?
  {
  }

  lemma UnlockQueue(s: State, t: nat)
    requires t < |s.pc| && t !in s.mutexList && forall u | u in s.mutexList :: u < |s.pc| && (u != t ==> s.pc[u].OnMutex?)
    ensures var s' := Unlock(s);
            && |s'.pc| == |s.pc| && s'.pc[t] == s.pc[t]
            && if s.mutexList == [] then s'.mutex == None && s'.mutexList == []
               else s.mutexList[0] < |s'.pc| && s'.mutex == Some(s.mutexList[0]) && s'.pc[s.mutexList[0]].HasMutex? && [s.mutexList[0]] + s'.mutexList == s.mutexList
  {
    if s.mutexList != [] { assert s.mutexList[0] in s.mutexList; }
  }

  lemma {:induction false} SignalsQueue(s: State, l: seq<nat>)
    ensures var s' := SignalEach(s, l);
            && s'.mutex == s.mutex && s'.mutexList == s.mutexList && |s'.pc| == |s.pc|
            && forall u | 0 <= u < |s.pc| :: s'.pc[u].OnMutex? <==> s.pc[u].OnMutex?
    decreases |l|
  {
    if l != [] { SignalsQueue(Signal(s, l[0]), l[1..]); }
  }

  lemma ActQueues(s: State, t: nat, k: Point)
    requires Inv(s) && t < |s.pc| && s.pc[t] == HasMutex(k)
    ensures Queues(s, Run(t), Act(s, t, k))
  {
    match k
    case ShTest => if s.w { LeavingQueues(s, t, OnCond(k), s.condList + [t]); }
    case ShDrop =>
    case ExEntry =>
    case ExTest => if s.w { LeavingQueues(s, t, OnCond(k), s.condList + [t]); }
    case ExReaders => if s.r > 0 { LeavingQueues(s, t, OnCond(k), s.condList + [t]); }
    case ExDrop =>
      var s2 := ExclusiveLess(s, t).(exOwner := None, w := false);
      SignalsQueue(s2, s2.condList);
    case Release => LeavingQueues(s, t, Out, s.condList);
  }

  lemma StepQueues(s: State, e: Event)
    requires Inv(s) && Enabled(s, e)
    ensures Queues(s, e, Step(s, e))
  {
    if e.Run? && s.pc[e.t].HasMutex? { ActQueues(s, e.t, s.pc[e.t].at); }
  }

  ghost function AllJoined(s: State, es: seq<Event>): seq<nat>
    requires Legal(s, es)
    decreases |es|
  {
    if es == [] then [] else Joined(s, es[0], Step(s, es[0])) + AllJoined(Step(s, es[0]), es[1..])
  }

  ghost function AllHanded(s: State, es: seq<Event>): seq<nat>
    requires Legal(s, es)
    decreases |es|
  {
    if es == [] then [] else Handed(s, Step(s, es[0])) + AllHanded(Step(s, es[0]), es[1..])
  }

  lemma {:induction false} RunQueues(s: State, es: seq<Event>)
    requires Inv(s) && Legal(s, es)
    ensures AllHanded(s, es) + RunAll(s, es).mutexList == s.mutexList + AllJoined(s, es)
    decreases |es|
  {
    if es == [] {
      assert [] + s.mutexList == s.mutexList + [];
    } else {
      var s1 := Step(s, es[0]);
      StepInv(s, es[0]);
      StepQueues(s, es[0]);
      RunQueues(s1, es[1..]);
      Regroup(Handed(s, s1), AllHanded(s1, es[1..]), RunAll(s1, es[1..]).mutexList, s1.mutexList,
              s.mutexList, Joined(s, es[0], s1), AllJoined(s1, es[1..]));
    }
  }

  lemma Regroup(h: seq<nat>, hs: seq<nat>, last: seq<nat>, mid: seq<nat>, first: seq<nat>, j: seq<nat>, js: seq<nat>)
    requires h + mid == first + j && hs + last == mid + js
    ensures (h + hs) + last == first + (j + js)
  {
    assert (h + hs) + last == h + (hs + last);
    assert h + (mid + js) == (h + mid) + js;
    assert (first + j) + js == first + (j + js);
  }

  /** In every run the mutex goes to those who had to wait for it in the order in which they began to. */
  lemma FirstComeFirstServed(n: nat, rec: bool, es: seq<Event>)
    requires Legal(Initial(n, rec), es)
    ensures var s := Initial(n, rec); AllHanded(s, es) + RunAll(s, es).mutexList == AllJoined(s, es)
  {
    InitialInv(n, rec);
    RunQueues(Initial(n, rec), es);
  }

  // --------------------------------------------------- effects of operations

  /** Another task bars the way: a writer, or for a pending writer any shared holder. */
  ghost predicate Barred(s: State, k: Point) {
    match k
    case ShTest => s.exOwner.Some? || s.pending.Some?
    case ExTest => s.exOwner.Some? || s.pending.Some?
    case ExReaders => exists u :: 0 <= u < |s.shared| && s.shared[u] > 0
    case _ => false
  }

  lemma {:induction false} SumPositive(l: seq<nat>)
    ensures Sum(l) > 0 <==> exists u :: 0 <= u < |l| && l[u] > 0
    decreases |l|
  {
    if l != [] {
      SumPositive(l[1..]);
      if exists u :: 0 <= u < |l| && l[u] > 0 {
        var u :| 0 <= u < |l| && l[u] > 0;
        SumAtLeast(l, u);
      }
      if Sum(l[1..]) > 0 {
        var u :| 0 <= u < |l[1..]| && l[1..][u] > 0;
        assert l[u + 1] > 0;
      }
    }
  }

  /** The change of the caller's shared and exclusive holds when the operation at this point is done. */
  function Effect(k: Point): (int, int) {
    match k
    case ShTest => (1, 0)
    case ShDrop => (-1, 0)
    case ExEntry => (0, 1)
    case ExReaders => (0, 1)
    case ExDrop => (0, -1)
    case _ => (0, 0)
  }

  /** Where a task goes that holds the inner mutex and is not barred. */
  function Onward(s: State, t: nat, k: Point): Option<Point> {
    match k
    case ExEntry => Some(if s.rec && s.exOwner == Some(t) then Release else ExTest)
    case ExTest => Some(ExReaders)
    case Release => None
    case _ => Some(Release)
  }

  /** The holds of task t have changed by d, those of the others not at all. */
  ghost predicate HoldsChange(s: State, s': State, t: nat, d: (int, int))
    requires t < |s.pc| && Sizes(s)
  {
    && |s'.pc| == |s.pc| && Sizes(s')
    && s'.shared[t] == s.shared[t] + d.0 && s'.depth[t] == s.depth[t] + d.1
    && forall u | 0 <= u < |s.pc| && u != t :: s'.shared[u] == s.shared[u] && s'.depth[u] == s.depth[u] && Goal(s'.pc[u]) == Goal(s.pc[u])
  }

  lemma BarredFields(s: State, k: Point)
    requires Inv(s)
    ensures (k.ShTest? || k.ExTest? ==> (Barred(s, k) <==> s.w)) && (k.ExReaders? ==> (Barred(s, k) <==> s.r > 0))
  {
    SumPositive(s.shared);
  }

  /** With the inner mutex in hand a task waits exactly when barred; otherwise it goes on, with the full effect. */
  lemma ActEffect(s: State, t: nat, k: Point)
    requires Inv(s) && NestOk(s) && t < |s.pc| && s.pc[t] == HasMutex(k)
    ensures var s' := Act(s, t, k);
            if Barred(s, k) then HoldsChange(s, s', t, (0, 0)) && s'.pc[t] == OnCond(k)
            else HoldsChange(s, s', t, if Onward(s, t, k) == Some(Release) then Effect(k) else (0, 0)) && Goal(s'.pc[t]) == Onward(s, t, k)
  {
    BarredFields(s, k);
    if Barred(s, k) {
      WaitEffect(s, t, k);
    } else if k.ShDrop? {
      SharedDropEffect(s, t);
    } else if k.ExDrop? {
      ExclusiveDropEffect(s, t);
    } else if k.Release? {
      ReleaseEffect(s, t);
    }
  }

  lemma ReleaseEffect(s: State, t: nat)
    requires Inv(s) && t < |s.pc| && s.pc[t] == HasMutex(Release)
    ensures var s' := Act(s, t, Release); HoldsChange(s, s', t, (0, 0)) && s'.pc[t] == Out
  {
    assert t !in s.mutexList;
  }

  lemma WaitEffect(s: State, t: nat, k: Point)
    requires Inv(s) && t < |s.pc| && s.pc[t] == HasMutex(k)
    ensures var s' := Wait(s, t, k); HoldsChange(s, s', t, (0, 0)) && s'.pc[t] == OnCond(k)
  {
    WaitKeeps(s, t, k);
    LeavingQueues(s, t, OnCond(k), s.condList + [t]);
  }

  lemma SharedDropEffect(s: State, t: nat)
    requires Inv(s) && t < |s.pc| && s.pc[t] == HasMutex(ShDrop)
    ensures var s' := Act(s, t, ShDrop); HoldsChange(s, s', t, (-1, 0)) && Goal(s'.pc[t]) == Some(Release)
  {
    assert TaskOk(s, t);
  }

  lemma ExclusiveDropEffect(s: State, t: nat)
    requires Inv(s) && NestOk(s) && t < |s.pc| && s.pc[t] == HasMutex(ExDrop)
    ensures var s' := Act(s, t, ExDrop); HoldsChange(s, s', t, (0, -1)) && Goal(s'.pc[t]) == Some(Release)
  {
    assert TaskOk(s, t) && NestAt(s, t);
    var s1 := ExclusiveLess(s, t);
    var s2 := s1.(exOwner := None, w := false);
    MoveKeeps(s, t, Release);
    SignalEachKeeps(s2, s2.condList);
  }

  /** Every other step changes no holds, and leaves every task where it will continue, but for a call. */
  lemma StepEffect(s: State, e: Event)
    requires Inv(s) && Enabled(s, e) && !(e.Run? && s.pc[e.t].HasMutex?)
    ensures var s' := Step(s, e);
            HoldsChange(s, s', e.t, (0, 0)) && Goal(s'.pc[e.t]) == if e.Call? then Some(Entry(e.op)) else Goal(s.pc[e.t])
  {
    if e.Call? {
      LockEffect(s, e.t, Entry(e.op));
    } else if e.Run? && s.pc[e.t].Woken? {
      LockEffect(s, e.t, s.pc[e.t].at);
    }
  }

  lemma LockEffect(s: State, t: nat, k: Point)
    requires Sizes(s) && t < |s.pc|
    ensures HoldsChange(s, Lock(s, t, k), t, (0, 0)) && Goal(Lock(s, t, k).pc[t]) == Some(k)
  {
  }
}
