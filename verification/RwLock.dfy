/**
 The writer-preferring read-write lock on top of a mutex with direct hand-off and a condition variable,
 as a state machine over any number of tasks. Each step is what a task does between two points where
 another task can get in.
 */
module RwLock {
  import opened Arith

  /** Where a task is, inside one of the four lock operations, when it has the inner mutex. */
  datatype Point =
    | ShTest     // shlock: about to look at w
    | ShDrop     // shunlock: about to decrement r
    | ExEntry    // exlock: about to look for a recursive acquisition
    | ExTest     // exlock: about to look at w
    | ExReaders  // exlock: w is set, about to look at r
    | ExDrop     // exunlock: about to give up
    | Release    // about to release the inner mutex and return

  datatype Pc =
    | Out                      // not inside an operation
    | HasMutex(at: Point)      // owns the inner mutex
    | OnMutex(at: Point)       // sleeps on the inner mutex
    | OnCond(at: Point)        // sleeps on the condition
    | Stray(at: Point)         // woken by something else than a signal, still on the condition's list
    | Woken(at: Point)         // off the condition's list, about to lock the inner mutex again

  /**
   The lock's own fields r, w, rc, exOwner and rec; the inner mutex's owner and wait list; the condition's
   wait list; the tasks' positions. Auxiliary: how often each task holds the lock shared and exclusive,
   and the writer that has set w but does not own the lock yet.
   */
  datatype State = State(
    rec: bool, r: int, w: bool, rc: nat, exOwner: Option<nat>,
    mutex: Option<nat>, mutexList: seq<nat>, condList: seq<nat>, pc: seq<Pc>,
    shared: seq<nat>, depth: seq<nat>, pending: Option<nat>)

  datatype Op = ShLock | ShUnlock | ExLock | ExUnlock

  datatype Event = Call(t: nat, op: Op) | Run(t: nat) | Stir(t: nat)

  // -------------------------------------------------- mutex and condition

  function At(s: State, t: nat, p: Pc): State
    requires t < |s.pc|
  {
    s.(pc := s.pc[t := p])
  }

  /** kmutex_lock: take the mutex or queue up. */
  function Lock(s: State, t: nat, k: Point): State
    requires t < |s.pc|
  {
    if s.mutex.None? then At(s, t, HasMutex(k)).(mutex := Some(t))
    else At(s, t, OnMutex(k)).(mutexList := s.mutexList + [t])
  }

  /** kmutex_unlock: the first waiter, if any, is made the owner and woken. */
  function Unlock(s: State): State {
    if s.mutexList == [] then s.(mutex := None)
    else
      var u := s.mutexList[0];
      var s' := s.(mutex := Some(u), mutexList := s.mutexList[1..]);
      if u < |s.pc| && s.pc[u].OnMutex? then At(s', u, HasMutex(s.pc[u].at)) else s'
  }

  /** kcond_wait up to the sleep: queue up on the condition, release the mutex. */
  function Wait(s: State, t: nat, k: Point): State
    requires t < |s.pc|
  {
    Unlock(At(s, t, OnCond(k)).(condList := s.condList + [t]))
  }

  /** kcond_signal_int: a sleeper is taken off the list and woken; for anyone else the signal is lost. */
  function Signal(s: State, u: nat): State {
    if u < |s.pc| && s.pc[u].OnCond? then At(s, u, Woken(s.pc[u].at)).(condList := Drop(s.condList, u)) else s
  }

  function Drop(l: seq<nat>, u: nat): seq<nat> {
    if l == [] then [] else if l[0] == u then l[1..] else [l[0]] + Drop(l[1..], u)
  }

  function SignalOne(s: State): State { if s.condList == [] then s else Signal(s, s.condList[0]) }

  function SignalEach(s: State, l: seq<nat>): State
    decreases |l|
  {
    if l == [] then s else SignalEach(Signal(s, l[0]), l[1..])
  }

  function SignalAll(s: State): State { SignalEach(s, s.condList) }

  // ------------------------------------------------------------ the steps

  function Entry(op: Op): Point {
    match op
    case ShLock => ShTest
    case ShUnlock => ShDrop
    case ExLock => ExEntry
    case ExUnlock => ExDrop
  }

  /** rc is kept in 16 bits. */
  const RC_LIMIT: nat := 0x1_0000

  function RcUp(rc: nat): nat { (rc + 1) % RC_LIMIT }

  function RcDown(rc: nat): nat { (rc + RC_LIMIT - 1) % RC_LIMIT }

  predicate Sizes(s: State) { |s.shared| == |s.pc| && |s.depth| == |s.pc| }

  /** One shared hold, or one level of exclusive hold, fewer. */
  function SharedLess(s: State, t: nat): State
    requires t < |s.pc| && Sizes(s)
  {
    At(s, t, HasMutex(Release)).(r := s.r - 1,
                                 shared := s.shared[t := if s.shared[t] > 0 then s.shared[t] - 1 else 0])
  }

  function ExclusiveLess(s: State, t: nat): State
    requires t < |s.pc| && Sizes(s)
  {
    At(s, t, HasMutex(Release)).(rc := if s.rec then RcDown(s.rc) else s.rc,
                                 depth := s.depth[t := if s.depth[t] > 0 then s.depth[t] - 1 else 0])
  }

  /** What a task does at a point, holding the inner mutex. */
  function Act(s: State, t: nat, k: Point): State
    requires t < |s.pc| && Sizes(s)
  {
    match k
    case ShTest =>
      if s.w then Wait(s, t, ShTest)
      else At(s, t, HasMutex(Release)).(r := s.r + 1, shared := s.shared[t := s.shared[t] + 1])
    case ShDrop =>
      var s1 := SharedLess(s, t);
      if s1.r == 0 then SignalOne(s1) else s1
    case ExEntry =>
      if s.rec && s.exOwner == Some(t) then
        At(s, t, HasMutex(Release)).(rc := RcUp(s.rc), depth := s.depth[t := s.depth[t] + 1])
      else At(s, t, HasMutex(ExTest))
    case ExTest =>
      if s.w then Wait(s, t, ExTest) else At(s, t, HasMutex(ExReaders)).(w := true, pending := Some(t))
    case ExReaders =>
      if s.r > 0 then Wait(s, t, ExReaders)
      else
        At(s, t, HasMutex(Release)).(exOwner := Some(t), rc := if s.rec then RcUp(s.rc) else s.rc,
                                     depth := s.depth[t := s.depth[t] + 1], pending := None)
    case ExDrop =>
      var s1 := ExclusiveLess(s, t);
      if s.rec && s1.rc > 0 then s1 else SignalAll(s1.(exOwner := None, w := false))
    case Release => Unlock(At(s, t, Out))
  }

  /** A shared holder may release, the exclusive owner may release; anyone may ask. */
  predicate MayCall(s: State, t: nat, op: Op) {
    && t < |s.pc| && |s.shared| == |s.pc| && s.pc[t].Out?
    && (op.ShUnlock? ==> s.shared[t] > 0) && (op.ExUnlock? ==> s.exOwner == Some(t))
  }

  predicate Enabled(s: State, e: Event) {
    Sizes(s) &&
    match e
    case Call(t, op) => MayCall(s, t, op)
    case Run(t) => t < |s.pc| && (s.pc[t].HasMutex? || s.pc[t].Woken? || s.pc[t].Stray?)
    case Stir(t) => t < |s.pc| && s.pc[t].OnCond?
  }

  /**
   Stir: something else than a signal of the condition makes a waiter runnable. Delivering a task signal
   takes it off the list at once, which is a Stir and a Run of that task here; a Stray still on the list,
   as a timer would leave it, is more than the lock's own waits can meet.
   */
  function Step(s: State, e: Event): State
    requires Enabled(s, e)
  {
    match e
    case Call(t, op) => Lock(s, t, Entry(op))
    case Run(t) =>
      (match s.pc[t]
       case HasMutex(k) => Act(s, t, k)
       case Stray(k) => At(s, t, Woken(k)).(condList := Drop(s.condList, t))
       case Woken(k) => Lock(s, t, k)
       case _ => s)
    case Stir(t) => At(s, t, Stray(s.pc[t].at))
  }

  function Initial(n: nat, rec: bool): State {
    State(rec, 0, false, 0, None, None, [], [], seq(n, _ => Out), seq(n, _ => 0), seq(n, _ => 0), None)
  }

  // ------------------------------------------------------------ invariant

  ghost predicate Distinct(l: seq<nat>) { forall i, j | 0 <= i < j < |l| :: l[i] != l[j] }

  /** The mutex's owner is the one task inside; the queue holds exactly the sleepers, and none without an owner. */
  ghost predicate MutexOk(s: State) {
    && (forall t | 0 <= t < |s.pc| :: s.pc[t].HasMutex? <==> s.mutex == Some(t))
    && (forall t | 0 <= t < |s.pc| :: s.pc[t].OnMutex? <==> t in s.mutexList)
    && (forall t | t in s.mutexList :: t < |s.pc|)
    && Distinct(s.mutexList) && (s.mutex.None? ==> s.mutexList == []) && (s.mutex.Some? ==> s.mutex.value < |s.pc| && s.pc[s.mutex.value].HasMutex?)
  }

  ghost predicate CondOk(s: State) {
    && (forall t | 0 <= t < |s.pc| :: (s.pc[t].OnCond? || s.pc[t].Stray?) <==> t in s.condList)
    && (forall t | t in s.condList :: t < |s.pc|)
    && Distinct(s.condList)
  }

  /** The point a task will continue at, wherever it waits. */
  function Goal(p: Pc): Option<Point> { if p.Out? then None else Some(p.at) }

  function Sum(l: seq<nat>): nat { if l == [] then 0 else l[0] + Sum(l[1..]) }

  ghost predicate LockOk(s: State)
    requires Sizes(s)
  {
    && s.r == Sum(s.shared) && (s.w <==> s.exOwner.Some? || s.pending.Some?)
    && (s.exOwner.Some? ==> s.pending.None? && s.r == 0 && s.exOwner.value < |s.pc|)
    && (s.rec && s.exOwner.None? ==> s.rc == 0)
    && (s.pending.Some? ==> s.pending.value < |s.pc|)
    && (forall t | 0 <= t < |s.pc| :: TaskOk(s, t))
  }

  ghost predicate TaskOk(s: State, t: nat)
    requires t < |s.pc| && Sizes(s)
  {
    && (Goal(s.pc[t]) == Some(ExReaders) <==> s.pending == Some(t))
    && (Goal(s.pc[t]) == Some(ExDrop) ==> s.exOwner == Some(t))
    && (Goal(s.pc[t]) == Some(ShDrop) ==> s.shared[t] > 0)
  }

  ghost predicate Inv(s: State) { Sizes(s) && MutexOk(s) && CondOk(s) && LockOk(s) }

  /** rc is the owner's depth, as far as 16 bits go; nobody else has any. */
  ghost predicate NestAt(s: State, t: nat)
    requires t < |s.pc| && Sizes(s)
  {
    if s.exOwner == Some(t) then s.depth[t] >= 1 && (if s.rec then s.rc == s.depth[t] % RC_LIMIT else s.depth[t] == 1)
    else s.depth[t] == 0
  }

  ghost predicate NestOk(s: State)
    requires Sizes(s)
  {
    forall t | 0 <= t < |s.pc| :: NestAt(s, t)
  }

  /** What clients rely on: one exclusive holder at most, who is the owner, and no shared holder beside it. */
  ghost predicate Excludes(s: State)
    requires Sizes(s)
  {
    && (forall t, u | 0 <= t < |s.pc| && 0 <= u < |s.pc| && s.depth[t] > 0 :: s.shared[u] == 0 && (u != t ==> s.depth[u] == 0))
    && s.r == Sum(s.shared)
    && (forall t | 0 <= t < |s.pc| && s.depth[t] > 0 :: s.exOwner == Some(t) && s.w && (s.rec ==> s.rc == s.depth[t] % RC_LIMIT))
  }

  lemma NestExcludes(s: State)
    requires Inv(s) && NestOk(s)
    ensures Excludes(s)
  {
    forall t | 0 <= t < |s.pc| && s.depth[t] > 0
      ensures s.exOwner == Some(t) && (s.rec ==> s.rc == s.depth[t] % RC_LIMIT)
    {
      assert NestAt(s, t);
    }
    forall t, u | 0 <= t < |s.pc| && 0 <= u < |s.pc| && s.depth[t] > 0 ensures s.shared[u] == 0 && (u != t ==> s.depth[u] == 0) {
      assert NestAt(s, t) && NestAt(s, u);
      SumAtLeast(s.shared, u);
    }
  }

  lemma {:induction false} SumAtLeast(l: seq<nat>, i: nat)
    requires i < |l|
    ensures Sum(l) >= l[i]
    decreases |l|
  {
    if i > 0 { SumAtLeast(l[1..], i - 1); }
  }

  lemma {:induction false} SumUpdate(l: seq<nat>, i: nat, v: nat)
    requires i < |l|
    ensures Sum(l[i := v]) == Sum(l) - l[i] + v
    decreases |l|
  {
    if i == 0 {
      assert l[0 := v][1..] == l[1..];
    } else {
      assert l[i := v][1..] == l[1..][i - 1 := v];
      SumUpdate(l[1..], i - 1, v);
    }
  }

  lemma {:induction false} SumZero(n: nat)
    ensures Sum(seq(n, _ => 0)) == 0
    decreases n
  {
    if n > 0 {
      assert seq<nat>(n, _ => 0)[1..] == seq<nat>(n - 1, _ => 0);
      SumZero(n - 1);
    }
  }

  // ------------------------------------- the primitives keep the invariant

  /** The lock's own state is as before, and every task will continue where it would have. */
  ghost predicate SameLock(s: State, s': State) {
    && s'.(mutex := s.mutex, mutexList := s.mutexList, condList := s.condList, pc := s.pc) == s
    && |s'.pc| == |s.pc| && forall t | 0 <= t < |s.pc| :: Goal(s'.pc[t]) == Goal(s.pc[t])
  }

  lemma LockKept(s: State, s': State)
    requires Sizes(s) && LockOk(s) && SameLock(s, s')
    ensures Sizes(s') && LockOk(s')
  {
    forall t | 0 <= t < |s'.pc| ensures TaskOk(s', t) { assert TaskOk(s, t); }
  }

  lemma {:induction false} DropRemoves(l: seq<nat>, u: nat)
    requires Distinct(l)
    ensures Distinct(Drop(l, u)) && (forall x :: x in Drop(l, u) <==> x in l && x != u)
    ensures l != [] && l[0] != u ==> Drop(l, u) != [] && Drop(l, u)[0] == l[0]
    decreases |l|
  {
    if l != [] {
      var tail := l[1..];
      assert Distinct(tail) && l == [l[0]] + tail && l[0] !in tail;
      if l[0] != u {
        DropRemoves(tail, u);
        var rest := Drop(tail, u);
        assert l[0] !in rest && Drop(l, u) == [l[0]] + rest;
      }
    }
  }

  lemma LockKeeps(s: State, t: nat, k: Point)
    requires MutexOk(s) && CondOk(s) && t < |s.pc| && (s.pc[t].Out? || s.pc[t].Woken?)
    ensures var s' := Lock(s, t, k); MutexOk(s') && CondOk(s')
  {
    LockCond(s, t, k);
    LockMutex(s, t, k);
  }

  lemma LockCond(s: State, t: nat, k: Point)
    requires CondOk(s) && t < |s.pc| && (s.pc[t].Out? || s.pc[t].Woken?)
    ensures CondOk(Lock(s, t, k))
  {
  }

  lemma LockMutex(s: State, t: nat, k: Point)
    requires MutexOk(s) && t < |s.pc| && (s.pc[t].Out? || s.pc[t].Woken?)
    ensures MutexOk(Lock(s, t, k))
  {
  }

  /** The owner t of the mutex has moved on; the mutex still says t. */
  ghost predicate Leaving(s: State, t: nat) {
    && t < |s.pc| && s.mutex == Some(t) && !s.pc[t].HasMutex? && !s.pc[t].OnMutex? && t !in s.mutexList
    && (forall u | 0 <= u < |s.pc| && u != t :: !s.pc[u].HasMutex? && (s.pc[u].OnMutex? <==> u in s.mutexList))
    && (forall u | u in s.mutexList :: u < |s.pc|) && Distinct(s.mutexList)
  }

  /** Releasing hands the mutex to the first waiter. */
  lemma UnlockKeeps(s: State, t: nat)
    requires Leaving(s, t) && CondOk(s)
    ensures var s' := Unlock(s); MutexOk(s') && CondOk(s') && SameLock(s, s') && s'.condList == s.condList
    ensures var s' := Unlock(s);
            if s.mutexList == [] then s'.mutex == None else s'.mutex == Some(s.mutexList[0]) && [s.mutexList[0]] + s'.mutexList == s.mutexList
  {
    if s.mutexList != [] {
      var u := s.mutexList[0];
      assert u in s.mutexList;
      var rest := s.mutexList[1..];
      assert s.mutexList == [u] + rest && Distinct(rest) && u !in rest;
      assert forall x | x in rest :: x in s.mutexList;
    }
  }

  lemma WaitKeeps(s: State, t: nat, k: Point)
    requires MutexOk(s) && CondOk(s) && t < |s.pc| && s.pc[t] == HasMutex(k)
    ensures var s' := Wait(s, t, k); MutexOk(s') && CondOk(s') && SameLock(s, s') && s'.condList == s.condList + [t]
  {
    var s1 := At(s, t, OnCond(k)).(condList := s.condList + [t]);
    assert t !in s.condList;
    assert CondOk(s1);
    UnlockKeeps(s1, t);
  }

  lemma SignalKeeps(s: State, u: nat)
    requires MutexOk(s) && CondOk(s)
    ensures var s' := Signal(s, u); MutexOk(s') && CondOk(s') && SameLock(s, s')
    ensures var s' := Signal(s, u);
            if u < |s.pc| && s.pc[u].OnCond? then s'.pc[u].Woken? && forall t :: t in s'.condList <==> t in s.condList && t != u else s' == s
  {
    DropRemoves(s.condList, u);
  }

  lemma {:induction false} SignalEachKeeps(s: State, l: seq<nat>)
    requires MutexOk(s) && CondOk(s)
    ensures var s' := SignalEach(s, l); MutexOk(s') && CondOk(s') && SameLock(s, s')
    decreases |l|
  {
    if l != [] {
      SignalKeeps(s, l[0]);
      SignalEachKeeps(Signal(s, l[0]), l[1..]);
    }
  }

  // ----------------------------------------- every step keeps the invariant

  /** Moving from one point to another with the mutex in hand. */
  lemma MoveKeeps(s: State, t: nat, k: Point)
    requires MutexOk(s) && CondOk(s) && t < |s.pc| && s.pc[t].HasMutex?
    ensures var s' := At(s, t, HasMutex(k)); MutexOk(s') && CondOk(s')
  {
  }

  lemma WaitInv(s: State, t: nat, k: Point)
    requires Inv(s) && t < |s.pc| && s.pc[t] == HasMutex(k)
    ensures Inv(Wait(s, t, k))
  {
    WaitKeeps(s, t, k);
    LockKept(s, Wait(s, t, k));
  }

  lemma SignalOneInv(s: State)
    requires Inv(s)
    ensures Inv(SignalOne(s))
  {
    if s.condList != [] {
      SignalKeeps(s, s.condList[0]);
      LockKept(s, SignalOne(s));
    }
  }

  lemma SignalAllInv(s: State)
    requires Inv(s)
    ensures Inv(SignalAll(s)) && |SignalAll(s).pc| == |s.pc|
  {
    SignalEachKeeps(s, s.condList);
    LockKept(s, SignalAll(s));
  }

  lemma SharedInv(s: State, t: nat)
    requires Inv(s) && t < |s.pc| && s.pc[t] == HasMutex(ShTest)
    ensures Inv(Act(s, t, ShTest))
  {
    if s.w {
      WaitInv(s, t, ShTest);
    } else {
      var s' := Act(s, t, ShTest);
      MoveKeeps(s, t, Release);
      SumUpdate(s.shared, t, s.shared[t] + 1);
      forall u | 0 <= u < |s.pc| ensures TaskOk(s', u) { assert TaskOk(s, u); }
    }
  }

  lemma SharedDropInv(s: State, t: nat)
    requires Inv(s) && t < |s.pc| && s.pc[t] == HasMutex(ShDrop)
    ensures Inv(Act(s, t, ShDrop))
  {
    var s1 := SharedLess(s, t);
    assert MutexOk(s1) && CondOk(s1) by { MoveKeeps(s, t, Release); }
    assert LockOk(s1) by { DroppedOk(s, s1, t); }
    SignalOneInv(s1);
    assert Act(s, t, ShDrop) == if s1.r == 0 then SignalOne(s1) else s1;
  }

  lemma DroppedOk(s: State, s1: State, t: nat)
    requires Sizes(s) && LockOk(s) && t < |s.pc| && Goal(s.pc[t]) == Some(ShDrop)
    requires s1 == SharedLess(s, t)
    ensures LockOk(s1)
  {
    assert TaskOk(s, t);
    SumAtLeast(s.shared, t);
    SumUpdate(s.shared, t, s.shared[t] - 1);
    forall u | 0 <= u < |s.pc| ensures TaskOk(s1, u) { assert TaskOk(s, u); }
  }

  lemma ExclusiveInv(s: State, t: nat, k: Point)
    requires Inv(s) && t < |s.pc| && s.pc[t] == HasMutex(k) && (k.ExEntry? || k.ExTest? || k.ExReaders?)
    ensures Inv(Act(s, t, k))
  {
    if (k.ExTest? && s.w) || (k.ExReaders? && s.r > 0) {
      WaitInv(s, t, k);
    } else {
      var s' := Act(s, t, k);
      MoveKeeps(s, t, s'.pc[t].at);
      assert TaskOk(s, t);
      forall u | 0 <= u < |s.pc| ensures TaskOk(s', u) { assert TaskOk(s, u); }
    }
  }

  lemma ExclusiveDropInv(s: State, t: nat)
    requires Inv(s) && t < |s.pc| && s.pc[t] == HasMutex(ExDrop)
    ensures Inv(Act(s, t, ExDrop)) && |Act(s, t, ExDrop).pc| == |s.pc|
  {
    var s1 := ExclusiveLess(s, t);
    assert TaskOk(s, t);
    MoveKeeps(s, t, Release);
    if s.rec && s1.rc > 0 {
      forall u | 0 <= u < |s.pc| ensures TaskOk(s1, u) { assert TaskOk(s, u); }
    } else {
      var s2 := s1.(exOwner := None, w := false);
      forall u | 0 <= u < |s.pc| ensures TaskOk(s2, u) { assert TaskOk(s, u); }
      SignalAllInv(s2);
    }
  }

  lemma ReleaseInv(s: State, t: nat)
    requires Inv(s) && t < |s.pc| && s.pc[t] == HasMutex(Release)
    ensures Inv(Act(s, t, Release))
  {
    var s1 := At(s, t, Out);
    assert CondOk(s1) && Leaving(s1, t);
    forall u | 0 <= u < |s.pc| ensures TaskOk(s1, u) { assert TaskOk(s, u); }
    UnlockKeeps(s1, t);
    LockKept(s1, Unlock(s1));
  }

  lemma LockInv(s: State, t: nat, k: Point)
    requires Inv(s) && t < |s.pc| && s.pc[t] == Woken(k)
    ensures Inv(Lock(s, t, k))
  {
    LockKeeps(s, t, k);
    LockKept(s, Lock(s, t, k));
  }

  lemma CallInv(s: State, t: nat, op: Op)
    requires Inv(s) && MayCall(s, t, op)
    ensures Inv(Lock(s, t, Entry(op)))
  {
    LockKeeps(s, t, Entry(op));
    var s' := Lock(s, t, Entry(op));
    forall u | 0 <= u < |s.pc| ensures TaskOk(s', u) { assert TaskOk(s, u); }
  }

  lemma StirInv(s: State, t: nat)
    requires Inv(s) && t < |s.pc| && s.pc[t].OnCond?
    ensures Inv(Step(s, Stir(t)))
  {
    LockKept(s, Step(s, Stir(t)));
  }

  lemma StrayInv(s: State, t: nat)
    requires Inv(s) && t < |s.pc| && s.pc[t].Stray?
    ensures Inv(Step(s, Run(t)))
  {
    DropRemoves(s.condList, t);
    LockKept(s, Step(s, Run(t)));
  }

  lemma StepInv(s: State, e: Event)
    requires Inv(s) && Enabled(s, e)
    ensures Inv(Step(s, e)) && |Step(s, e).pc| == |s.pc|
  {
    match e
    case Call(t, op) => CallInv(s, t, op);
    case Stir(t) => StirInv(s, t);
    case Run(t) =>
      match s.pc[t]
      case Stray(k) => StrayInv(s, t);
      case Woken(k) => LockInv(s, t, k);
      case HasMutex(k) => ActInv(s, t, k);
  }

  lemma ActInv(s: State, t: nat, k: Point)
    requires Inv(s) && t < |s.pc| && s.pc[t] == HasMutex(k)
    ensures Inv(Act(s, t, k)) && |Act(s, t, k).pc| == |s.pc|
  {
    match k
    case ShTest => SharedInv(s, t);
    case ShDrop => SharedDropInv(s, t);
    case ExDrop => ExclusiveDropInv(s, t);
    case Release => ReleaseInv(s, t);
    case _ => ExclusiveInv(s, t, k);
  }

  // --------------------------------------------------------- nesting depth

  /** A release by an owner whose 16-bit count is down to one although more than one level is held. */
  predicate Overrun(s: State, e: Event)
    requires Enabled(s, e)
  {
    e.Run? && s.pc[e.t] == HasMutex(ExDrop) && s.rec && s.rc == 1 && s.depth[e.t] > 1
  }

  ghost predicate SameNest(s: State, s': State) {
    s'.rec == s.rec && s'.rc == s.rc && s'.exOwner == s.exOwner && s'.depth == s.depth && |s'.pc| == |s.pc|
  }

  lemma NestKept(s: State, s': State)
    requires Sizes(s) && Sizes(s') && NestOk(s) && SameNest(s, s')
    ensures NestOk(s')
  {
    forall t | 0 <= t < |s'.pc| ensures NestAt(s', t) { assert NestAt(s, t); }
  }

  lemma RcSteps(d: nat)
    ensures RcUp(d % RC_LIMIT) == (d + 1) % RC_LIMIT
    ensures d > 0 ==> RcDown(d % RC_LIMIT) == (d - 1) % RC_LIMIT
    ensures RcDown(d % RC_LIMIT) == 0 <==> d % RC_LIMIT == 1
  {
  }

  lemma EntryNest(s: State, t: nat, k: Point)
    requires Inv(s) && NestOk(s) && t < |s.pc| && s.pc[t] == HasMutex(k)
    requires (k.ExEntry? && s.rec && s.exOwner == Some(t)) || (k.ExReaders? && s.r <= 0)
    ensures NestOk(Act(s, t, k))
  {
    var s' := Act(s, t, k);
    assert TaskOk(s, t) && NestAt(s, t);
    RcSteps(s.depth[t]);
    forall u | 0 <= u < |s'.pc| ensures NestAt(s', u) { assert NestAt(s, u); }
  }

  /** Giving up one level is right except in an overrun, which drops the lock with levels left. */
  lemma DropNest(s: State, t: nat)
    requires Inv(s) && NestOk(s) && t < |s.pc| && s.pc[t] == HasMutex(ExDrop)
    ensures Enabled(s, Run(t)) && Sizes(Act(s, t, ExDrop))
    ensures if Overrun(s, Run(t)) then !Excludes(Act(s, t, ExDrop)) else NestOk(Act(s, t, ExDrop))
  {
    var s1 := ExclusiveLess(s, t);
    assert TaskOk(s, t) && NestAt(s, t);
    RcSteps(s.depth[t]);
    ActInv(s, t, ExDrop);
    if s.rec && s1.rc > 0 {
      forall u | 0 <= u < |s1.pc| ensures NestAt(s1, u) { assert NestAt(s, u); }
    } else {
      var s2 := s1.(exOwner := None, w := false);
      MoveKeeps(s, t, Release);
      SignalEachKeeps(s2, s2.condList);
      if !Overrun(s, Run(t)) {
        forall u | 0 <= u < |s2.pc| ensures NestAt(s2, u) { assert NestAt(s, u); }
        NestKept(s2, SignalAll(s2));
      }
    }
  }

  lemma ActNest(s: State, t: nat, k: Point)
    requires Inv(s) && NestOk(s) && t < |s.pc| && s.pc[t] == HasMutex(k) && !k.ExDrop?
    ensures Sizes(Act(s, t, k)) && NestOk(Act(s, t, k))
  {
    ActInv(s, t, k);
    if (k.ExEntry? && s.rec && s.exOwner == Some(t)) || (k.ExReaders? && s.r <= 0) {
      EntryNest(s, t, k);
    } else {
      NestKept(s, Act(s, t, k));
    }
  }

  /** Exclusion survives a step if and only if it is not an overrun. */
  lemma StepExcludes(s: State, e: Event)
    requires Inv(s) && NestOk(s) && Enabled(s, e)
    ensures Sizes(Step(s, e)) && (Excludes(Step(s, e)) <==> !Overrun(s, e))
    ensures !Overrun(s, e) ==> NestOk(Step(s, e))
  {
    StepInv(s, e);
    if e.Run? && s.pc[e.t].HasMutex? {
      if s.pc[e.t].at.ExDrop? { DropNest(s, e.t); } else { ActNest(s, e.t, s.pc[e.t].at); }
    } else {
      NestKept(s, Step(s, e));
    }
    if !Overrun(s, e) { NestExcludes(Step(s, e)); }
  }
}
