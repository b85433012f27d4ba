/**
 The re-entrant ring buffer, as a state machine: writers nest like interrupts, only the innermost one
 moves, and the single reader moves only when no write is in flight. Loads, compare-and-swap and copies
 are separate steps; the weak compare-and-swap may fail for no reason.
 */
module SafeRingbuf {
  import opened Arith

  /** The packed state word: two 15-bit positions and the full bit. */
  datatype Stat = Stat(readPos: nat, writePos: nat, full: bool)

  const MAX_ELEMS: nat := 32768

  predicate IsEmpty(s: Stat) { s.readPos == s.writePos && !s.full }

  /** `(pos + 1) % max_elems`, stored in 15 bits. */
  function Inc(pos: nat, max: nat): nat
    requires max > 0
  {
    (pos + 1) % max % MAX_ELEMS
  }

  function Advanced(s: Stat, max: nat): Stat
    requires max > 0
  {
    var p := Inc(s.writePos, max);
    s.(writePos := p, full := s.full || p == s.readPos)
  }

  function Consumed(s: Stat, max: nat): Stat
    requires max > 0
  {
    s.(readPos := Inc(s.readPos, max), full := false)
  }

  /** A write in flight. Auxiliary: how many elements had been reserved at each load, and the index of this one. */
  datatype Frame<T> =
    | Begin(e: T)                                                // about to load the state word
    | Second(e: T, cs: Stat, at1: nat)                           // about to load it again
    | Swap(e: T, cs: Stat, ns: Stat, at1: nat, at2: nat)         // about to compare and swap
    | Copy(e: T, cs: Stat, index: nat)                           // slot reserved, about to fill it
    | Done(e: T, ok: bool, wasEmpty: bool, index: nat)           // about to return

  datatype Reader<T> =
    | Idle
    | RBegin
    | RSecond(cs: Stat, at1: nat)
    | RCopy(cs: Stat, ns: Stat, at1: nat, at2: nat)
    | RSwap(e: T, cs: Stat, ns: Stat, at1: nat, at2: nat)
    | RDone(result: Option<T>, at1: nat)                         // about to return true and the element, or false

  /**
   Auxiliary: `log`, the elements in the order their slots were reserved; `got`, the elements taken out;
   `written` and `returned`, the elements of the writes and reads that have returned with success.
   */
  datatype State<T> = State(buf: seq<T>, raw: Stat, writers: seq<Frame<T>>, reader: Reader<T>,
                            log: seq<T>, got: seq<T>, written: seq<T>, returned: seq<T>)

  datatype Event<T> = Write(e: T) | RunWriter(fail: bool) | Return | Read | RunReader(fail: bool) | ReadReturn

  function Initial<T>(buf: seq<T>): State<T> { State(buf, Stat(0, 0, false), [], Idle, [], [], [], []) }

  function Top<T>(s: State<T>): Frame<T>
    requires s.writers != []
  {
    s.writers[|s.writers| - 1]
  }

  function WithTop<T>(s: State<T>, f: Frame<T>): State<T>
    requires s.writers != []
  {
    s.(writers := s.writers[|s.writers| - 1 := f])
  }

  predicate Enabled<T>(s: State<T>, e: Event<T>) {
    |s.buf| > 0 &&
    match e
    case Write(_) => true
    case RunWriter(_) => s.writers != [] && !Top(s).Done?
    case Return => s.writers != [] && Top(s).Done?
    case Read => s.writers == [] && s.reader.Idle?
    case RunReader(_) => s.writers == [] && !s.reader.Idle? && !s.reader.RDone?
    case ReadReturn => s.writers == [] && s.reader.RDone?
  }

  function WriterStep<T>(s: State<T>, fail: bool): State<T>
    requires s.writers != [] && |s.buf| > 0
  {
    match Top(s)
    case Begin(e) => WithTop(s, Second(e, s.raw, |s.log|))
    case Second(e, cs, at1) =>
      if cs.full then WithTop(s, Done(e, false, false, |s.log|))
      else WithTop(s, Swap(e, cs, Advanced(s.raw, |s.buf|), at1, |s.log|))
    case Swap(e, cs, ns, _, _) =>
      if fail || s.raw != cs then WithTop(s, Begin(e))
      else WithTop(s, Copy(e, cs, |s.log|)).(raw := ns, log := s.log + [e])
    case Copy(e, cs, i) =>
      WithTop(s, Done(e, true, IsEmpty(cs), i)).(buf := if cs.writePos < |s.buf| then s.buf[cs.writePos := e] else s.buf)
    case Done(_, _, _, _) => s
  }

  /** The element at a position; positions are always inside the buffer. */
  function Elem<T>(buf: seq<T>, pos: nat): T
    requires |buf| > 0
  {
    if pos < |buf| then buf[pos] else buf[0]
  }

  function ReaderStep<T>(s: State<T>, fail: bool): State<T>
    requires |s.buf| > 0
  {
    match s.reader
    case Idle => s
    case RBegin => s.(reader := RSecond(s.raw, |s.log|))
    case RSecond(cs, at1) => s.(reader := RCopy(cs, s.raw, at1, |s.log|))
    case RCopy(cs, ns, at1, at2) =>
      if IsEmpty(cs) then s.(reader := RDone(None, at1))
      else s.(reader := RSwap(Elem(s.buf, cs.readPos), cs, Consumed(ns, |s.buf|), at1, at2))
    case RSwap(e, cs, ns, at1, _) =>
      if fail || s.raw != cs then s.(reader := RBegin) else s.(raw := ns, reader := RDone(Some(e), at1), got := s.got + [e])
    case RDone(_, _) => s
  }

  function Popped<T>(s: State<T>): State<T>
    requires s.writers != [] && Top(s).Done?
  {
    s.(writers := s.writers[..|s.writers| - 1], written := if Top(s).ok then s.written + [Top(s).e] else s.written)
  }

  function Step<T>(s: State<T>, e: Event<T>): State<T>
    requires Enabled(s, e)
  {
    match e
    case Write(x) => s.(writers := s.writers + [Begin(x)])
    case RunWriter(fail) => WriterStep(s, fail)
    case Return => Popped(s)
    case Read => s.(reader := RBegin)
    case RunReader(fail) => ReaderStep(s, fail)
    case ReadReturn => s.(reader := Idle, returned := s.returned + Taken(s.reader))
  }

  /** What a read that is about to return hands to its caller. */
  function Taken<T>(r: Reader<T>): seq<T> { if r.RDone? && r.result.Some? then [r.result.value] else [] }

  // ------------------------------------------------------------ positions

  /** Where the n-th element goes. */
  function Slot(n: nat, max: nat): (p: nat)
    requires max > 0
    ensures p < max
  {
    if n == 0 then 0 else if Slot(n - 1, max) + 1 == max then 0 else Slot(n - 1, max) + 1
  }

  lemma IncIsNext(n: nat, max: nat)
    requires 0 < max <= MAX_ELEMS
    ensures Inc(Slot(n, max), max) == Slot(n + 1, max)
  {
    var p := Slot(n, max) + 1;
    var q := if p < max then 0 else 1;
    var r := p - q * max;
    DivModUnique(p, max, q, r);
    DivModUnique(r, MAX_ELEMS, 0, r);
  }

  lemma {:induction false} SlotAhead(a: nat, k: nat, max: nat)
    requires 0 < max && k <= max
    ensures Slot(a + k, max) == if Slot(a, max) + k < max then Slot(a, max) + k else Slot(a, max) + k - max
    decreases k
  {
    if k > 0 {
      SlotAhead(a, k - 1, max);
      assert a + k - 1 == a + (k - 1);
    }
  }

  /** Elements less than a full round apart have different slots. */
  lemma SlotsApart(a: nat, b: nat, max: nat)
    requires 0 < max && a <= b <= a + max
    ensures Slot(a, max) == Slot(b, max) <==> b == a || b == a + max
  {
    SlotAhead(a, b - a, max);
  }

  /** The state word after `taken` reads and `n` reservations. */
  function Word(taken: nat, n: nat, max: nat): Stat
    requires max > 0 && taken <= n <= taken + max
  {
    Stat(Slot(taken, max), Slot(n, max), n == taken + max)
  }

  /** The word tells how many elements there are. */
  lemma WordUnique(taken: nat, n: nat, n': nat, max: nat)
    requires 0 < max && taken <= n <= taken + max && taken <= n' <= taken + max
    requires Word(taken, n, max) == Word(taken, n', max)
    ensures n == n'
  {
    if n <= n' { SlotsApart(n, n', max); } else { SlotsApart(n', n, max); }
  }

  lemma WordEmpty(taken: nat, n: nat, max: nat)
    requires 0 < max && taken <= n <= taken + max
    ensures IsEmpty(Word(taken, n, max)) <==> n == taken
  {
    SlotsApart(taken, n, max);
  }

  lemma WordAdvanced(taken: nat, n: nat, max: nat)
    requires 0 < max <= MAX_ELEMS && taken <= n < taken + max
    ensures Advanced(Word(taken, n, max), max) == Word(taken, n + 1, max)
  {
    IncIsNext(n, max);
    SlotsApart(taken, n + 1, max);
  }

  lemma WordConsumed(taken: nat, n: nat, max: nat)
    requires 0 < max <= MAX_ELEMS && taken < n <= taken + max
    ensures Consumed(Word(taken, n, max), max) == Word(taken + 1, n, max)
  {
    IncIsNext(taken, max);
  }

  // ------------------------------------------------------------ invariant

  ghost predicate FrameOk<T>(s: State<T>, f: Frame<T>)
    requires Counts(s)
  {
    var m, t, n := |s.buf|, |s.got|, |s.log|;
    match f
    case Begin(_) => true
    case Second(_, cs, at1) => t <= at1 <= n && cs == Word(t, at1, m)
    case Swap(_, cs, ns, at1, at2) => t <= at1 < t + m && at1 <= at2 <= n && cs == Word(t, at1, m) && ns == Advanced(Word(t, at2, m), m)
    case Copy(e, cs, i) => t <= i < n && cs == Word(t, i, m) && s.log[i] == e
    case Done(e, ok, wasEmpty, i) =>
      if ok then t <= i < n && s.log[i] == e && (wasEmpty <==> i == t) else !wasEmpty && n == t + m
  }

  ghost predicate ReaderOk<T>(s: State<T>)
    requires Counts(s)
  {
    var m, t, n := |s.buf|, |s.got|, |s.log|;
    match s.reader
    case Idle => true
    case RBegin => true
    case RSecond(cs, at1) => t <= at1 <= n && cs == Word(t, at1, m)
    case RCopy(cs, ns, at1, at2) => t <= at1 <= at2 <= n && cs == Word(t, at1, m) && ns == Word(t, at2, m)
    case RSwap(e, cs, ns, at1, at2) =>
      t < at1 <= at2 <= n && cs == Word(t, at1, m) && ns == Consumed(Word(t, at2, m), m) && e == s.log[t]
    case RDone(result, at1) => result.None? ==> at1 == t
  }

  /** Some write in flight has reserved the slot of the i-th element and not filled it yet. */
  ghost predicate Reserved<T>(s: State<T>, i: nat) {
    exists j :: 0 <= j < |s.writers| && s.writers[j].Copy? && s.writers[j].index == i
  }

  ghost predicate Counts<T>(s: State<T>) {
    0 < |s.buf| <= MAX_ELEMS && |s.got| <= |s.log| <= |s.got| + |s.buf|
  }

  ghost predicate Filled<T>(s: State<T>)
    requires Counts(s)
  {
    forall i | |s.got| <= i < |s.log| :: Reserved(s, i) || s.buf[Slot(i, |s.buf|)] == s.log[i]
  }

  /** The write has its slot. */
  predicate HasSlot<T>(f: Frame<T>) { f.Copy? || (f.Done? && f.ok) }

  /** The elements of writes in flight that have their slot. */
  ghost function Owed<T>(fs: seq<Frame<T>>): multiset<T> {
    if fs == [] then multiset{} else Owed(fs[..|fs| - 1]) + Own(fs[|fs| - 1])
  }

  ghost function Own<T>(f: Frame<T>): multiset<T> { if HasSlot(f) then multiset{f.e} else multiset{} }

  /** Every reserved element belongs to one write that succeeds. */
  ghost predicate Accounted<T>(s: State<T>) { multiset(s.log) == multiset(s.written) + Owed(s.writers) }

  ghost predicate Inv<T>(s: State<T>) {
    && Counts(s) && s.got <= s.log && s.raw == Word(|s.got|, |s.log|, |s.buf|)
    && (forall j | 0 <= j < |s.writers| :: FrameOk(s, s.writers[j]))
    && (forall j, k | 0 <= j < k < |s.writers| && s.writers[j].Copy? && s.writers[k].Copy? :: s.writers[j].index != s.writers[k].index)
    && ReaderOk(s) && Filled(s) && s.got == s.returned + Taken(s.reader)
  }

  lemma InitialInv<T>(buf: seq<T>)
    requires 0 < |buf| <= MAX_ELEMS
    ensures Inv(Initial(buf))
  {
  }

  // ----------------------------------------- every step keeps the invariant

  /** The innermost write moves on without touching the shared state, and neither holds nor takes a slot. */
  lemma TopKeeps<T>(s: State<T>, f: Frame<T>)
    requires Inv(s) && s.writers != [] && !Top(s).Copy? && !f.Copy? && FrameOk(s, f)
    ensures Inv(WithTop(s, f))
  {
    var s' := WithTop(s, f);
    forall i | |s.got| <= i < |s.log| ensures Reserved(s', i) || s.buf[Slot(i, |s.buf|)] == s.log[i] {
      if Reserved(s, i) { ReservedStays(s, s', i); }
    }
  }

  lemma ReservedStays<T>(s: State<T>, s': State<T>, i: nat)
    requires Reserved(s, i) && |s'.writers| >= |s.writers|
    requires forall j | 0 <= j < |s.writers| && s.writers[j].Copy? && s.writers[j].index == i :: s'.writers[j] == s.writers[j]
    ensures Reserved(s', i)
  {
    var j :| 0 <= j < |s.writers| && s.writers[j].Copy? && s.writers[j].index == i;
    assert s'.writers[j].Copy? && s'.writers[j].index == i;
  }

  /** A won compare-and-swap reserves the next slot: both loads saw the present word. */
  lemma SwapKeeps<T>(s: State<T>)
    requires Inv(s) && s.writers != [] && Top(s).Swap? && s.raw == Top(s).cs
    ensures Inv(WriterStep(s, false))
  {
    var f, s', m, t, n := Top(s), WriterStep(s, false), |s.buf|, |s.got|, |s.log|;
    assert FrameOk(s, f);
    WordUnique(t, f.at1, n, m);
    WordAdvanced(t, n, m);
    forall j | 0 <= j < |s'.writers| ensures FrameOk(s', s'.writers[j]) {
      assert FrameOk(s, s.writers[j]);
    }
    forall i | t <= i < n + 1 ensures Reserved(s', i) || s'.buf[Slot(i, m)] == s'.log[i] {
      if i == n {
        assert s'.writers[|s.writers| - 1].Copy? && s'.writers[|s.writers| - 1].index == n;
      } else if Reserved(s, i) {
        ReservedStays(s, s', i);
      }
    }
    ReaderGrows(s, s');
  }

  lemma ReaderGrows<T>(s: State<T>, s': State<T>)
    requires Counts(s) && Counts(s') && ReaderOk(s) && s'.reader == s.reader && s'.got == s.got && s.log <= s'.log && |s'.buf| == |s.buf|
    ensures ReaderOk(s')
  {
  }

  /** Filling the reserved slot touches no other unread element. */
  lemma CopyKeeps<T>(s: State<T>)
    requires Inv(s) && s.writers != [] && Top(s).Copy?
    ensures Inv(WriterStep(s, false)) && WriterStep(s, true) == WriterStep(s, false)
  {
    var f, s', m := Top(s), WriterStep(s, false), |s.buf|;
    assert FrameOk(s, f);
    WordEmpty(|s.got|, f.index, m);
    forall j | 0 <= j < |s'.writers| ensures FrameOk(s', s'.writers[j]) { assert FrameOk(s, s.writers[j]); }
    forall i | |s.got| <= i < |s.log| ensures Reserved(s', i) || s'.buf[Slot(i, m)] == s'.log[i] { SlotCopied(s, i); }
  }

  lemma SlotCopied<T>(s: State<T>, i: nat)
    requires Inv(s) && s.writers != [] && Top(s).Copy? && |s.got| <= i < |s.log|
    ensures var s' := WriterStep(s, false); Reserved(s', i) || s'.buf[Slot(i, |s.buf|)] == s'.log[i]
  {
    var f, s', m := Top(s), WriterStep(s, false), |s.buf|;
    assert FrameOk(s, f);
    WordEmpty(|s.got|, f.index, m);
    if i != f.index {
      if i < f.index { SlotsApart(i, f.index, m); } else { SlotsApart(f.index, i, m); }
      if Reserved(s, i) { ReservedStays(s, s', i); }
    }
  }

  lemma WriterKeeps<T>(s: State<T>, fail: bool)
    requires Inv(s) && s.writers != []
    ensures Inv(WriterStep(s, fail))
  {
    var f := Top(s);
    assert FrameOk(s, f);
    match f
    case Begin(e) => TopKeeps(s, Second(e, s.raw, |s.log|));
    case Second(e, cs, at1) =>
      if cs.full {
        TopKeeps(s, Done(e, false, false, |s.log|));
      } else {
        TopKeeps(s, Swap(e, cs, Advanced(s.raw, |s.buf|), at1, |s.log|));
      }
    case Swap(e, cs, _, _, _) =>
      if fail || s.raw != cs { TopKeeps(s, Begin(e)); } else { SwapKeeps(s); }
    case Copy(_, _, _) => CopyKeeps(s);
    case Done(_, _, _, _) =>
  }

  /** With no write in flight every unread slot is filled. */
  lemma ReadsNext<T>(s: State<T>)
    requires Inv(s) && s.writers == [] && |s.got| < |s.log|
    ensures Elem(s.buf, Slot(|s.got|, |s.buf|)) == s.log[|s.got|]
  {
  }

  /** A won compare-and-swap of the reader takes exactly the oldest element. */
  lemma TakeKeeps<T>(s: State<T>)
    requires Inv(s) && s.writers == [] && s.reader.RSwap? && s.raw == s.reader.cs
    ensures Inv(ReaderStep(s, false))
  {
    var r, m, t, n := s.reader, |s.buf|, |s.got|, |s.log|;
    WordUnique(t, r.at1, n, m);
    WordConsumed(t, n, m);
    var s' := ReaderStep(s, false);
    assert s'.got == s.log[..t + 1];
  }

  lemma LookKeeps<T>(s: State<T>, fail: bool)
    requires Inv(s) && s.writers == [] && s.reader.RCopy?
    ensures Inv(ReaderStep(s, fail))
  {
    var r := s.reader;
    WordEmpty(|s.got|, r.at1, |s.buf|);
    if !IsEmpty(r.cs) { ReadsNext(s); }
  }

  lemma ReaderKeeps<T>(s: State<T>, fail: bool)
    requires Inv(s) && s.writers == []
    ensures Inv(ReaderStep(s, fail))
  {
    match s.reader
    case RCopy(_, _, _, _) => LookKeeps(s, fail);
    case RSwap(_, cs, _, _, _) => if !fail && s.raw == cs { TakeKeeps(s); }
    case _ =>
  }

  lemma PushKeeps<T>(s: State<T>, e: T)
    requires Inv(s)
    ensures Inv(s.(writers := s.writers + [Begin(e)]))
  {
    var s' := s.(writers := s.writers + [Begin(e)]);
    forall j | 0 <= j < |s'.writers| ensures FrameOk(s', s'.writers[j]) {
      if j < |s.writers| { assert FrameOk(s, s.writers[j]); }
    }
    forall i | |s.got| <= i < |s.log| ensures Reserved(s', i) || s.buf[Slot(i, |s.buf|)] == s.log[i] {
      if Reserved(s, i) { ReservedStays(s, s', i); }
    }
  }

  lemma PopKeeps<T>(s: State<T>)
    requires Inv(s) && s.writers != [] && Top(s).Done?
    ensures Inv(Popped(s))
  {
    var s' := Popped(s);
    forall j | 0 <= j < |s'.writers| ensures FrameOk(s', s'.writers[j]) { assert FrameOk(s, s.writers[j]); }
    forall i | |s.got| <= i < |s.log| ensures Reserved(s', i) || s.buf[Slot(i, |s.buf|)] == s.log[i] {
      if Reserved(s, i) {
        var j :| 0 <= j < |s.writers| && s.writers[j].Copy? && s.writers[j].index == i;
        assert s'.writers[j].Copy? && s'.writers[j].index == i;
      }
    }
  }

  lemma StepInv<T>(s: State<T>, e: Event<T>)
    requires Inv(s) && Enabled(s, e)
    ensures Inv(Step(s, e))
  {
    match e
    case Write(x) => PushKeeps(s, x);
    case RunWriter(fail) => WriterKeeps(s, fail);
    case Return => PopKeeps(s);
    case RunReader(fail) => ReaderKeeps(s, fail);
    case _ =>
  }

  // ------------------------------------------------------------- progress

  /** `n` undisturbed steps of the reader. */
  ghost function ReadFor<T>(s: State<T>, n: nat): State<T>
    requires |s.buf| > 0
    decreases n
  {
    if n == 0 then s else ReadFor(ReaderStep(s, false), n - 1)
  }

  /** An undisturbed read returns the oldest element, and false only from an empty buffer. */
  lemma ReadTakes<T>(s: State<T>)
    requires Inv(s) && s.writers == [] && s.reader == RBegin
    ensures var t, n := |s.got|, |s.log|;
            if t == n then ReadFor(s, 3) == s.(reader := RDone(None, n))
            else ReadFor(s, 4) == s.(reader := RDone(Some(s.log[t]), n), got := s.got + [s.log[t]], raw := Word(t + 1, n, |s.buf|))
  {
    var t, n, m := |s.got|, |s.log|, |s.buf|;
    var s1 := ReaderStep(s, false);
    var s2 := ReaderStep(s1, false);
    var s3 := ReaderStep(s2, false);
    assert ReadFor(s, 3) == s3 && ReadFor(s, 4) == ReaderStep(s3, false);
    WordEmpty(t, n, m);
    if t < n {
      ReadsNext(s);
      WordConsumed(t, n, m);
    }
  }

  /** `n` undisturbed steps of the innermost write. */
  ghost function WriteFor<T>(s: State<T>, n: nat): State<T>
    requires s.writers != [] && |s.buf| > 0
    decreases n
  {
    if n == 0 then s else WriteFor(WriterStep(s, false), n - 1)
  }

  /**
   An undisturbed write puts its element behind all others and tells whether there were none; it is turned
   away only by a full buffer.
   */
  lemma WriteTakes<T>(s: State<T>)
    requires Inv(s) && s.writers != [] && Top(s).Begin?
    ensures var e, t, n, m := Top(s).e, |s.got|, |s.log|, |s.buf|;
            if n == t + m then WriteFor(s, 2) == WithTop(s, Done(e, false, false, n))
            else WriteFor(s, 4) == WithTop(s, Done(e, true, t == n, n)).(raw := Word(t, n + 1, m), log := s.log + [e], buf := s.buf[Slot(n, m) := e])
  {
    var e, t, n, m := Top(s).e, |s.got|, |s.log|, |s.buf|;
    var s1 := WriterStep(s, false);
    var s2 := WriterStep(s1, false);
    assert WriteFor(s, 2) == s2;
    if n < t + m {
      var s3 := WriterStep(s2, false);
      assert WriteFor(s, 4) == WriterStep(s3, false);
      WordAdvanced(t, n, m);
      WordEmpty(t, n, m);
    }
  }

  // --------------------------------------------------------- conservation

  /** A step of a write leaves log and slot alone, or gets both. */
  lemma WriterSlot<T>(s: State<T>, fail: bool)
    requires s.writers != [] && |s.buf| > 0
    ensures var f, s' := Top(s), WriterStep(s, fail);
            var f' := Top(s');
            && s'.writers == s.writers[..|s.writers| - 1] + [f'] && s'.written == s.written && f'.e == f.e
            && (if HasSlot(f) == HasSlot(f') then s'.log == s.log else HasSlot(f') && s'.log == s.log + [f.e])
  {
  }

  lemma WriterAccounted<T>(s: State<T>, fail: bool)
    requires Accounted(s) && s.writers != [] && |s.buf| > 0
    ensures Accounted(WriterStep(s, fail))
  {
    var f, fs, s' := Top(s), s.writers[..|s.writers| - 1], WriterStep(s, fail);
    assert s.writers == fs + [f];
    WriterSlot(s, fail);
    OwedPush(fs, f);
    OwedPush(fs, Top(s'));
  }

  lemma StepAccounted<T>(s: State<T>, e: Event<T>)
    requires Accounted(s) && Enabled(s, e)
    ensures Accounted(Step(s, e))
  {
    match e
    case Write(x) => OwedPush(s.writers, Begin(x));
    case RunWriter(fail) => WriterAccounted(s, fail);
    case Return => PoppedAccounted(s);
    case Read =>
    case RunReader(_) =>
    case ReadReturn =>
  }

  lemma OwedPush<T>(fs: seq<Frame<T>>, f: Frame<T>)
    ensures Owed(fs + [f]) == Owed(fs) + Own(f)
  {
    assert (fs + [f])[..|fs|] == fs;
  }

  lemma PoppedAccounted<T>(s: State<T>)
    requires Accounted(s) && s.writers != [] && Top(s).Done?
    ensures Accounted(Popped(s))
  {
    var fs, f := s.writers[..|s.writers| - 1], Top(s);
    assert s.writers == fs + [f];
    OwedPush(fs, f);
  }

  // ----------------------------------------------------------------- runs

  ghost predicate Legal<T>(s: State<T>, es: seq<Event<T>>)
    decreases |es|
  {
    es == [] || (Enabled(s, es[0]) && Legal(Step(s, es[0]), es[1..]))
  }

  ghost function RunAll<T>(s: State<T>, es: seq<Event<T>>): State<T>
    requires Legal(s, es)
    decreases |es|
  {
    if es == [] then s else RunAll(Step(s, es[0]), es[1..])
  }

  lemma {:induction false} RunInv<T>(s: State<T>, es: seq<Event<T>>)
    requires Inv(s) && Accounted(s) && Legal(s, es)
    ensures Inv(RunAll(s, es)) && Accounted(RunAll(s, es))
    decreases |es|
  {
    if es != [] {
      StepInv(s, es[0]);
      StepAccounted(s, es[0]);
      RunInv(Step(s, es[0]), es[1..]);
    }
  }

  /** Two reservations in flight never share a slot, nor does one share a slot with an unread element. */
  ghost predicate NoOverlap<T>(s: State<T>)
    requires |s.buf| > 0
  {
    forall j, i | 0 <= j < |s.writers| && s.writers[j].Copy? && |s.got| <= i < |s.log| && i != s.writers[j].index ::
      s.writers[j].cs.writePos != Slot(i, |s.buf|)
  }

  lemma InvNoOverlap<T>(s: State<T>)
    requires Inv(s)
    ensures NoOverlap(s)
  {
    forall j, i | 0 <= j < |s.writers| && s.writers[j].Copy? && |s.got| <= i < |s.log| && i != s.writers[j].index
      ensures s.writers[j].cs.writePos != Slot(i, |s.buf|)
    {
      var f := s.writers[j];
      assert FrameOk(s, f);
      if i < f.index { SlotsApart(i, f.index, |s.buf|); } else { SlotsApart(f.index, i, |s.buf|); }
    }
  }

  /**
   A write that is turned away meets a full buffer; one that succeeds has put its element there and says
   that the buffer was empty iff that element is the first one in it.
   */
  ghost predicate WriteTold<T>(s: State<T>, f: Frame<T>) {
    f.Done? ==>
      if f.ok then f.index < |s.log| && s.log[f.index] == f.e && (f.wasEmpty <==> f.index == |s.got|)
      else |s.log| == |s.got| + |s.buf|
  }

  /** A read that fails had found the buffer empty. */
  ghost predicate ReadTold<T>(s: State<T>) {
    s.reader.RDone? && s.reader.result.None? ==> s.reader.at1 == |s.got|
  }

  lemma AllTold<T>(s: State<T>)
    requires Inv(s)
    ensures (forall f | f in s.writers :: WriteTold(s, f)) && ReadTold(s)
  {
    forall f | f in s.writers ensures WriteTold(s, f) {
      var j :| 0 <= j < |s.writers| && s.writers[j] == f;
      assert FrameOk(s, s.writers[j]);
    }
  }

  /**
   In every run: what was read is a prefix of what was reserved, in that order, and the rest is what the
   state word counts; reservations in flight overlap nothing unread; the reserved elements are those of the
   writes that succeeded or are bound to, and the elements read those that reads have returned or are about
   to; writes and reads report what they met; with no write in flight all that is unread lies in the buffer.
   */
  lemma FirstInFirstOut<T>(buf: seq<T>, es: seq<Event<T>>)
    requires 0 < |buf| <= MAX_ELEMS && Legal(Initial(buf), es)
    ensures var s := RunAll(Initial(buf), es);
            && Counts(s) && s.got <= s.log && s.raw == Word(|s.got|, |s.log|, |s.buf|) && NoOverlap(s)
            && multiset(s.log) == multiset(s.written) + Owed(s.writers)
            && s.got == s.returned + Taken(s.reader)
            && (forall f | f in s.writers :: WriteTold(s, f)) && ReadTold(s)
            && (s.writers == [] ==> forall i | |s.got| <= i < |s.log| :: s.buf[Slot(i, |s.buf|)] == s.log[i])
  {
    InitialInv(buf);
    RunInv(Initial(buf), es);
    InvNoOverlap(RunAll(Initial(buf), es));
    AllTold(RunAll(Initial(buf), es));
  }
}
