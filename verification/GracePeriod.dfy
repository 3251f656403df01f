/** Grace periods with two parity-selected exit counters and a wakeup semaphore
    (runtime/src/Base/SingleWriterSynchronizer.h, .cpp, Semaphore.h).

    Every atomic access is one step. Any number of readers enter and exit; writers are serialized,
    so one writer repeats `Synchronize`. Counters are 32-bit and wrap around. */
module GracePeriod {

  import opened Common

  type Word = x: int | 0 <= x < 0x1_0000_0000

  /** `Inside(entered)` holds the value returned by Enter; `Exited` has bumped an exit counter and
      not yet compared it with `waitingFor`; `Signalling` has found them equal, at the value it reached. */
  datatype Reader = Inside(entered: Word) | Exited(exited: Word) | Signalling(reached: Word) | Gone

  /** Where the writer is in Synchronize. `side` is the exit counter chosen from the first load. */
  datatype Writer =
    | Idle
    | Loaded(value: Word, side: nat)
    | Stored(value: Word, side: nat)
    | Swapped(old_: Word)
    | Checking(old_: Word)
    | Waiting(old_: Word)
    | Draining

  type ReaderId = nat

  datatype State = State(
    enter: Word,
    exits: seq<Word>,
    waitingFor: Word,
    count: nat,
    readers: map<ReaderId, Reader>,
    writer: Writer)

  datatype Step =
    | Enter(r: ReaderId)
    | ExitAdd(r: ReaderId)
    | ExitCompare(r: ReaderId)
    | ExitSignal(r: ReaderId)
    | Load
    | StoreExit
    | CompareExchange
    | StoreWaiting
    | Check
    | Wait
    | TryWait

  /** 32-bit addition of a small number, with wrap-around. */
  function Plus(w: Word, n: nat): Word
    requires n < 0x1_0000_0000
  {
    if w + n < 0x1_0000_0000 then w + n else w + n - 0x1_0000_0000
  }

  /** The readers inside the section whose exit counter has parity `p`. */
  function InsideOf(readers: map<ReaderId, Reader>, p: int): set<ReaderId> {
    set r | r in readers && readers[r].Inside? && readers[r].entered % 2 == p
  }

  function Readers(s: State): set<ReaderId> {
    InsideOf(s.readers, 0) + InsideOf(s.readers, 1)
  }

  predicate Init(s: State) {
    s == State(0, [0, 0], 1, 0, map[], Idle)
  }

  /** Reader ids are never reused, so an id is one Enter/Exit pair. Fewer than 2^31 readers are ever
      inside at once. */
  predicate Enabled(s: State, step: Step)
    requires |s.exits| == 2
  {
    match step
    case Enter(r) => r !in s.readers && |Readers(s)| + 1 < 0x8000_0000
    case ExitAdd(r) => r in s.readers && s.readers[r].Inside?
    case ExitCompare(r) => r in s.readers && s.readers[r].Exited?
    case ExitSignal(r) => r in s.readers && s.readers[r].Signalling?
    case Load => s.writer.Idle?
    case StoreExit => s.writer.Loaded? && s.writer.side < 2
    case CompareExchange => s.writer.Stored?
    case StoreWaiting => s.writer.Swapped?
    case Check => s.writer.Checking?
    case Wait => s.writer.Waiting? && s.count > 0
    case TryWait => s.writer.Draining?
  }

  function Apply(s: State, step: Step): (s': State)
    requires |s.exits| == 2 && Enabled(s, step)
    ensures |s'.exits| == 2
  {
    match step
    case Enter(r) =>
      var e := Plus(s.enter, 2);
      s.(enter := e, readers := s.readers[r := Inside(e)])
    case ExitAdd(r) =>
      var p := s.readers[r].entered % 2;
      var x := Plus(s.exits[p], 2);
      s.(exits := s.exits[p := x], readers := s.readers[r := Exited(x)])
    case ExitCompare(r) =>
      s.(readers := s.readers[r := if s.readers[r].exited == s.waitingFor then Signalling(s.waitingFor) else Gone])
    case ExitSignal(r) =>
      s.(count := s.count + 1, readers := s.readers[r := Gone])
    case Load =>
      s.(writer := Loaded(s.enter, Plus(s.enter, 1) % 2))
    case StoreExit =>
      s.(exits := s.exits[s.writer.side := Plus(s.writer.value, 1)], writer := Stored(s.writer.value, s.writer.side))
    case CompareExchange =>
      if s.enter == s.writer.value then
        s.(enter := Plus(s.enter, 1), writer := Swapped(s.writer.value))
      else
        s.(writer := Loaded(s.enter, s.writer.side))
    case StoreWaiting =>
      s.(waitingFor := s.writer.old_, writer := Checking(s.writer.old_))
    case Check =>
      s.(writer := if s.exits[s.writer.old_ % 2] == s.writer.old_ then Draining else Waiting(s.writer.old_))
    case Wait =>
      s.(count := s.count - 1, writer := Checking(s.writer.old_))
    case TryWait =>
      if s.count > 0 then s.(count := s.count - 1) else s.(writer := Idle)
  }

  // ---- the invariant ---------------------------------------------------------------------------

  /** An exiter that brought the counter to `old_` and has not signalled yet. */
  predicate LateExiter(s: State, r: ReaderId, old_: Word) {
    r in s.readers && (s.readers[r] == Exited(old_) || s.readers[r] == Signalling(old_))
  }

  /** What keeps the blocked writer from sleeping forever. */
  ghost predicate WillWake(s: State, old_: Word) {
    InsideOf(s.readers, old_ % 2) != {} || (exists r :: LateExiter(s, r, old_)) || s.count > 0
  }

  /** The readers inside, by parity. */
  function Counts(s: State): (n: seq<nat>)
    ensures |n| == 2
  {
    [|InsideOf(s.readers, 0)|, |InsideOf(s.readers, 1)|]
  }

  /** An exit counter plus two for every reader still inside with its parity. */
  function Owed(x: Word, n: nat): Word
    requires n < 0x8000_0000
  {
    Plus(x, 2 * n)
  }

  /** The counters account for the readers inside: those of the current parity always, those of the
      other parity from the exchange until they have all left. */
  ghost predicate Accounted(enter: Word, exits: seq<Word>, writer: Writer, n: seq<nat>) {
    && |exits| == 2 && |n| == 2 && n[0] < 0x8000_0000 && n[1] < 0x8000_0000
    && var cur := enter % 2;
    && Owed(exits[cur], n[cur]) == enter
    && match writer
       case Idle => n[1 - cur] == 0
       case Draining => n[1 - cur] == 0
       case Loaded(v, side) => side == 1 - cur && v % 2 == cur && n[1 - cur] == 0
       case Stored(v, side) => side == 1 - cur && v % 2 == cur && n[1 - cur] == 0 && exits[1 - cur] == Plus(v, 1)
       case Swapped(old_) => old_ % 2 == 1 - cur && Owed(exits[1 - cur], n[1 - cur]) == old_
       case Checking(old_) => old_ % 2 == 1 - cur && Owed(exits[1 - cur], n[1 - cur]) == old_
       case Waiting(old_) => old_ % 2 == 1 - cur && Owed(exits[1 - cur], n[1 - cur]) == old_
  }

  ghost predicate Announced(s: State) {
    && (s.writer.Checking? || s.writer.Waiting? ==> s.waitingFor == s.writer.old_)
    && (s.writer.Waiting? ==> WillWake(s, s.writer.old_))
  }

  ghost predicate Inv(s: State) {
    |Readers(s)| < 0x8000_0000 && Accounted(s.enter, s.exits, s.writer, Counts(s)) && Announced(s)
  }

  lemma InitInv(s: State)
    requires Init(s)
    ensures Inv(s)
  {
    assert InsideOf(s.readers, 0) == {} && InsideOf(s.readers, 1) == {};
  }

  // ---- readers ---------------------------------------------------------------------------------

  /** A reader that comes in or goes out changes exactly its own parity. */
  lemma InsideChanges(m: map<ReaderId, Reader>, r: ReaderId, to: Reader, p: int)
    ensures InsideOf(m[r := to], p) == InsideOf(m, p) - {r} + (if to.Inside? && to.entered % 2 == p then {r} else {})
  {
  }

  lemma Joins(m: map<ReaderId, Reader>, r: ReaderId, e: Word)
    requires r !in m
    ensures |InsideOf(m[r := Inside(e)], e % 2)| == |InsideOf(m, e % 2)| + 1
    ensures InsideOf(m[r := Inside(e)], 1 - e % 2) == InsideOf(m, 1 - e % 2)
  {
    var k, p := m[r := Inside(e)], e % 2;
    assert r !in InsideOf(m, p);
    assert InsideOf(k, p) == InsideOf(m, p) + {r};
    assert InsideOf(k, 1 - p) == InsideOf(m, 1 - p);
  }

  lemma Leaves(m: map<ReaderId, Reader>, r: ReaderId, to: Reader)
    requires r in m && m[r].Inside? && !to.Inside?
    ensures var p := m[r].entered % 2;
      && |InsideOf(m, p)| > 0 && |InsideOf(m[r := to], p)| == |InsideOf(m, p)| - 1
      && InsideOf(m[r := to], 1 - p) == InsideOf(m, 1 - p)
  {
    var p := m[r].entered % 2;
    InsideChanges(m, r, to, p);
    InsideChanges(m, r, to, 1 - p);
    assert r in InsideOf(m, p);
  }

  lemma StaysOut(m: map<ReaderId, Reader>, r: ReaderId, to: Reader, p: int)
    requires !to.Inside? && (r in m ==> !m[r].Inside?)
    ensures InsideOf(m[r := to], p) == InsideOf(m, p)
  {
  }

  lemma PlusParity(w: Word)
    ensures Plus(w, 2) % 2 == w % 2 && Plus(w, 1) % 2 == 1 - w % 2
  {
  }

  lemma CountsEnter(s: State, r: ReaderId, e: Word)
    requires r !in s.readers
    ensures Counts(s.(readers := s.readers[r := Inside(e)])) == Counts(s)[e % 2 := Counts(s)[e % 2] + 1]
  {
    Joins(s.readers, r, e);
  }

  lemma JoinsAll(m: map<ReaderId, Reader>, r: ReaderId, e: Word)
    ensures |InsideOf(m[r := Inside(e)], 0) + InsideOf(m[r := Inside(e)], 1)| <= |InsideOf(m, 0) + InsideOf(m, 1)| + 1
    ensures |InsideOf(m, e % 2)| <= |InsideOf(m, 0) + InsideOf(m, 1)|
  {
    var k := m[r := Inside(e)];
    SubsetSize(InsideOf(m, e % 2), InsideOf(m, 0) + InsideOf(m, 1));
    assert InsideOf(k, 0) + InsideOf(k, 1) <= InsideOf(m, 0) + InsideOf(m, 1) + {r};
    SubsetSize(InsideOf(k, 0) + InsideOf(k, 1), InsideOf(m, 0) + InsideOf(m, 1) + {r});
  }

  lemma AccountedEnter(enter: Word, exits: seq<Word>, writer: Writer, n: seq<nat>)
    requires Accounted(enter, exits, writer, n) && n[enter % 2] + 1 < 0x8000_0000
    ensures Accounted(Plus(enter, 2), exits, writer, n[enter % 2 := n[enter % 2] + 1])
  {
  }

  lemma AccountedAfterEnter(s: State, r: ReaderId)
    requires Accounted(s.enter, s.exits, s.writer, Counts(s)) && Enabled(s, Enter(r))
    ensures var s' := Apply(s, Enter(r)); Accounted(s'.enter, s'.exits, s'.writer, Counts(s'))
  {
    var s' := Apply(s, Enter(r));
    PlusParity(s.enter);
    CountsEnter(s, r, s'.enter);
    JoinsAll(s.readers, r, s'.enter);
    AccountedEnter(s.enter, s.exits, s.writer, Counts(s));
  }

  lemma EnterInv(s: State, r: ReaderId)
    requires Inv(s) && Enabled(s, Enter(r))
    ensures Inv(Apply(s, Enter(r)))
  {
    var s' := Apply(s, Enter(r));
    assert |Readers(s')| < 0x8000_0000 by { JoinsAll(s.readers, r, s'.enter); }
    AccountedAfterEnter(s, r);
    if s.writer.Waiting? { StillWakes(s, s', r); }
  }

  /** Other readers that were inside or about to signal still are. */
  lemma StillWakes(s: State, s': State, r: ReaderId)
    requires s.writer.Waiting? && WillWake(s, s.writer.old_) && s'.count >= s.count
    requires forall q :: q in s.readers && q != r ==> q in s'.readers && s'.readers[q] == s.readers[q]
    requires r in s.readers && (LateExiter(s, r, s.writer.old_) || s.readers[r].Inside?) ==>
      LateExiter(s', r, s.writer.old_) || s'.count > s.count
    ensures WillWake(s', s.writer.old_)
  {
    var old_ := s.writer.old_;
    if q :| LateExiter(s, q, old_) {
      assert q != r ==> LateExiter(s', q, old_);
    }
    if q :| q in InsideOf(s.readers, old_ % 2) {
      assert q != r ==> q in InsideOf(s'.readers, old_ % 2);
    }
  }

  lemma CountsExit(s: State, r: ReaderId)
    requires |s.exits| == 2 && Enabled(s, ExitAdd(r))
    ensures var s', p := Apply(s, ExitAdd(r)), s.readers[r].entered % 2;
      Counts(s)[p] > 0 && Counts(s') == Counts(s)[p := Counts(s)[p] - 1] && |Readers(s')| <= |Readers(s)|
  {
    var s' := Apply(s, ExitAdd(r));
    Leaves(s.readers, r, s'.readers[r]);
    assert Readers(s') <= Readers(s);
    SubsetSize(Readers(s'), Readers(s));
  }

  lemma AccountedExit(enter: Word, exits: seq<Word>, writer: Writer, n: seq<nat>, p: int)
    requires Accounted(enter, exits, writer, n) && 0 <= p < 2 && n[p] > 0
    ensures Accounted(enter, exits[p := Plus(exits[p], 2)], writer, n[p := n[p] - 1])
  {
  }

  lemma ExitAddInv(s: State, r: ReaderId)
    requires Inv(s) && Enabled(s, ExitAdd(r))
    ensures Inv(Apply(s, ExitAdd(r)))
  {
    CountsExit(s, r);
    AccountedExit(s.enter, s.exits, s.writer, Counts(s), s.readers[r].entered % 2);
    if s.writer.Waiting? { LastExiter(s, r); }
  }

  /** The reader that leaves the old parity empty has brought its counter to what the writer waits for. */
  lemma LastExiter(s: State, r: ReaderId)
    requires Inv(s) && s.writer.Waiting? && Enabled(s, ExitAdd(r))
    ensures WillWake(Apply(s, ExitAdd(r)), s.writer.old_)
  {
    var s', old_, p := Apply(s, ExitAdd(r)), s.writer.old_, s.readers[r].entered % 2;
    CountsExit(s, r);
    if InsideOf(s'.readers, old_ % 2) == {} {
      if p == old_ % 2 {
        assert Counts(s')[p] == 0 && Owed(s.exits[p], 1) == old_;
        assert LateExiter(s', r, old_);
      } else {
        OtherParityExit(s, r);
      }
    }
  }

  lemma OtherParityExit(s: State, r: ReaderId)
    requires |s.exits| == 2 && s.writer.Waiting? && WillWake(s, s.writer.old_) && Enabled(s, ExitAdd(r))
    requires s.readers[r].entered % 2 != s.writer.old_ % 2
    ensures WillWake(Apply(s, ExitAdd(r)), s.writer.old_)
  {
    var s', old_ := Apply(s, ExitAdd(r)), s.writer.old_;
    InsideChanges(s.readers, r, s'.readers[r], old_ % 2);
    if q :| LateExiter(s, q, old_) {
      assert LateExiter(s', q, old_);
    }
  }

  lemma ExiterInv(s: State, r: ReaderId, step: Step)
    requires Inv(s) && Enabled(s, step) && (step == ExitCompare(r) || step == ExitSignal(r))
    ensures Inv(Apply(s, step))
  {
    var s' := Apply(s, step);
    StaysOut(s.readers, r, s'.readers[r], 0);
    StaysOut(s.readers, r, s'.readers[r], 1);
    if s.writer.Waiting? { StillWakes(s, s', r); }
  }

  // ---- the writer ------------------------------------------------------------------------------

  /** Equal counters mean that nobody is inside: with fewer than 2^31 readers, twice their number
      cannot wrap around to zero. */
  lemma BalancedMeansEmpty(x: Word, n: nat)
    requires n < 0x8000_0000
    ensures Owed(x, n) == x <==> n == 0
  {
  }

  lemma WriterAccounted(s: State, step: Step)
    requires Accounted(s.enter, s.exits, s.writer, Counts(s)) && Enabled(s, step) && WriterStep(step)
    ensures var s' := Apply(s, step); Accounted(s'.enter, s'.exits, s'.writer, Counts(s))
  {
    var cur := s.enter % 2;
    if step.Check? {
      BalancedMeansEmpty(s.exits[1 - cur], Counts(s)[1 - cur]);
    }
  }

  predicate WriterStep(step: Step) {
    step.Load? || step.StoreExit? || step.CompareExchange? || step.StoreWaiting? || step.Check? || step.Wait? ||
      step.TryWait?
  }

  lemma WriterInv(s: State, step: Step)
    requires Inv(s) && Enabled(s, step) && WriterStep(step)
    ensures Inv(Apply(s, step))
  {
    WriterAccounted(s, step);
    var s' := Apply(s, step);
    assert s'.readers == s.readers;
    if s'.writer.Waiting? {
      var p := s.writer.old_ % 2;
      BalancedMeansEmpty(s.exits[p], Counts(s)[p]);
      assert InsideOf(s'.readers, p) != {};
    }
  }

  lemma StepInv(s: State, step: Step)
    requires Inv(s) && Enabled(s, step)
    ensures Inv(Apply(s, step))
  {
    match step {
      case Enter(r) => EnterInv(s, r);
      case ExitAdd(r) => ExitAddInv(s, r);
      case ExitCompare(r) => ExiterInv(s, r, step);
      case ExitSignal(r) => ExiterInv(s, r, step);
      case _ => WriterInv(s, step);
    }
  }

  // ---- runs ------------------------------------------------------------------------------------

  /** `ss[i]` is the state before step `i`. */
  ghost predicate IsRun(ss: seq<State>, steps: seq<Step>) {
    && |ss| == |steps| + 1 && Init(ss[0])
    && forall i {:trigger steps[i]} :: 0 <= i < |steps| ==>
      |ss[i].exits| == 2 && Enabled(ss[i], steps[i]) && ss[i + 1] == Apply(ss[i], steps[i])
  }

  lemma {:induction false} RunInv(ss: seq<State>, steps: seq<Step>, i: nat)
    requires IsRun(ss, steps) && i < |ss|
    ensures Inv(ss[i])
  {
    if i == 0 {
      InitInv(ss[0]);
    } else {
      RunInv(ss, steps, i - 1);
      StepInv(ss[i - 1], steps[i - 1]);
    }
  }

  /** Step `i` is the exchange that flips the parity of the enter counter. */
  ghost predicate Flips(ss: seq<State>, steps: seq<Step>, i: nat)
    requires IsRun(ss, steps) && i < |steps|
  {
    steps[i] == CompareExchange && ss[i + 1].writer.Swapped?
  }

  /** A reader is inside only for one stretch, with the value it entered with. */
  lemma {:induction false} InsideOnce(ss: seq<State>, steps: seq<Step>, i: nat, j: nat, r: ReaderId)
    requires IsRun(ss, steps) && i <= j < |ss| && r in ss[i].readers
    ensures r in ss[j].readers && (ss[j].readers[r].Inside? ==> ss[j].readers[r] == ss[i].readers[r])
  {
    if i < j {
      InsideOnce(ss, steps, i, j - 1, r);
      assert ss[j] == Apply(ss[j - 1], steps[j - 1]);
    }
  }

  lemma {:induction false} ParityKept(ss: seq<State>, steps: seq<Step>, i: nat, j: nat)
    requires IsRun(ss, steps) && i <= j < |ss|
    requires forall k :: i <= k < j ==> !Flips(ss, steps, k)
    ensures ss[j].enter % 2 == ss[i].enter % 2
  {
    if i < j {
      ParityKept(ss, steps, i, j - 1);
      assert !Flips(ss, steps, j - 1);
      var s := ss[j - 1];
      assert ss[j] == Apply(s, steps[j - 1]);
      PlusParity(s.enter);
    }
  }

  /** Grace period: once Synchronize is past its wait, every reader that was inside when it flipped
      the parity has exited, whatever signals arrived in the meantime. */
  lemma {:induction false} GracePeriodHolds(ss: seq<State>, steps: seq<Step>, i: nat, j: nat, r: ReaderId)
    requires IsRun(ss, steps) && i < j < |ss| && Flips(ss, steps, i)
    requires forall k :: i < k < j ==> !Flips(ss, steps, k)
    requires ss[j].writer.Draining? || ss[j].writer.Idle?
    requires r in ss[i].readers && ss[i].readers[r].Inside?
    ensures r in ss[j].readers && !ss[j].readers[r].Inside?
  {
    RunInv(ss, steps, i);
    RunInv(ss, steps, j);
    InsideOnce(ss, steps, i, j, r);
    ParityKept(ss, steps, i + 1, j);
    assert ss[i + 1] == Apply(ss[i], steps[i]);
    PlusParity(ss[i].enter);
    var cur := ss[i].enter % 2;
    assert InsideOf(ss[i].readers, 1 - cur) == {} && InsideOf(ss[j].readers, cur) == {};
    assert r in InsideOf(ss[i].readers, cur) by {
      assert r !in InsideOf(ss[i].readers, 1 - cur);
    }
    assert r !in InsideOf(ss[j].readers, cur);
  }

  /** From its load on the writer is before its exchange until a step flips the parity. */
  lemma {:induction false} LastFlip(ss: seq<State>, steps: seq<Step>, i: nat, j: nat) returns (flipped: bool, k: nat)
    requires IsRun(ss, steps) && i < j < |ss| && steps[i] == Load
    ensures !flipped ==> ss[j].writer.Loaded? || ss[j].writer.Stored?
    ensures flipped ==> i < k < j && Flips(ss, steps, k) && forall m :: k < m < j ==> !Flips(ss, steps, m)
  {
    if j == i + 1 {
      assert ss[j] == Apply(ss[i], steps[i]);
      flipped, k := false, 0;
    } else {
      flipped, k := LastFlip(ss, steps, i, j - 1);
      assert ss[j] == Apply(ss[j - 1], steps[j - 1]);
      if Flips(ss, steps, j - 1) {
        flipped, k := true, j - 1;
      }
    }
  }

  /** What a caller of Synchronize gets: when the call returns, every reader that was inside when the call
      began has left, whatever exchanges failed in between. */
  lemma SynchronizeWaits(ss: seq<State>, steps: seq<Step>, i: nat, j: nat, r: ReaderId)
    requires IsRun(ss, steps) && i < j < |ss| && steps[i] == Load && ss[j].writer.Idle?
    requires r in ss[i].readers && ss[i].readers[r].Inside?
    ensures r in ss[j].readers && !ss[j].readers[r].Inside?
  {
    var flipped, k := LastFlip(ss, steps, i, j);
    InsideOnce(ss, steps, i, k, r);
    InsideOnce(ss, steps, k, j, r);
    if ss[k].readers[r].Inside? {
      GracePeriodHolds(ss, steps, k, j, r);
    }
  }

  /** A call that returns has found the semaphore empty: no signal of its own round is left to a later one that
      was given before. */
  lemma ReturnsDrained(ss: seq<State>, steps: seq<Step>, i: nat)
    requires IsRun(ss, steps) && i < |steps| && !ss[i].writer.Idle? && ss[i + 1].writer.Idle?
    ensures steps[i] == TryWait && ss[i].count == 0 && ss[i + 1].count == 0
  {
    assert ss[i + 1] == Apply(ss[i], steps[i]);
  }

  /** Whoever signals has brought an exit counter to the value that was awaited when it compared. */
  lemma {:induction false} SignalIsDeserved(ss: seq<State>, steps: seq<Step>, i: nat, r: ReaderId) returns (k: nat)
    requires IsRun(ss, steps) && i < |ss| && r in ss[i].readers && ss[i].readers[r].Signalling?
    ensures k < i && steps[k] == ExitCompare(r) && r in ss[k].readers
    ensures ss[k].readers[r] == Exited(ss[i].readers[r].reached) && ss[k].waitingFor == ss[i].readers[r].reached
  {
    if i == 0 {
      assert false;
    } else {
      assert ss[i] == Apply(ss[i - 1], steps[i - 1]);
      if steps[i - 1] == ExitCompare(r) {
        k := i - 1;
      } else {
        k := SignalIsDeserved(ss, steps, i - 1, r);
      }
    }
  }

  /** No lost wakeup, in every reachable state. */
  lemma NoLostWakeup(ss: seq<State>, steps: seq<Step>, i: nat)
    requires IsRun(ss, steps) && i < |ss| && ss[i].writer.Waiting?
    ensures WillWake(ss[i], ss[i].writer.old_)
  {
    RunInv(ss, steps, i);
  }

  // ---- the writer can always finish ------------------------------------------------------------

  /** The steps can be taken one after the other from `s`. */
  ghost predicate Leads(s: State, steps: seq<Step>, t: State)
    decreases |steps|
  {
    if steps == [] then s == t
    else |s.exits| == 2 && Enabled(s, steps[0]) && Leads(Apply(s, steps[0]), steps[1..], t)
  }

  function InPhase(s: State, exited: bool): set<ReaderId> {
    set r | r in s.readers && (if exited then s.readers[r].Exited? else s.readers[r].Signalling?)
  }

  function Rank(s: State): nat {
    match s.writer
    case Idle => 0
    case Loaded(v, _) => if v == s.enter then 7 else 9
    case Stored(v, _) => if v == s.enter then 6 else 8
    case Swapped(_) => 3
    case Checking(_) => 2
    case Waiting(_) => 1
    case Draining => 1
  }

  /** A step that brings the writer closer to returning, needing no new reader. */
  lemma Helpful(s: State) returns (step: Step)
    requires Inv(s) && !s.writer.Idle?
    ensures Enabled(s, step) && !step.Enter? && Less(Apply(s, step), s)
  {
    match s.writer {
      case Loaded(_, _) => step := StoreExit;
      case Stored(_, _) => step := CompareExchange;
      case Swapped(_) => step := StoreWaiting;
      case Checking(_) => step := Check;
      case Draining => step := TryWait;
      case Waiting(old_) =>
        if s.count > 0 {
          step := Wait;
        } else if InsideOf(s.readers, old_ % 2) != {} {
          var r :| r in InsideOf(s.readers, old_ % 2);
          step := ExitAdd(r);
          Leaves(s.readers, r, Apply(s, step).readers[r]);
        } else {
          var r :| LateExiter(s, r, old_);
          step := if s.readers[r].Signalling? then ExitSignal(r) else ExitCompare(r);
          ExiterDecreases(s, r, step);
        }
    }
    if WriterStep(step) { WriterDecreases(s, step); }
  }

  function BeforeFlip(s: State): nat { if s.writer.Loaded? || s.writer.Stored? then 1 else 0 }

  function Others(s: State): nat { |InsideOf(s.readers, 1 - s.enter % 2)| }

  /** From every reachable state there is a finite schedule, without any new reader, in which the
      running Synchronize returns: the protocol cannot deadlock. */
  lemma CanReturn(s: State) returns (steps: seq<Step>, t: State)
    requires Inv(s)
    ensures Leads(s, steps, t) && t.writer.Idle? && forall i :: 0 <= i < |steps| ==> !steps[i].Enter?
    decreases BeforeFlip(s), Others(s), |InPhase(s, true)|, |InPhase(s, false)|, s.count, Rank(s)
  {
    if s.writer.Idle? {
      steps, t := [], s;
    } else {
      var step := Helpful(s);
      var s' := Apply(s, step);
      StepInv(s, step);
      var rest;
      rest, t := CanReturn(s');
      steps := [step] + rest;
    }
  }

  ghost predicate Less(s': State, s: State) {
    || BeforeFlip(s') < BeforeFlip(s)
    || (BeforeFlip(s') == BeforeFlip(s) &&
        (|| Others(s') < Others(s)
         || (Others(s') == Others(s) &&
             (|| |InPhase(s', true)| < |InPhase(s, true)|
              || (InPhase(s', true) == InPhase(s, true) &&
                  (|| |InPhase(s', false)| < |InPhase(s, false)|
                   || (InPhase(s', false) == InPhase(s, false) &&
                       (s'.count < s.count || (s'.count == s.count && Rank(s') < Rank(s))))))))))
  }

  lemma ExiterDecreases(s: State, r: ReaderId, step: Step)
    requires |s.exits| == 2 && s.writer.Waiting? && Enabled(s, step)
    requires (step == ExitCompare(r) || step == ExitSignal(r))
    ensures Less(Apply(s, step), s)
  {
    var s' := Apply(s, step);
    StaysOut(s.readers, r, s'.readers[r], 1 - s.enter % 2);
    if step.ExitCompare? {
      assert InPhase(s', true) == InPhase(s, true) - {r} && r in InPhase(s, true);
    } else {
      assert InPhase(s', true) == InPhase(s, true);
      assert InPhase(s', false) == InPhase(s, false) - {r} && r in InPhase(s, false);
    }
  }

  lemma WriterDecreases(s: State, step: Step)
    requires |s.exits| == 2 && !s.writer.Idle? && Enabled(s, step) && WriterStep(step)
    ensures Less(Apply(s, step), s)
  {
    var s' := Apply(s, step);
    assert InPhase(s', true) == InPhase(s, true) && InPhase(s', false) == InPhase(s, false);
  }
}
