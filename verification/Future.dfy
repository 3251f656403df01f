/** Ownership of a task's future (FutureImpl, UserFuncExecutor, GetTaskRetWithTimeout and ReleaseHandle
    in runtime/src/CangjieRuntimeApi.cpp).

    One executor, any number of waits, one release, interleaved step by step; locks are held from a
    step to a later one. The owner starts the release when no wait is under way, and no wait starts
    after it. Sleeping waits may wake at any time, and time out at any time if they were given a timeout. */
module Future {

  import opened Common

  type Value = int

  type CallId = nat

  datatype Flag = Waiting | Done | Released

  datatype Result = Got(v: Value) | BadArgs | Timeout

  /** `Unlocking` remembers whether this side has to delete the future. */
  datatype Executor = Running | Locking(v: Value) | Inside(v: Value) | Unlocking(mine: bool) | Deleting | Ended

  datatype Release = Idle | Looking | Locks | Holds | Unlocks(mine: bool) | Deletes | Finished

  datatype Wait = Checks | Enters | Within | Sleeps | Leaves(result: Result) | Returned(result: Result)

  datatype Who = TheExecutor | TheRelease | TheWait(c: CallId)

  /** `alive` says that the future has not been deleted, `deletions` counts how often it was; `timed` are the waits
      that were given a timeout. */
  datatype State = State(
    alive: bool, deletions: nat, member: bool,
    flag: Flag, res: Option<Value>, lock: Option<Who>,
    executor: Executor, release: Release, waits: map<CallId, Wait>, timed: set<CallId>,
    computed: Option<Value>)

  datatype Step =
    | Compute(v: Value)
    | ExecutorLock
    | ExecutorStore
    | ExecutorUnlock
    | ExecutorDelete
    | ReleaseStart
    | ReleaseLook
    | ReleaseLock
    | ReleaseMark
    | ReleaseUnlock
    | ReleaseDelete
    | WaitStart(c: CallId, limited: bool)
    | WaitLook(c: CallId)
    | WaitLock(c: CallId)
    | WaitTest(c: CallId)
    | WaitWake(c: CallId)
    | WaitExpire(c: CallId)
    | WaitUnlock(c: CallId)

  predicate Init(s: State) {
    s == State(true, 0, true, Waiting, None, None, Running, Idle, map[], {}, None)
  }

  predicate In(s: State, c: CallId, w: Wait) {
    c in s.waits && s.waits[c] == w
  }

  ghost predicate NoneWaiting(s: State) {
    forall c <- s.waits :: s.waits[c].Returned?
  }

  ghost predicate Enabled(s: State, step: Step) {
    match step
    case Compute(_) => s.executor.Running?
    case ExecutorLock => s.executor.Locking? && s.lock.None?
    case ExecutorStore => s.executor.Inside?
    case ExecutorUnlock => s.executor.Unlocking?
    case ExecutorDelete => s.executor.Deleting?
    case ReleaseStart => s.release.Idle? && NoneWaiting(s)
    case ReleaseLook => s.release.Looking?
    case ReleaseLock => s.release.Locks? && s.lock.None?
    case ReleaseMark => s.release.Holds?
    case ReleaseUnlock => s.release.Unlocks?
    case ReleaseDelete => s.release.Deletes?
    case WaitStart(c, _) => c !in s.waits && s.release.Idle?
    case WaitLook(c) => In(s, c, Checks)
    case WaitLock(c) => In(s, c, Enters) && s.lock.None?
    case WaitTest(c) => In(s, c, Within)
    case WaitWake(c) => In(s, c, Sleeps) && s.lock.None?
    case WaitExpire(c) => In(s, c, Sleeps) && s.lock.None? && c in s.timed
    case WaitUnlock(c) => c in s.waits && s.waits[c].Leaves?
  }

  /** The steps that read or write the future object. */
  predicate TouchesFuture(step: Step) {
    !(step.ReleaseStart? || step.ReleaseLook? || step.WaitStart? || step.WaitLook?)
  }

  function Become(s: State, c: CallId, w: Wait): State {
    s.(waits := s.waits[c := w])
  }

  function Delete(s: State): State {
    s.(alive := false, deletions := s.deletions + 1, member := false)
  }

  ghost function Apply(s: State, step: Step): State
    requires Enabled(s, step)
  {
    match step
    case Compute(v) => s.(executor := Locking(v), computed := Some(v))
    case ExecutorLock => s.(executor := Inside(s.executor.v), lock := Some(TheExecutor))
    case ExecutorStore =>
      s.(res := Some(s.executor.v), flag := if s.flag.Released? then Released else Done,
         executor := Unlocking(s.flag.Released?))
    case ExecutorUnlock => s.(lock := None, executor := if s.executor.mine then Deleting else Ended)
    case ExecutorDelete => Delete(s).(executor := Ended)
    case ReleaseStart => s.(release := Looking)
    case ReleaseLook => s.(release := if s.member then Locks else Finished)
    case ReleaseLock => s.(release := Holds, lock := Some(TheRelease))
    case ReleaseMark =>
      if s.flag.Released? then s.(release := Unlocks(false))
      else s.(release := Unlocks(!s.flag.Waiting?), flag := Released)
    case ReleaseUnlock => s.(lock := None, release := if s.release.mine then Deletes else Finished)
    case ReleaseDelete => Delete(s).(release := Finished)
    case WaitStart(c, limited) => Become(s, c, Checks).(timed := if limited then s.timed + {c} else s.timed)
    case WaitLook(c) => Become(s, c, if s.member then Enters else Returned(BadArgs))
    case WaitLock(c) => Become(s, c, Within).(lock := Some(TheWait(c)))
    case WaitTest(c) =>
      if s.flag.Released? then Become(s, c, Leaves(BadArgs))
      else if s.flag.Done? && s.res.Some? then Become(s, c, Leaves(Got(s.res.value)))
      else Become(s, c, Sleeps).(lock := None)
    case WaitWake(c) =>
      if s.flag.Done? && s.res.Some? then Become(s, c, Leaves(Got(s.res.value))).(lock := Some(TheWait(c))) else s
    case WaitExpire(c) =>
      if s.flag.Done? && s.res.Some? then Become(s, c, Leaves(Got(s.res.value))).(lock := Some(TheWait(c)))
      else Become(s, c, Leaves(Timeout)).(lock := Some(TheWait(c)))
    case WaitUnlock(c) => Become(s, c, Returned(s.waits[c].result)).(lock := None)
  }

  // ---- the invariant ---------------------------------------------------------------------------

  /** The executor has stored its result. */
  predicate Completed(e: Executor) {
    e.Unlocking? || e.Deleting? || e.Ended?
  }

  /** The release has marked the future. */
  predicate Marked(r: Release) {
    r.Unlocks? || r.Deletes? || r.Finished?
  }

  predicate FlagOk(s: State) {
    && (s.flag.Released? <==> Marked(s.release))
    && (s.flag.Done? <==> Completed(s.executor) && !Marked(s.release))
    && (Completed(s.executor) ==> s.res.Some? && s.res == s.computed)
    && ((s.executor.Locking? || s.executor.Inside?) ==> s.computed == Some(s.executor.v))
  }

  predicate LockOk(s: State) {
    && (s.lock == Some(TheExecutor) <==> s.executor.Inside? || s.executor.Unlocking?)
    && (s.lock == Some(TheRelease) <==> s.release.Holds? || s.release.Unlocks?)
  }

  ghost predicate WaitsOk(s: State) {
    && (!s.release.Idle? ==> NoneWaiting(s))
    && (forall c <- s.waits :: s.lock == Some(TheWait(c)) <==> s.waits[c].Within? || s.waits[c].Leaves?)
    && (forall c <- s.waits :: s.waits[c].Leaves? || s.waits[c].Returned? ==> Honest(s, s.waits[c].result))
    && (s.lock.Some? && s.lock.value.TheWait? ==> s.lock.value.c in s.waits)
  }

  /** A wait reports the executor's value or a timeout. */
  predicate Honest(s: State, r: Result) {
    r != BadArgs && (r.Got? ==> Completed(s.executor) && s.computed == Some(r.v))
  }

  /** Whose turn it is to delete: the side that came second, and only that side. */
  predicate DutyOk(s: State) {
    && (s.executor == Unlocking(true) || s.executor.Deleting? ==> s.release.Finished? && s.alive)
    && (s.release == Unlocks(true) || s.release.Deletes? ==> s.executor.Ended? && s.alive)
    && (s.executor == Unlocking(false) ==> !Marked(s.release))
    && (s.release == Unlocks(false) ==> !Completed(s.executor))
    && (s.alive <==> s.deletions == 0) && (s.member <==> s.alive) && s.deletions <= 1
    && (s.executor.Ended? && s.release.Finished? <==> !s.alive)
  }

  ghost predicate Inv(s: State) {
    FlagOk(s) && LockOk(s) && WaitsOk(s) && DutyOk(s)
  }

  lemma InitInv(s: State)
    requires Init(s)
    ensures Inv(s)
  {
  }

  lemma ExecutorInv(s: State, step: Step)
    requires Inv(s) && Enabled(s, step)
    requires step.Compute? || step.ExecutorLock? || step.ExecutorStore? || step.ExecutorUnlock? || step.ExecutorDelete?
    ensures Inv(Apply(s, step))
  {
  }

  lemma ReleaseInv(s: State, step: Step)
    requires Inv(s) && Enabled(s, step)
    requires step.ReleaseStart? || step.ReleaseLook? || step.ReleaseLock? || step.ReleaseMark? || step.ReleaseUnlock? ||
      step.ReleaseDelete?
    ensures Inv(Apply(s, step))
  {
  }

  lemma WaitInv(s: State, step: Step)
    requires Inv(s) && Enabled(s, step)
    requires step.WaitStart? || step.WaitLook? || step.WaitLock? || step.WaitTest? || step.WaitWake? ||
      step.WaitExpire? || step.WaitUnlock?
    ensures Inv(Apply(s, step))
  {
  }

  lemma StepInv(s: State, step: Step)
    requires Inv(s) && Enabled(s, step)
    ensures Inv(Apply(s, step))
  {
    match step
    case Compute(_) => ExecutorInv(s, step);
    case ExecutorLock => ExecutorInv(s, step);
    case ExecutorStore => ExecutorInv(s, step);
    case ExecutorUnlock => ExecutorInv(s, step);
    case ExecutorDelete => ExecutorInv(s, step);
    case ReleaseStart => ReleaseInv(s, step);
    case ReleaseLook => ReleaseInv(s, step);
    case ReleaseLock => ReleaseInv(s, step);
    case ReleaseMark => ReleaseInv(s, step);
    case ReleaseUnlock => ReleaseInv(s, step);
    case ReleaseDelete => ReleaseInv(s, step);
    case _ => WaitInv(s, step);
  }

  // ---- whole runs ------------------------------------------------------------------------------

  ghost predicate IsRun(ss: seq<State>, steps: seq<Step>) {
    && |ss| == |steps| + 1 && Init(ss[0])
    && forall i {:trigger steps[i]} :: 0 <= i < |steps| ==>
      Enabled(ss[i], steps[i]) && ss[i + 1] == Apply(ss[i], steps[i])
  }

  lemma {:induction false} RunInv(ss: seq<State>, steps: seq<Step>, i: nat)
    requires IsRun(ss, steps) && i < |ss|
    ensures Inv(ss[i])
  {
    if i == 0 {
      InitInv(ss[0]);
    } else {
      RunInv(ss, steps, i - 1);
      StepInv(ss[i - 1], steps[i - 1]);
    }
  }

  /** The future is deleted at most once, only after the executor has completed and the handle was released,
      and exactly once when both sides are through. */
  lemma DeletedOnce(ss: seq<State>, steps: seq<Step>, i: nat)
    requires IsRun(ss, steps) && i < |ss|
    ensures ss[i].deletions <= 1
    ensures ss[i].deletions == 1 ==> Completed(ss[i].executor) && ss[i].flag.Released?
    ensures ss[i].executor.Ended? && ss[i].release.Finished? ==> ss[i].deletions == 1
  {
    RunInv(ss, steps, i);
  }

  /** No step reads or writes the future after its deletion. */
  lemma NeverTouchedAfterwards(ss: seq<State>, steps: seq<Step>, i: nat)
    requires IsRun(ss, steps) && i < |steps| && TouchesFuture(steps[i])
    ensures ss[i].alive
  {
    RunInv(ss, steps, i);
    assert Enabled(ss[i], steps[i]);
  }

  /** A wait that reports a value reports the executor's; before the release a wait is never refused. */
  lemma WaitsAreHonest(ss: seq<State>, steps: seq<Step>, i: nat, c: CallId)
    requires IsRun(ss, steps) && i < |ss| && c in ss[i].waits && ss[i].waits[c].Returned?
    ensures var r := ss[i].waits[c].result; r == Timeout || (r.Got? && ss[i].computed == Some(r.v))
  {
    RunInv(ss, steps, i);
  }

  /** Once the result is stored and nobody holds the lock, every sleeping wait can return it. */
  lemma SleepersCanReturn(ss: seq<State>, steps: seq<Step>, i: nat, c: CallId)
    requires IsRun(ss, steps) && i < |ss| && In(ss[i], c, Sleeps) && Completed(ss[i].executor) && ss[i].lock.None?
    ensures Enabled(ss[i], WaitWake(c)) && ss[i].computed.Some?
    ensures Apply(ss[i], WaitWake(c)).waits[c] == Leaves(Got(ss[i].computed.value))
  {
    RunInv(ss, steps, i);
  }

  /** A wait that tests, wakes or expires once the result is stored leaves with that value. */
  lemma StoredResultIsReturned(ss: seq<State>, steps: seq<Step>, i: nat, c: CallId)
    requires IsRun(ss, steps) && i < |steps| && Completed(ss[i].executor)
    requires steps[i] == WaitTest(c) || steps[i] == WaitWake(c) || steps[i] == WaitExpire(c)
    ensures ss[i].computed.Some? && In(ss[i + 1], c, Leaves(Got(ss[i].computed.value)))
  {
    RunInv(ss, steps, i);
    assert Enabled(ss[i], steps[i]) && ss[i + 1] == Apply(ss[i], steps[i]);
  }

  /** A wait reports a timeout only if it expired before the result was stored. */
  lemma {:induction false} TimeoutIsHonest(ss: seq<State>, steps: seq<Step>, i: nat, c: CallId) returns (k: nat)
    requires IsRun(ss, steps) && i < |ss| && c in ss[i].waits
    requires ss[i].waits[c] == Leaves(Timeout) || ss[i].waits[c] == Returned(Timeout)
    ensures k < i && steps[k] == WaitExpire(c) && In(ss[k], c, Sleeps) && !Completed(ss[k].executor)
  {
    RunInv(ss, steps, i - 1);
    assert Enabled(ss[i - 1], steps[i - 1]) && ss[i] == Apply(ss[i - 1], steps[i - 1]);
    if steps[i - 1] == WaitExpire(c) && In(ss[i - 1], c, Sleeps) {
      k := i - 1;
    } else {
      k := TimeoutIsHonest(ss, steps, i - 1, c);
    }
  }

  lemma {:induction false} CompletedStays(ss: seq<State>, steps: seq<Step>, i: nat, j: nat)
    requires IsRun(ss, steps) && i <= j < |ss| && Completed(ss[i].executor)
    ensures Completed(ss[j].executor) && ss[j].computed == ss[i].computed
  {
    if i < j {
      CompletedStays(ss, steps, i, j - 1);
      assert Enabled(ss[j - 1], steps[j - 1]) && ss[j] == Apply(ss[j - 1], steps[j - 1]);
    }
  }

  lemma {:induction false} ResultStays(ss: seq<State>, steps: seq<Step>, i: nat, j: nat, c: CallId)
    requires IsRun(ss, steps) && i <= j < |ss| && c in ss[i].waits
    ensures c in ss[j].waits
    ensures ss[i].waits[c].Returned? ==> ss[j].waits[c] == ss[i].waits[c]
    ensures ss[i].waits[c].Leaves? ==>
      ss[j].waits[c] == ss[i].waits[c] || ss[j].waits[c] == Returned(ss[i].waits[c].result)
  {
    if i < j {
      ResultStays(ss, steps, i, j - 1, c);
      assert Enabled(ss[j - 1], steps[j - 1]) && ss[j] == Apply(ss[j - 1], steps[j - 1]);
    }
  }

  /** A wait still undecided when the result is stored returns that result. */
  lemma UndecidedWaitsSucceed(ss: seq<State>, steps: seq<Step>, i: nat, j: nat, c: CallId)
    requires IsRun(ss, steps) && i <= j < |ss| && Completed(ss[i].executor) && c in ss[j].waits
    requires c in ss[i].waits ==> !ss[i].waits[c].Leaves? && !ss[i].waits[c].Returned?
    requires ss[j].waits[c].Returned?
    ensures ss[i].computed.Some? && ss[j].waits[c].result == Got(ss[i].computed.value)
  {
    WaitsAreHonest(ss, steps, j, c);
    CompletedStays(ss, steps, i, j);
    if ss[j].waits[c].result == Timeout {
      var k := TimeoutIsHonest(ss, steps, j, c);
      if i <= k {
        CompletedStays(ss, steps, i, k);
      } else {
        assert Enabled(ss[k], steps[k]) && ss[k + 1] == Apply(ss[k], steps[k]);
        ExpiryDecides(ss, steps, k, i, c);
      }
      assert false;
    }
  }

  /** Once expired, a wait is decided. */
  lemma ExpiryDecides(ss: seq<State>, steps: seq<Step>, k: nat, i: nat, c: CallId)
    requires IsRun(ss, steps) && k < i < |ss| && steps[k] == WaitExpire(c)
    ensures c in ss[i].waits && (ss[i].waits[c].Leaves? || ss[i].waits[c].Returned?)
  {
    assert Enabled(ss[k], steps[k]) && ss[k + 1] == Apply(ss[k], steps[k]);
    ResultStays(ss, steps, k + 1, i, c);
  }

  /** A wait without a timeout never reports one. */
  lemma UntimedNeverTimesOut(ss: seq<State>, steps: seq<Step>, i: nat, j: nat, c: CallId)
    requires IsRun(ss, steps) && i < j < |ss| && steps[i] == WaitStart(c, false)
    requires c in ss[j].waits && ss[j].waits[c].Returned?
    ensures ss[j].waits[c].result.Got? && ss[j].computed == Some(ss[j].waits[c].result.v)
  {
    WaitsAreHonest(ss, steps, j, c);
    Untimed(ss, steps, i, j, c);
    assert Enabled(ss[i], steps[i]);
    if ss[j].waits[c].result == Timeout {
      var k := TimeoutIsHonest(ss, steps, j, c);
      assert Enabled(ss[k], steps[k]);
      if i < k {
        Untimed(ss, steps, i, k, c);
      } else {
        ResultStays(ss, steps, k, i, c);
      }
      assert false;
    }
  }

  lemma {:induction false} TimedHaveStarted(ss: seq<State>, steps: seq<Step>, i: nat)
    requires IsRun(ss, steps) && i < |ss|
    ensures ss[i].timed <= ss[i].waits.Keys
  {
    if i > 0 {
      TimedHaveStarted(ss, steps, i - 1);
      assert Enabled(ss[i - 1], steps[i - 1]) && ss[i] == Apply(ss[i - 1], steps[i - 1]);
    }
  }

  lemma {:induction false} Untimed(ss: seq<State>, steps: seq<Step>, i: nat, j: nat, c: CallId)
    requires IsRun(ss, steps) && i < j < |ss| && steps[i] == WaitStart(c, false)
    ensures c in ss[j].waits && c !in ss[j].timed
  {
    assert Enabled(ss[j - 1], steps[j - 1]) && ss[j] == Apply(ss[j - 1], steps[j - 1]);
    if i + 1 < j {
      Untimed(ss, steps, i, j - 1, c);
    } else {
      TimedHaveStarted(ss, steps, i);
    }
  }
}
