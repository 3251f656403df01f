/** The runtime mutex and monitor (Mutex and Monitor in runtime/src/Common/Mutex.cpp).

    The platform lock and its logical owner are separate, so that a thread which got the lock while
    blocked can give it back before it acknowledges a pause. Any number of threads; every atomic
    access and lock operation is one step; a sleeping thread may wake at any time. */
module RuntimeMutex {

  import opened Common

  type Thread = nat

  /** Where a thread is. `Leaving` and `WaitLeaving` are the way out of the blocked state with the lock
      acquired; there the pause hook may release it. `Acquired` is just before the owner is set. */
  datatype Pc =
    | Outside
    | Locking
    | Contending
    | Blocked
    | Leaving(released: bool)
    | Retrying
    | Acquired
    | Owning
    | Unlocking
    | WaitCleared
    | Sleeping(blocked: bool)
    | WaitLeaving(released: bool)

  datatype State = State(platform: Option<Thread>, owner: Option<Thread>, pcs: map<Thread, Pc>)

  datatype Step =
    | Lock(t: Thread)
    | TryLock(t: Thread)
    | PlainLock(t: Thread)
    | EnterBlocked(t: Thread)
    | BlockedLock(t: Thread)
    | PauseHook(t: Thread)
    | LeaveBlocked(t: Thread)
    | RetryLock(t: Thread)
    | SetOwner(t: Thread)
    | Unlock(t: Thread)
    | PlatformUnlock(t: Thread)
    | Wait(t: Thread)
    | Sleep(t: Thread, blocked: bool)
    | Wake(t: Thread)
    | WaitPauseHook(t: Thread)
    | WaitLeave(t: Thread)
    | NotifyAll(t: Thread)

  function PcOf(s: State, t: Thread): Pc {
    if t in s.pcs then s.pcs[t] else Outside
  }

  predicate Init(s: State) {
    s == State(None, None, map[])
  }

  /** A thread between calls, which may make any call, rightly or not. */
  predicate Calling(pc: Pc) {
    pc.Outside? || pc.Owning?
  }

  predicate Enabled(s: State, step: Step) {
    var pc := PcOf(s, step.t);
    match step
    case Lock(_) => Calling(pc)
    case TryLock(_) => pc.Locking?
    case PlainLock(_) => pc.Contending? && s.platform.None?
    case EnterBlocked(_) => pc.Contending?
    case BlockedLock(_) => pc.Blocked? && s.platform.None?
    case PauseHook(_) => pc == Leaving(false)
    case LeaveBlocked(_) => pc.Leaving?
    case RetryLock(_) => pc.Retrying?
    case SetOwner(_) => pc.Acquired?
    case Unlock(_) => Calling(pc)
    case PlatformUnlock(_) => pc.Unlocking?
    case Wait(_) => Calling(pc)
    case Sleep(_, _) => pc.WaitCleared?
    case Wake(_) => pc.Sleeping? && s.platform.None?
    case WaitPauseHook(_) => pc == WaitLeaving(false)
    case WaitLeave(_) => pc.WaitLeaving?
    case NotifyAll(_) => Calling(pc)
  }

  function Go(s: State, t: Thread, pc: Pc): State {
    s.(pcs := s.pcs[t := pc])
  }

  function Take(s: State, t: Thread, pc: Pc): State {
    Go(s, t, pc).(platform := Some(t))
  }

  function Drop(s: State, t: Thread, pc: Pc): State {
    Go(s, t, pc).(platform := None)
  }

  /** What the code checks before the step: no recursive acquisition, no owner after an acquisition,
      ownership before unlocking, waiting or notifying. A check that fails ends the program. */
  predicate Check(s: State, step: Step) {
    match step
    case Lock(t) => s.owner != Some(t)
    case WaitLeave(t) => PcOf(s, t) == WaitLeaving(true) ==> s.owner != Some(t)
    case SetOwner(_) => s.owner.None?
    case Unlock(t) => s.owner == Some(t)
    case Wait(t) => s.owner == Some(t)
    case NotifyAll(t) => s.owner == Some(t)
    case _ => true
  }

  function Apply(s: State, step: Step): State
    requires Enabled(s, step) && Check(s, step)
  {
    var pc := PcOf(s, step.t);
    match step
    case Lock(t) => Go(s, t, Locking)
    case TryLock(t) => if s.platform.None? then Take(s, t, Acquired) else Go(s, t, Contending)
    case PlainLock(t) => Take(s, t, Acquired)
    case EnterBlocked(t) => Go(s, t, Blocked)
    case BlockedLock(t) => Take(s, t, Leaving(false))
    case PauseHook(t) => Drop(s, t, Leaving(true))
    case LeaveBlocked(t) => Go(s, t, if pc.released then Retrying else Acquired)
    case RetryLock(t) => if s.platform.None? then Take(s, t, Acquired) else Go(s, t, Contending)
    case SetOwner(t) => Go(s, t, Owning).(owner := Some(t))
    case Unlock(t) => Go(s, t, Unlocking).(owner := None)
    case PlatformUnlock(t) => Drop(s, t, Outside)
    case Wait(t) => Go(s, t, WaitCleared).(owner := None)
    case Sleep(t, blocked) => Drop(s, t, Sleeping(blocked))
    case Wake(t) => Take(s, t, if pc.blocked then WaitLeaving(false) else Acquired)
    case WaitPauseHook(t) => Drop(s, t, WaitLeaving(true))
    case WaitLeave(t) => Go(s, t, if pc.released then Locking else Acquired)
    case NotifyAll(_) => s
  }

  // ---- the invariant ---------------------------------------------------------------------------

  predicate HoldsPlatform(pc: Pc) {
    pc == Leaving(false) || pc == WaitLeaving(false) || pc.Acquired? || pc.Owning? || pc.Unlocking? || pc.WaitCleared?
  }

  /** The platform lock is held exactly where the code says so, and the owner is the thread inside. */
  ghost predicate Inv(s: State) {
    && (forall t: Thread :: s.platform == Some(t) <==> HoldsPlatform(PcOf(s, t)))
    && (forall t: Thread :: s.owner == Some(t) <==> PcOf(s, t).Owning?)
  }

  lemma StepInv(s: State, step: Step)
    requires Inv(s) && Enabled(s, step) && Check(s, step)
    ensures Inv(Apply(s, step))
  {
    var n := Apply(s, step);
    assert forall u: Thread :: u != step.t ==> PcOf(n, u) == PcOf(s, u);
  }

  // ---- the checks in the code ------------------------------------------------------------------

  ghost predicate IsRun(ss: seq<State>, steps: seq<Step>) {
    && |ss| == |steps| + 1 && Init(ss[0])
    && forall i {:trigger steps[i]} :: 0 <= i < |steps| ==>
      Enabled(ss[i], steps[i]) && Check(ss[i], steps[i]) && ss[i + 1] == Apply(ss[i], steps[i])
  }

  lemma {:induction false} RunInv(ss: seq<State>, steps: seq<Step>, i: nat)
    requires IsRun(ss, steps) && i < |ss|
    ensures Inv(ss[i])
  {
    if i > 0 {
      RunInv(ss, steps, i - 1);
      StepInv(ss[i - 1], steps[i - 1]);
    }
  }

  /** A call against the rules, told from where the caller is: locking twice, or unlocking, waiting or
      notifying without having locked. */
  predicate Misuse(s: State, step: Step) {
    var pc := PcOf(s, step.t);
    match step
    case Lock(_) => pc.Owning?
    case Unlock(_) => pc.Outside?
    case Wait(_) => pc.Outside?
    case NotifyAll(_) => pc.Outside?
    case _ => false
  }

  /** A check fires exactly on a call against the rules, in any interleaving and whatever the pause hook
      does; the checks after an acquisition never do. */
  lemma ChecksIff(ss: seq<State>, steps: seq<Step>, i: nat, step: Step)
    requires IsRun(ss, steps) && i < |ss| && Enabled(ss[i], step)
    ensures Check(ss[i], step) <==> !Misuse(ss[i], step)
  {
    RunInv(ss, steps, i);
    if ss[i].owner.Some? {
      OwnerHolds(ss[i]);
    }
  }

  /** An owner is the thread that holds the platform lock. */
  lemma OwnerHolds(s: State)
    requires Inv(s) && s.owner.Some?
    ensures s.platform == s.owner && PcOf(s, s.owner.value).Owning?
  {
  }

  /** A thread that `lock` or `wait` has returned to holds both the platform lock and the ownership, and
      it is the only one. */
  lemma Exclusive(ss: seq<State>, steps: seq<Step>, i: nat, t: Thread, u: Thread)
    requires IsRun(ss, steps) && i < |ss| && PcOf(ss[i], t).Owning?
    ensures ss[i].platform == Some(t) && ss[i].owner == Some(t)
    ensures HoldsPlatform(PcOf(ss[i], u)) ==> u == t
  {
    RunInv(ss, steps, i);
  }

  /** The hook releases only a lock whose owner is not set. */
  lemma HookReleasesUnowned(ss: seq<State>, steps: seq<Step>, i: nat)
    requires IsRun(ss, steps) && i < |steps| && (steps[i].PauseHook? || steps[i].WaitPauseHook?)
    ensures ss[i].platform == Some(steps[i].t) && ss[i].owner.None?
  {
    RunInv(ss, steps, i);
    assert Enabled(ss[i], steps[i]);
    var t := steps[i].t;
    assert HoldsPlatform(PcOf(ss[i], t));
    if ss[i].owner.Some? {
      OwnerHolds(ss[i]);
    }
  }

  /** A free lock is not lost: whoever is on the way to it can take it with one step. */
  lemma FreeLockCanBeTaken(ss: seq<State>, steps: seq<Step>, i: nat, t: Thread)
    requires IsRun(ss, steps) && i < |ss| && ss[i].platform.None?
    requires var pc := PcOf(ss[i], t); pc.Locking? || pc.Contending? || pc.Blocked? || pc.Retrying? || pc.Sleeping?
    ensures exists step: Step ::
      step.t == t && Enabled(ss[i], step) && Check(ss[i], step) && HoldsPlatform(PcOf(Apply(ss[i], step), t))
  {
    var s := ss[i];
    var pc := PcOf(s, t);
    var step :=
      if pc.Locking? then TryLock(t)
      else if pc.Contending? then PlainLock(t)
      else if pc.Blocked? then BlockedLock(t)
      else if pc.Retrying? then RetryLock(t)
      else Wake(t);
    assert step.t == t && Enabled(s, step) && Check(s, step) && HoldsPlatform(PcOf(Apply(s, step), t));
  }

  // ---- lock and wait return, and only as owner -------------------------------------------------

  /** On the way to ownership, in `lock` or `wait`. */
  predicate Acquiring(pc: Pc) {
    !pc.Outside? && !pc.Owning? && !pc.Unlocking?
  }

  /** From a call of `lock` or `wait` on, a thread is on its way until it is the owner. */
  lemma {:induction false} AcquiringStays(ss: seq<State>, steps: seq<Step>, i: nat, j: nat, t: Thread)
    requires IsRun(ss, steps) && i < j < |ss| && (steps[i] == Lock(t) || steps[i] == Wait(t))
    requires forall k | i < k < j :: !Calling(PcOf(ss[k], t))
    ensures Acquiring(PcOf(ss[j], t)) || PcOf(ss[j], t).Owning?
  {
    assert ss[j] == Apply(ss[j - 1], steps[j - 1]) && Enabled(ss[j - 1], steps[j - 1]);
    if i + 1 < j {
      AcquiringStays(ss, steps, i, j - 1, t);
      assert !Calling(PcOf(ss[j - 1], t));
    }
  }

  /** `lock` and `wait` return only with ownership: the next time the thread is between calls, it is the owner. */
  lemma ReturnsAsOwner(ss: seq<State>, steps: seq<Step>, i: nat, j: nat, t: Thread)
    requires IsRun(ss, steps) && i < j < |ss| && (steps[i] == Lock(t) || steps[i] == Wait(t))
    requires Calling(PcOf(ss[j], t)) && forall k | i < k < j :: !Calling(PcOf(ss[k], t))
    ensures ss[j].owner == Some(t) && ss[j].platform == Some(t)
  {
    AcquiringStays(ss, steps, i, j, t);
    RunInv(ss, steps, j);
  }

  /** The steps can be taken one after the other from `s`, without a failing check, and lead to `u`. */
  ghost predicate Leads(s: State, steps: seq<Step>, u: State)
    decreases |steps|
  {
    if steps == [] then s == u
    else Enabled(s, steps[0]) && Check(s, steps[0]) && Leads(Apply(s, steps[0]), steps[1..], u)
  }

  lemma {:induction false} LeadsOn(s: State, a: seq<Step>, u: State, b: seq<Step>, w: State)
    requires Leads(s, a, u) && Leads(u, b, w)
    ensures Leads(s, a + b, w)
    decreases |a|
  {
    if a == [] {
      assert a + b == b;
    } else {
      LeadsOn(Apply(s, a[0]), a[1..], u, b, w);
      assert (a + b)[1..] == a[1..] + b;
    }
  }

  /** How far the holder of the platform lock is from giving it back. */
  function Hold(pc: Pc): nat {
    match pc
    case Acquired => 3
    case Owning => 2
    case _ => 1
  }

  /** Whoever holds the platform lock can give it back by steps of its own. */
  lemma CanFree(s: State, t: Thread) returns (steps: seq<Step>, u: State)
    requires Inv(s) && (s.platform.Some? ==> s.platform.value != t)
    ensures Leads(s, steps, u) && Inv(u) && u.platform.None? && PcOf(u, t) == PcOf(s, t)
    decreases if s.platform.Some? then Hold(PcOf(s, s.platform.value)) else 0
  {
    if s.platform.None? {
      steps, u := [], s;
    } else {
      var h := s.platform.value;
      var pc := PcOf(s, h);
      assert HoldsPlatform(pc);
      var step :=
        if pc.Leaving? then PauseHook(h)
        else if pc.WaitLeaving? then WaitPauseHook(h)
        else if pc.Acquired? then SetOwner(h)
        else if pc.Owning? then Unlock(h)
        else if pc.Unlocking? then PlatformUnlock(h)
        else Sleep(h, false);
      CheckPasses(s, step);
      StepInv(s, step);
      var s' := Apply(s, step);
      var rest;
      rest, u := CanFree(s', t);
      steps := [step] + rest;
    }
  }

  lemma CheckPasses(s: State, step: Step)
    requires Inv(s) && Enabled(s, step)
    ensures Check(s, step) <==> !Misuse(s, step)
  {
    if s.owner.Some? {
      OwnerHolds(s);
    }
  }

  /** How far a thread is from owning the lock, when it can take the platform lock. */
  function Way(pc: Pc): nat {
    match pc
    case Owning => 0
    case Acquired => 1
    case Leaving(released) => if released then 4 else 2
    case Retrying => 3
    case Locking => 3
    case Contending => 3
    case Blocked => 3
    case WaitLeaving(released) => if released then 4 else 2
    case Sleeping(_) => 3
    case WaitCleared => 4
    case _ => 5
  }

  /** The thread's own next step on its way, with the platform lock free or in its hands. */
  function Onward(pc: Pc, t: Thread): Step {
    match pc
    case Acquired => SetOwner(t)
    case Leaving(_) => LeaveBlocked(t)
    case Retrying => RetryLock(t)
    case Locking => TryLock(t)
    case Contending => PlainLock(t)
    case Blocked => BlockedLock(t)
    case WaitLeaving(_) => WaitLeave(t)
    case Sleeping(_) => Wake(t)
    case _ => Sleep(t, true)
  }

  /** From every reachable state, `lock` and `wait` can return: some finite schedule makes the thread the owner. */
  lemma CanOwn(s: State, t: Thread) returns (steps: seq<Step>, u: State)
    requires Inv(s) && (Acquiring(PcOf(s, t)) || PcOf(s, t).Owning?)
    ensures Leads(s, steps, u) && Inv(u) && u.owner == Some(t)
    decreases Way(PcOf(s, t))
  {
    if PcOf(s, t).Owning? {
      steps, u := [], s;
    } else {
      var s1;
      if s.platform == Some(t) {
        steps, s1 := [], s;
      } else {
        steps, s1 := CanFree(s, t);
      }
      var step := Onward(PcOf(s1, t), t);
      CheckPasses(s1, step);
      StepInv(s1, step);
      var s2 := Apply(s1, step);
      var rest;
      rest, u := CanOwn(s2, t);
      assert Leads(s1, [step] + rest, u) by { assert ([step] + rest)[1..] == rest; }
      LeadsOn(s, steps, s1, [step] + rest, u);
      steps := steps + ([step] + rest);
    }
  }
}
