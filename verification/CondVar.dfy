/** Producers and consumers over a condition variable built from semaphores (lab/lab8/condition_sem.c), as interleaved
    steps of any number of threads: one step a semaphore operation or an access to shared memory. */
module CondVar {

  datatype Role = Producer | Consumer

  // The call that follows a change of the buffer: my_cv_broadcast, as the program has it, or my_cv_signal.
  datatype Wakeup = Broadcast | Signal

  datatype Pc =
    | Outside    // produce_one or consume_one
    | Enter      // P(mutex)
    | Test       // the while condition
    | WLock      // my_cv_wait: P(cv.lock)
    | WInc       // nwait++
    | WUnlock    // V(cv.lock)
    | WLeave     // V(mutex)
    | Sleep      // P(sleep)
    | Shake      // V(handshake)
    | Reenter    // P(mutex)
    | Act        // cnt++ or cnt--
    | BLock      // my_cv_broadcast: P(cv.lock)
    | BTest      // i < nwait
    | BPost      // V(sleep)
    | BAwait     // P(handshake), i++
    | BReset     // nwait = 0
    | SLock      // my_cv_signal: P(cv.lock)
    | STest      // if nwait > 0, nwait--
    | SPost      // V(sleep)
    | SAwait     // P(handshake)
    | Unlock     // V(cv.lock), of either
    | Leave      // V(mutex)

  // Groups of program points.
  datatype Group =
    | Crit       // the mutex is held
    | Locked     // cv.lock is held
    | Waits      // between nwait++ and P(sleep)
    | Shakes     // woken, about to answer
    | Waking     // in the middle of a wakeup
    | Unswept    // a broadcast has not swept the waiters yet
    | Sweeping   // within the loop of a broadcast
    | Signaling  // within a signal

  predicate Member(pc: Pc, g: Group) {
    match g
    case Crit => !(pc.Outside? || pc.Enter? || pc.Sleep? || pc.Shake? || pc.Reenter?)
    case Locked => pc.WInc? || pc.WUnlock? || pc.Unlock? || pc.STest? || pc.SPost? || pc.SAwait?
      || pc.BTest? || pc.BPost? || pc.BAwait? || pc.BReset?
    case Waits => pc.WUnlock? || pc.WLeave? || pc.Sleep?
    case Shakes => pc.Shake?
    case Waking => pc.BTest? || pc.BPost? || pc.BAwait? || pc.BReset? || pc.SPost? || pc.SAwait?
    case Unswept => pc.BLock? || pc.BTest? || pc.BPost? || pc.BAwait?
    case Sweeping => pc.BTest? || pc.BPost? || pc.BAwait? || pc.BReset?
    case Signaling => pc.STest? || pc.SPost? || pc.SAwait?
  }

  datatype Thread = Thread(role: Role, pc: Pc, i: nat)

  datatype State = State(
    threads: seq<Thread>, mutex: nat, lock: nat, sleep: nat, handshake: nat, nwait: int, cnt: int, cap: nat, wakeup: Wakeup)

  predicate Cond(s: State, r: Role) {
    match r
    case Producer => s.cnt < s.cap
    case Consumer => s.cnt > 0
  }

  /** Whether thread `t` can take its next step: it can unless it waits on a semaphore that is 0. */
  predicate Enabled(s: State, t: nat)
    requires t < |s.threads|
  {
    match s.threads[t].pc
    case Enter | Reenter => s.mutex > 0
    case WLock | BLock | SLock => s.lock > 0
    case Sleep => s.sleep > 0
    case BAwait | SAwait => s.handshake > 0
    case _ => true
  }

  function Goto(s: State, t: nat, pc: Pc): State
    requires t < |s.threads|
  {
    s.(threads := s.threads[t := s.threads[t].(pc := pc)])
  }

  function Step(s: State, t: nat): State
    requires t < |s.threads| && Enabled(s, t)
  {
    var th := s.threads[t];
    match th.pc
    case Outside => Goto(s, t, Enter)
    case Enter => Goto(s, t, Test).(mutex := s.mutex - 1)
    case Test => Goto(s, t, if Cond(s, th.role) then Act else WLock)
    case WLock => Goto(s, t, WInc).(lock := s.lock - 1)
    case WInc => Goto(s, t, WUnlock).(nwait := s.nwait + 1)
    case WUnlock => Goto(s, t, WLeave).(lock := s.lock + 1)
    case WLeave => Goto(s, t, Sleep).(mutex := s.mutex + 1)
    case Sleep => Goto(s, t, Shake).(sleep := s.sleep - 1)
    case Shake => Goto(s, t, Reenter).(handshake := s.handshake + 1)
    case Reenter => Goto(s, t, Test).(mutex := s.mutex - 1)
    case Act =>
      var s1 := Goto(s, t, if s.wakeup.Broadcast? then BLock else SLock);
      s1.(cnt := if th.role.Producer? then s.cnt + 1 else s.cnt - 1)
    case BLock => s.(threads := s.threads[t := th.(pc := BTest, i := 0)], lock := s.lock - 1)
    case BTest => Goto(s, t, if th.i < s.nwait then BPost else BReset)
    case BPost => Goto(s, t, BAwait).(sleep := s.sleep + 1)
    case BAwait => s.(threads := s.threads[t := th.(pc := BTest, i := th.i + 1)], handshake := s.handshake - 1)
    case BReset => Goto(s, t, Unlock).(nwait := 0)
    case SLock => Goto(s, t, STest).(lock := s.lock - 1)
    case STest => if s.nwait > 0 then Goto(s, t, SPost).(nwait := s.nwait - 1) else Goto(s, t, Unlock)
    case SPost => Goto(s, t, SAwait).(sleep := s.sleep + 1)
    case SAwait => Goto(s, t, Unlock).(handshake := s.handshake - 1)
    case Unlock => Goto(s, t, Leave).(lock := s.lock + 1)
    case Leave => Goto(s, t, Outside).(mutex := s.mutex + 1)
  }

  /** At least one producer and one consumer, all outside, and a buffer of at least one place, empty. */
  ghost predicate Init(s: State) {
    && (exists t :: 0 <= t < |s.threads| && s.threads[t].role.Producer?)
    && (exists t :: 0 <= t < |s.threads| && s.threads[t].role.Consumer?)
    && (forall t :: 0 <= t < |s.threads| ==> s.threads[t].pc == Outside)
    && s.mutex == 1 && s.lock == 1 && s.sleep == 0 && s.handshake == 0
    && s.nwait == 0 && s.cnt == 0 && s.cap >= 1
  }

  ghost predicate Next(s: State, s': State) {
    exists t :: 0 <= t < |s.threads| && Enabled(s, t) && s' == Step(s, t)
  }

  /** Consecutive states of the system, from any start. */
  ghost predicate IsRun(run: seq<State>) {
    run != [] && forall k :: 0 <= k < |run| - 1 ==> Next(run[k], run[k + 1])
  }

  // ---------------------------------------------------------------- counting threads

  function Count(ths: seq<Thread>, g: Group): (n: nat)
  {
    if ths == [] then 0 else (if Member(ths[0].pc, g) then 1 else 0) + Count(ths[1..], g)
  }

  lemma {:induction false} CountUpdate(ths: seq<Thread>, t: nat, th: Thread, g: Group)
    requires t < |ths|
    ensures Count(ths[t := th], g) == Count(ths, g) - (if Member(ths[t].pc, g) then 1 else 0) + (if Member(th.pc, g) then 1 else 0)
  {
    if t > 0 {
      CountUpdate(ths[1..], t - 1, th, g);
      assert ths[t := th][1..] == ths[1..][t - 1 := th];
    } else {
      assert ths[t := th][1..] == ths[1..];
    }
  }

  lemma {:induction false} CountMember(ths: seq<Thread>, t: nat, g: Group)
    requires t < |ths| && Member(ths[t].pc, g)
    ensures Count(ths, g) >= 1
    ensures forall u :: 0 <= u < |ths| && u != t && Member(ths[u].pc, g) ==> Count(ths, g) >= 2
  {
    var rest := ths[t := ths[t].(pc := Outside)];
    forall u | 0 <= u < |ths| && u != t && Member(ths[u].pc, g)
      ensures Count(ths, g) >= 2
    {
      TwoMembers(ths, if t < u then t else u, if t < u then u else t, g);
    }
    OneMember(ths, t, g);
  }

  lemma {:induction false} OneMember(ths: seq<Thread>, t: nat, g: Group)
    requires t < |ths| && Member(ths[t].pc, g)
    ensures Count(ths, g) >= 1
  {
    if t > 0 {
      OneMember(ths[1..], t - 1, g);
    }
  }

  lemma {:induction false} TwoMembers(ths: seq<Thread>, t: nat, u: nat, g: Group)
    requires t < u < |ths| && Member(ths[t].pc, g) && Member(ths[u].pc, g)
    ensures Count(ths, g) >= 2
  {
    if t > 0 {
      TwoMembers(ths[1..], t - 1, u - 1, g);
    } else {
      OneMember(ths[1..], u - 1, g);
    }
  }

  lemma {:induction false} CountWitness(ths: seq<Thread>, g: Group) returns (t: nat)
    requires Count(ths, g) > 0
    ensures t < |ths| && Member(ths[t].pc, g)
  {
    if Member(ths[0].pc, g) {
      t := 0;
    } else {
      t := CountWitness(ths[1..], g);
      t := t + 1;
    }
  }

  lemma {:induction false} CountNone(ths: seq<Thread>, g: Group)
    requires forall t :: 0 <= t < |ths| ==> !Member(ths[t].pc, g)
    ensures Count(ths, g) == 0
  {
    if ths != [] {
      CountNone(ths[1..], g);
    }
  }

  // ---------------------------------------------------------------- the invariant

  function Waiting(s: State): nat {
    Count(s.threads, Waits)
  }

  /** No wakeup is under way between waker and sleeper. */
  predicate Still(s: State) {
    s.sleep == 0 && s.handshake == 0 && Count(s.threads, Shakes) == 0
  }

  /** Exactly one wakeup is on its way from the waker to one sleeper and back. */
  predicate OneInFlight(s: State) {
    s.sleep + Count(s.threads, Shakes) + s.handshake == 1
  }

  /** Where a thread in the middle of a wakeup stands: how many waiters are left to wake. */
  predicate Serving(s: State, th: Thread) {
    match th.pc
    case BTest => Still(s) && th.i <= s.nwait && Waiting(s) == s.nwait - th.i
    case BPost => Still(s) && th.i < s.nwait && Waiting(s) == s.nwait - th.i
    case BAwait => OneInFlight(s) && th.i < s.nwait && Waiting(s) - s.sleep == s.nwait - th.i - 1
    case BReset => Still(s) && Waiting(s) == 0
    case SPost => Still(s) && s.nwait >= 0 && Waiting(s) == s.nwait + 1
    case SAwait => OneInFlight(s) && s.nwait >= 0 && Waiting(s) - s.sleep == s.nwait
    case _ => true
  }

  /** A thread that has given up on its condition, from the test to P(sleep). */
  predicate GaveUp(th: Thread) {
    th.pc == WLock || th.pc == WInc || Member(th.pc, Waits)
  }

  ghost predicate Inv(s: State) {
    && s.mutex + Count(s.threads, Crit) == 1
    && s.lock + Count(s.threads, Locked) == 1
    && s.cap >= 1 && 0 <= s.cnt <= s.cap
    && (forall t :: 0 <= t < |s.threads| && s.threads[t].pc == Act ==> Cond(s, s.threads[t].role))
    && (Count(s.threads, Waking) == 0 ==> Still(s) && s.nwait == Waiting(s))
    && (forall t :: 0 <= t < |s.threads| ==> Serving(s, s.threads[t]))
    && (s.wakeup.Broadcast? && Count(s.threads, Unswept) == 0 ==>
          forall t :: 0 <= t < |s.threads| && GaveUp(s.threads[t]) ==> !Cond(s, s.threads[t].role))
  }

  lemma InitInv(s: State)
    requires Init(s)
    ensures Inv(s)
  {
    CountNone(s.threads, Crit);
    CountNone(s.threads, Locked);
    CountNone(s.threads, Waits);
    CountNone(s.threads, Shakes);
    CountNone(s.threads, Waking);
  }

  /** At most one thread holds the mutex, and at most one holds cv.lock. */
  lemma Alone(s: State, t: nat, g: Group)
    requires t < |s.threads| && Member(s.threads[t].pc, g) && Count(s.threads, g) <= 1
    ensures forall u :: 0 <= u < |s.threads| && u != t ==> !Member(s.threads[u].pc, g)
    ensures Count(s.threads, g) == 1
  {
    CountMember(s.threads, t, g);
  }

  function In(pc: Pc, g: Group): nat {
    if Member(pc, g) then 1 else 0
  }

  /** How a step moves one thread between the groups. */
  lemma Moved(s: State, t: nat, s': State)
    requires t < |s.threads| && Enabled(s, t) && s' == Step(s, t)
    ensures |s'.threads| == |s.threads| && s'.threads[t].role == s.threads[t].role
    ensures forall u :: 0 <= u < |s.threads| && u != t ==> s'.threads[u] == s.threads[u]
    ensures forall g ::
      Count(s'.threads, g) == Count(s.threads, g) - In(s.threads[t].pc, g) + In(s'.threads[t].pc, g)
  {
    hide Count;
    assert s'.threads == s.threads[t := s'.threads[t]];
    forall g
      ensures Count(s'.threads, g) == Count(s.threads, g) - In(s.threads[t].pc, g) + In(s'.threads[t].pc, g)
    {
      CountUpdate(s.threads, t, s'.threads[t], g);
    }
  }

  lemma {:induction false} CountSubset(ths: seq<Thread>, a: Group, b: Group)
    requires forall pc :: Member(pc, a) ==> Member(pc, b)
    ensures Count(ths, a) <= Count(ths, b)
  {
    if ths != [] {
      CountSubset(ths[1..], a, b);
    }
  }

  lemma Exclusive(s: State, t: nat)
    requires Inv(s) && t < |s.threads|
    ensures Member(s.threads[t].pc, Crit) ==> forall u :: 0 <= u < |s.threads| && u != t ==> !Member(s.threads[u].pc, Crit)
    ensures Member(s.threads[t].pc, Locked) ==> forall u :: 0 <= u < |s.threads| && u != t ==> !Member(s.threads[u].pc, Locked)
    ensures Member(s.threads[t].pc, Locked) ==> s.lock == 0 && Count(s.threads, Waking) == In(s.threads[t].pc, Waking)
    ensures Count(s.threads, Waking) <= 1 - s.lock
  {
    hide Count;
    CountSubset(s.threads, Waking, Locked);
    if Member(s.threads[t].pc, Crit) {
      Alone(s, t, Crit);
    }
    if Member(s.threads[t].pc, Locked) {
      Alone(s, t, Locked);
      if Member(s.threads[t].pc, Waking) {
        CountMember(s.threads, t, Waking);
      } else {
        CountNone(s.threads, Waking);
      }
    }
  }

  /** A thread that serves a wakeup keeps standing where it stood, whoever steps. */
  lemma StepServing(s: State, t: nat, s': State, u: nat)
    requires Inv(s) && t < |s.threads| && u < |s.threads| && Enabled(s, t) && s' == Step(s, t)
    ensures Serving(s', s'.threads[u])
    ensures Count(s'.threads, Waking) == 0 ==> Still(s') && s'.nwait == Waiting(s')
  {
    hide Count;
    Moved(s, t, s');
    Exclusive(s, t);
    Exclusive(s, u);
  }

  /** When a broadcast has swept the waiters, nobody is between giving up and P(sleep). */
  lemma SweptNobody(s: State, t: nat, u: nat)
    requires Inv(s) && t < |s.threads| && u < |s.threads|
    requires s.threads[t].pc == BTest && s.threads[t].i >= s.nwait
    ensures !GaveUp(s.threads[u])
  {
    hide Count;
    Exclusive(s, t);
    assert Serving(s, s.threads[t]);
    if Member(s.threads[u].pc, Waits) {
      CountMember(s.threads, u, Waits);
    }
  }

  lemma StepGaveUp(s: State, t: nat, s': State, u: nat)
    requires Inv(s) && t < |s.threads| && u < |s.threads| && Enabled(s, t) && s' == Step(s, t)
    requires s'.wakeup.Broadcast? && Count(s'.threads, Unswept) == 0 && GaveUp(s'.threads[u])
    ensures !Cond(s', s'.threads[u].role)
  {
    hide Count, Serving, Still, OneInFlight;
    Moved(s, t, s');
    if s'.threads[t].pc == BReset {
      SweptNobody(s, t, u);
    } else {
      assert Count(s.threads, Unswept) == 0;
    }
  }

  lemma StepInv(s: State, t: nat)
    requires Inv(s) && t < |s.threads| && Enabled(s, t)
    ensures Inv(Step(s, t))
  {
    hide Count, Serving, Still;
    var s' := Step(s, t);
    Moved(s, t, s');
    Exclusive(s, t);
    forall u | 0 <= u < |s.threads|
      ensures Serving(s', s'.threads[u])
      ensures Count(s'.threads, Waking) == 0 ==> Still(s') && s'.nwait == Waiting(s')
    {
      StepServing(s, t, s', u);
    }
    forall u | 0 <= u < |s.threads| && s'.wakeup.Broadcast? && Count(s'.threads, Unswept) == 0 && GaveUp(s'.threads[u])
      ensures !Cond(s', s'.threads[u].role)
    {
      StepGaveUp(s, t, s', u);
    }
  }

  // ---------------------------------------------------------------- what holds in every run

  lemma {:induction false} RunInv(run: seq<State>, k: nat)
    requires IsRun(run) && Init(run[0]) && k < |run|
    ensures Inv(run[k])
  {
    hide Inv, Step, Enabled, Init;
    if k == 0 {
      InitInv(run[0]);
    } else {
      RunInv(run, k - 1);
      assert Next(run[k - 1], run[k]);
      var t :| 0 <= t < |run[k - 1].threads| && Enabled(run[k - 1], t) && run[k] == Step(run[k - 1], t);
      StepInv(run[k - 1], t);
    }
  }

  /** The threads, their roles, the size of the buffer and the call made never change. */
  lemma {:induction false} RunRoles(run: seq<State>, k: nat)
    requires IsRun(run) && k < |run|
    ensures |run[k].threads| == |run[0].threads| && run[k].cap == run[0].cap && run[k].wakeup == run[0].wakeup
    ensures forall t :: 0 <= t < |run[0].threads| ==> run[k].threads[t].role == run[0].threads[t].role
  {
    if k > 0 {
      RunRoles(run, k - 1);
      assert Next(run[k - 1], run[k]);
    }
  }

  /** Whenever cv.lock is free, no wakeup is pending and nwait counts the threads between nwait++ and P(sleep);
      the buffer is never over- or underfull, both program assertions hold, and one thread at most holds the mutex. */
  lemma RunSafe(run: seq<State>, k: nat)
    requires IsRun(run) && Init(run[0]) && k < |run|
    ensures run[k].lock > 0 ==> Still(run[k]) && run[k].nwait == Waiting(run[k])
    ensures 0 <= run[k].cnt <= run[k].cap
    ensures forall t :: 0 <= t < |run[k].threads| && run[k].threads[t].pc == Act ==> Cond(run[k], run[k].threads[t].role)
    ensures forall t, u :: 0 <= t < u < |run[k].threads| ==> !Member(run[k].threads[t].pc, Crit) || !Member(run[k].threads[u].pc, Crit)
  {
    RunInv(run, k);
    hide Count;
    forall t, u | 0 <= t < u < |run[k].threads|
      ensures !Member(run[k].threads[t].pc, Crit) || !Member(run[k].threads[u].pc, Crit)
    {
      Exclusive(run[k], t);
    }
    if run[k].lock > 0 && |run[k].threads| > 0 {
      Exclusive(run[k], 0);
    }
  }

  /** With the broadcast of the program, some thread can always take a step. */
  lemma NoDeadlock(run: seq<State>, k: nat)
    requires IsRun(run) && Init(run[0]) && k < |run| && run[0].wakeup.Broadcast?
    ensures exists t :: 0 <= t < |run[k].threads| && Enabled(run[k], t)
  {
    hide Count;
    var s := run[k];
    RunInv(run, k);
    RunRoles(run, k);
    if s.mutex == 0 {
      var h := CountWitness(s.threads, Crit);
      var t := HolderOrHelper(s, h);
    } else {
      var p :| 0 <= p < |run[0].threads| && run[0].threads[p].role.Producer?;
      var c :| 0 <= c < |run[0].threads| && run[0].threads[c].role.Consumer?;
      NobodyBusy(s);
      // If neither p nor c can step, both gave up, on a buffer that is full and empty at once.
      assert !Enabled(s, p) ==> GaveUp(s.threads[p]);
      assert !Enabled(s, c) ==> GaveUp(s.threads[c]);
    }
  }

  lemma NobodyBusy(s: State)
    requires Inv(s) && s.mutex > 0
    ensures Count(s.threads, Unswept) == 0
    ensures forall t :: 0 <= t < |s.threads| ==> !Member(s.threads[t].pc, Crit)
  {
    hide Count;
    CountSubset(s.threads, Unswept, Crit);
    forall t | 0 <= t < |s.threads|
      ensures !Member(s.threads[t].pc, Crit)
    {
      if Member(s.threads[t].pc, Crit) {
        CountMember(s.threads, t, Crit);
      }
    }
  }

  lemma LockFree(s: State, h: nat)
    requires Inv(s) && h < |s.threads| && Member(s.threads[h].pc, Crit) && !Member(s.threads[h].pc, Locked)
    ensures s.lock > 0
  {
    hide Count;
    if s.lock == 0 {
      var l := CountWitness(s.threads, Locked);
      Exclusive(s, h);
      assert false;
    }
  }

  /** The thread that holds the mutex can step, or the one it waits for can. */
  lemma HolderOrHelper(s: State, h: nat) returns (t: nat)
    requires Inv(s) && h < |s.threads| && Member(s.threads[h].pc, Crit)
    ensures t < |s.threads| && Enabled(s, t)
  {
    hide Count;
    t := h;
    if !Member(s.threads[h].pc, Locked) {
      LockFree(s, h);
    } else if !Enabled(s, h) {
      assert Serving(s, s.threads[h]);
      if s.sleep > 0 {
        t := CountWitness(s.threads, Waits);
      } else {
        t := CountWitness(s.threads, Shakes);
      }
    }
  }

  // ---------------------------------------------------------------- whom a wakeup wakes

  predicate Waiter(s: State, u: nat) {
    u < |s.threads| && Member(s.threads[u].pc, Waits)
  }

  ghost predicate NoWaiter(s: State) {
    forall u :: !Waiter(s, u)
  }

  ghost predicate Unlocks(run: seq<State>, t: nat, k: nat)
    requires 0 < k < |run| && t < |run[k - 1].threads|
  {
    Enabled(run[k - 1], t) && run[k] == Step(run[k - 1], t)
  }

  /** The step to the unlock is the thread's own. */
  lemma LastStep(run: seq<State>, t: nat, g: Group)
    requires Segment(run, t, g) && !Member(Unlock, g)
    ensures Unlocks(run, t, |run| - 1)
  {
    var n := |run| - 1;
    assert Next(run[n - 1], run[n]);
    var v :| 0 <= v < |run[n - 1].threads| && Enabled(run[n - 1], v) && run[n] == Step(run[n - 1], v);
    assert run[n].threads[t].pc != run[n - 1].threads[t].pc;
    Moved(run[n - 1], v, run[n]);
  }

  /** From its first state to its last, thread `t` stays within `g`, and then goes to the unlock. */
  ghost predicate Segment(run: seq<State>, t: nat, g: Group) {
    && IsRun(run) && |run| >= 2 && t < |run[0].threads|
    && (forall k :: 0 <= k < |run| ==> t < |run[k].threads|)
    && (forall k :: 0 <= k < |run| - 1 ==> Member(run[k].threads[t].pc, g))
    && run[|run| - 1].threads[t].pc == Unlock
  }

  /** While a thread holds cv.lock no other starts to wait, and nwait is the holder's to change. */
  lemma HolderOnly(s: State, v: nat, s': State, t: nat)
    requires Inv(s) && v < |s.threads| && Enabled(s, v) && s' == Step(s, v)
    requires t < |s.threads| && Member(s.threads[t].pc, Locked) && !s.threads[t].pc.WInc?
    ensures forall u :: Waiter(s', u) ==> Waiter(s, u)
    ensures v != t ==> s'.nwait == s.nwait && s'.threads[t] == s.threads[t]
  {
    hide Count;
    Moved(s, v, s');
    Exclusive(s, t);
  }

  lemma {:induction false} NoNewWaiter(run: seq<State>, t: nat, g: Group, k: nat)
    requires Segment(run, t, g) && (g == Sweeping || g == Signaling) && Inv(run[0]) && k < |run|
    ensures Inv(run[k])
    ensures forall u :: Waiter(run[k], u) ==> Waiter(run[0], u)
  {
    hide Count, Inv, Step, Enabled;
    if k > 0 {
      NoNewWaiter(run, t, g, k - 1);
      assert Next(run[k - 1], run[k]);
      var v :| 0 <= v < |run[k - 1].threads| && Enabled(run[k - 1], v) && run[k] == Step(run[k - 1], v);
      StepInv(run[k - 1], v);
      HolderOnly(run[k - 1], v, run[k], t);
    }
  }

  /** my_cv_broadcast wakes exactly the threads that wait when it takes cv.lock: none of them still waits when it
      gives the lock back, and no thread that comes later waits, or takes a wakeup, in between. */
  lemma BroadcastWakesAll(run: seq<State>, t: nat)
    requires Segment(run, t, Sweeping) && Inv(run[0])
    ensures forall k, u :: 0 <= k < |run| && Waiter(run[k], u) ==> Waiter(run[0], u)
    ensures NoWaiter(run[|run| - 1])
    ensures Still(run[|run| - 1]) && run[|run| - 1].nwait == 0
  {
    hide Count;
    forall k, u | 0 <= k < |run| && Waiter(run[k], u)
      ensures Waiter(run[0], u)
    {
      NoNewWaiter(run, t, Sweeping, k);
    }
    Swept(run, t, |run| - 1);
  }

  lemma Swept(run: seq<State>, t: nat, n: nat)
    requires Segment(run, t, Sweeping) && Inv(run[0]) && n == |run| - 1
    ensures NoWaiter(run[n]) && Still(run[n]) && run[n].nwait == 0
  {
    hide Count;
    var s, s' := run[n - 1], run[n];
    NoNewWaiter(run, t, Sweeping, n - 1);
    LastStep(run, t, Sweeping);
    Moved(s, t, s');
    assert Serving(s, s.threads[t]);
    forall u
      ensures !Waiter(s', u)
    {
      if Waiter(s', u) {
        CountMember(s'.threads, u, Waits);
      }
    }
  }

  /** my_cv_signal wakes one of the threads that wait when it looks, if any does, and no other. */
  lemma SignalWakesOne(run: seq<State>, t: nat)
    requires Segment(run, t, Signaling) && Inv(run[0]) && run[0].threads[t].pc == STest
    ensures forall k, u :: 0 <= k < |run| && Waiter(run[k], u) ==> Waiter(run[0], u)
    ensures Waiting(run[|run| - 1]) == if Waiting(run[0]) > 0 then Waiting(run[0]) - 1 else 0
  {
    hide Count;
    var n := |run| - 1;
    forall k | 0 <= k < |run|
      ensures Inv(run[k]) && forall u :: Waiter(run[k], u) ==> Waiter(run[0], u)
    {
      NoNewWaiter(run, t, Signaling, k);
    }
    SignalCounts(run, t, n);
    Exclusive(run[0], t);
    Exclusive(run[n], t);
  }

  ghost predicate Signaled(s0: State, s: State, pc: Pc) {
    && s.nwait == (if pc.STest? || s0.nwait <= 0 then s0.nwait else s0.nwait - 1)
    && (pc.SPost? || pc.SAwait? ==> s0.nwait > 0)
  }

  lemma SignalStep(s0: State, s: State, t: nat, s': State)
    requires t < |s.threads| && Enabled(s, t) && s' == Step(s, t) && Member(s.threads[t].pc, Signaling)
    requires Signaled(s0, s, s.threads[t].pc)
    ensures Signaled(s0, s', s'.threads[t].pc)
  {
  }

  lemma {:induction false} SignalCounts(run: seq<State>, t: nat, k: nat)
    requires Segment(run, t, Signaling) && Inv(run[0]) && run[0].threads[t].pc == STest && k < |run|
    ensures Inv(run[k]) && Signaled(run[0], run[k], run[k].threads[t].pc)
  {
    hide Count, Inv, Step, Enabled, Signaled;
    if k == 0 {
      SignalStart(run[0]);
    } else {
      SignalCounts(run, t, k - 1);
      assert Next(run[k - 1], run[k]);
      var v :| 0 <= v < |run[k - 1].threads| && Enabled(run[k - 1], v) && run[k] == Step(run[k - 1], v);
      StepInv(run[k - 1], v);
      if v == t {
        SignalStep(run[0], run[k - 1], t, run[k]);
      } else {
        HolderOnly(run[k - 1], v, run[k], t);
        SignalSame(run[0], run[k - 1], run[k], run[k].threads[t].pc);
      }
    }
  }

  lemma SignalStart(s: State)
    ensures Signaled(s, s, STest)
  {
  }

  lemma SignalSame(s0: State, s: State, s': State, pc: Pc)
    requires Signaled(s0, s, pc) && s'.nwait == s.nwait
    ensures Signaled(s0, s', pc)
  {
  }
}
