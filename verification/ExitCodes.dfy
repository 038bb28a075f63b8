/** What sys_wait hands back is what the child exited with, over any run. */
module ExitCodes {
  import opened Processes
  import opened ProcessInvariant
  import opened ProcessTheorems

  /** What an event does to process q: one that has exited keeps its number and its code until it is forgotten, one that
      lives keeps its number, and dies only by its own exit, with the code it gives; a new one gets the next number. */
  predicate Kept(s: State, e: Event, q: nat, x: Proc, y: Proc) {
    if x.status == UNUSED then y.status == UNUSED || (y.status != ZOMBIE && y.pid == s.nextPid)
    else if x.status == ZOMBIE then
      y.pid == x.pid && y.exitCode == x.exitCode && (y.status == ZOMBIE || y.status == UNUSED)
    else
      y.pid == x.pid && y.status != UNUSED && (y.status == ZOMBIE ==> e.Exit? && q == s.curr && y.exitCode == e.code)
  }

  /** Nothing but whether it runs, waits or is ready. */
  predicate Same(x: Proc, y: Proc) {
    && y.pid == x.pid && y.exitCode == x.exitCode && (y.status == ZOMBIE <==> x.status == ZOMBIE)
    && (y.status == UNUSED <==> x.status == UNUSED)
  }

  lemma ScheduleSame(s: State, q: nat)
    requires Sizes(s) && q < PROC_NUM
    ensures Same(s.procs[q], Schedule(s).procs[q])
  {
  }

  lemma SemPSame(s: State, id: SemId, q: nat)
    requires Sizes(s) && IsSem(id) && q < PROC_NUM && s.procs[s.curr].status == RUNNING
    ensures Same(s.procs[q], SemP(s, id).procs[q])
  {
  }

  /** Whoever is woken was blocked. */
  lemma SemVSame(s: State, id: SemId, q: nat)
    requires Sizes(s) && IsSem(id) && q < PROC_NUM && CanV(s, id)
    requires GetSem(s, id).value < 0 ==> s.procs[GetSem(s, id).list[0]].status == BLOCKED
    ensures Same(s.procs[q], SemV(s, id).procs[q])
  {
  }

  lemma WakesBlocked(s: State, id: SemId)
    requires Inv(s) && IsSem(id)
    ensures CanV(s, id) && (GetSem(s, id).value < 0 ==> s.procs[GetSem(s, id).list[0]].status == BLOCKED)
  {
    hide FamilyOk, RefsOk, PidsOk;
    ParentCanV(s, id);
  }

  lemma MakeZombieKept(s: State, code: int, q: nat)
    requires Inv(s) && s.curr != 0 && q < PROC_NUM
    ensures Safe(s, Exit(code)) && Kept(s, Exit(code), q, s.procs[q], MakeZombie(s, code).procs[q])
    ensures s.procs[q].status == UNUSED ==> MakeZombie(s, code).procs[q].status == UNUSED
    ensures q == s.curr ==> MakeZombie(s, code).procs[q].status == ZOMBIE && MakeZombie(s, code).procs[q].exitCode == code
  {
    hide ListsOk, FamilyOk, RefsOk, PidsOk, SemV;
    ExitIsSafe(s, code);
    var s1 := Dying(s, code);
    if s.procs[s.curr].parent.Some? {
      var id := OfProc(s.procs[s.curr].parent.value);
      WakesBlocked(s, id);
      assert GetSem(s1, id) == GetSem(s, id);
      SemVSame(s1, id, q);
    }
  }

  /** Every step keeps the numbers of processes, and the codes of those that have exited. */
  lemma StepKept(s: State, e: Event, q: nat)
    requires Inv(s) && Allowed(s, e) && q < PROC_NUM
    ensures Safe(s, e) && Kept(s, e, q, s.procs[q], Step(s, e).procs[q])
  {
    hide ListsOk, FamilyOk, RefsOk, PidsOk, IdleOk, Schedule, MakeZombie, SemP, SemV, CanV, FindZombie;
    StepInv(s, e);
    match e
    case Yield => ScheduleSame(SetStatus(s, s.curr, READY), q);
    case Exit(code) =>
      MakeZombieKept(s, code, q);
      ScheduleSame(MakeZombie(s, code), q);
    case Wait =>
      StartWaitSame(s, q);
      ScheduleSame(StartWait(s), q);
    case P(j) =>
      if Entry(s, j).Some? {
        var s1 := SemP(s, OfUser(Entry(s, j).value));
        SemPSame(s, OfUser(Entry(s, j).value), q);
        ScheduleSame(s1, q);
      }
    case V(j) =>
      if Entry(s, j).Some? {
        WakesBlocked(s, OfUser(Entry(s, j).value));
        SemVSame(s, OfUser(Entry(s, j).value), q);
      }
    case _ =>
  }

  lemma StartWaitSame(s: State, q: nat)
    requires Sizes(s) && q < PROC_NUM && s.procs[s.curr].status == RUNNING
    ensures Same(s.procs[q], StartWait(s).procs[q])
  {
  }

  // ---------------------------------------------------------------- from exit to wait

  /** The event hands this number and this code back to the process that waits. */
  ghost predicate HandsBack(s: State, e: Event, pid: nat, code: int) {
    && Sizes(s)
    && ((e.Resume? && WaitedFor(s, pid, code))
        || (e.Wait? && s.procs[s.curr].childNum != 0 && s.procs[s.curr].zombie.value > 0 && WaitedFor(StartWait(s), pid, code)))
  }

  /** The running process has this number. */
  predicate IsCurrent(s: State, pid: nat) {
    s.curr < |s.procs| && s.procs[s.curr].pid == pid
  }

  /** Process n has exited with code c, if it is not forgotten yet. */
  predicate Exited(s: State, n: nat, c: int) {
    n < s.nextPid && forall q :: 0 <= q < |s.procs| ==> ExitedProc(s.procs[q], n, c)
  }

  predicate ExitedProc(pr: Proc, n: nat, c: int) {
    pr.status != UNUSED && pr.pid == n ==> pr.status == ZOMBIE && pr.exitCode == c
  }

  lemma NextPidGrows(s: State, e: Event)
    requires Sizes(s) && Safe(s, e)
    ensures Step(s, e).nextPid >= s.nextPid
  {
    hide FindZombie;
  }

  lemma ExitsWith(s: State, n: nat, c: int)
    requires Inv(s) && Allowed(s, Exit(c)) && IsCurrent(s, n)
    ensures Safe(s, Exit(c)) && Exited(Step(s, Exit(c)), n, c)
  {
    hide Step, ListsOk, FamilyOk, RefsOk, IdleOk;
    var e := Exit(c);
    StepInv(s, e);
    NextPidGrows(s, e);
    forall q | 0 <= q < PROC_NUM
      ensures ExitedProc(Step(s, e).procs[q], n, c)
    {
      StepKept(s, e, q);
      ExitedSlot(s, c, q);
    }
  }

  lemma ExitedSlot(s: State, c: int, q: nat)
    requires Inv(s) && Allowed(s, Exit(c)) && q < PROC_NUM
    ensures Safe(s, Exit(c))
    ensures q == s.curr ==> Step(s, Exit(c)).procs[q].status == ZOMBIE && Step(s, Exit(c)).procs[q].exitCode == c
    ensures s.procs[q].status == UNUSED ==> Step(s, Exit(c)).procs[q].status == UNUSED
  {
    hide ListsOk, FamilyOk, RefsOk, PidsOk, IdleOk, Schedule, MakeZombie;
    MakeZombieKept(s, c, q);
    ScheduleSame(MakeZombie(s, c), q);
  }

  lemma StaysExited(s: State, e: Event, n: nat, c: int)
    requires Inv(s) && Allowed(s, e) && Exited(s, n, c)
    ensures Safe(s, e) && Exited(Step(s, e), n, c)
  {
    hide Step, ListsOk, FamilyOk, RefsOk, IdleOk, PidsOk, Safe, Allowed;
    StepInv(s, e);
    NextPidGrows(s, e);
    forall q | 0 <= q < PROC_NUM
      ensures ExitedProc(Step(s, e).procs[q], n, c)
    {
      StepKept(s, e, q);
      assert ExitedProc(s.procs[q], n, c);
      ZombieStays(s, e, q);
    }
  }

  /** A process that has exited is not the one that runs, and so does not exit again. */
  lemma ZombieStays(s: State, e: Event, q: nat)
    requires Inv(s) && q < PROC_NUM
    ensures s.procs[q].status == ZOMBIE ==> q != s.curr
  {
    hide Core;
  }

  lemma {:induction false} ExitedFrom(ss: seq<State>, es: seq<Event>, k: nat, l: nat, n: nat, c: int)
    requires Trace(ss, es) && k < l < |ss| && es[k] == Exit(c) && IsCurrent(ss[k], n)
    ensures Inv(ss[l]) && Exited(ss[l], n, c)
    decreases l
  {
    hide Inv, Step, Safe, Allowed, Exited, Trace;
    RunSafe(ss, es, l - 1);
    RunSafe(ss, es, l);
    if l == k + 1 {
      ExitsWith(ss[k], n, c);
    } else {
      ExitedFrom(ss, es, k, l - 1, n, c);
      StaysExited(ss[l - 1], es[l - 1], n, c);
    }
  }

  /** The code that a process exits with is the code that is handed back with its number, whenever that is. */
  lemma CodeComesBack(ss: seq<State>, es: seq<Event>, k: nat, l: nat, n: nat, c: int, code: int)
    requires Trace(ss, es) && k < l < |es| && es[k] == Exit(c) && IsCurrent(ss[k], n)
    requires HandsBack(ss[l], es[l], n, code)
    ensures code == c
  {
    hide Step, Safe, Allowed, Trace, ListsOk, FamilyOk, RefsOk, IdleOk, PidsOk;
    ExitedFrom(ss, es, k, l, n, c);
    HandedZombie(ss[l], es[l], n, code);
  }

  /** Who is handed back has exited and has the code in its slot. */
  lemma HandedZombie(s: State, e: Event, n: nat, code: int)
    requires Inv(s) && HandsBack(s, e, n, code)
    ensures exists q :: 0 <= q < PROC_NUM && s.procs[q].status == ZOMBIE && s.procs[q].pid == n && s.procs[q].exitCode == code
  {
    hide ListsOk, FamilyOk, RefsOk, IdleOk, PidsOk, SemP, FindZombie;
    if e.Wait? {
      var z := FindZombie(StartWait(s).procs, s.curr, 0);
      StartWaitCurr(s);
      StartWaitSame(s, z);
      assert s.procs[z].status == ZOMBIE;
    }
  }

  lemma StartWaitCurr(s: State)
    requires Sizes(s)
    ensures StartWait(s).curr == s.curr
  {
  }

  // ---------------------------------------------------------------- back to the exit

  /** At a step before l the process n exited with code c. */
  ghost predicate ExitedBefore(ss: seq<State>, es: seq<Event>, l: nat, n: nat, c: int) {
    exists k :: 0 <= k < l && k < |es| && k < |ss| && es[k] == Exit(c) && IsCurrent(ss[k], n)
  }

  lemma {:induction false} ZombieExited(ss: seq<State>, es: seq<Event>, l: nat, q: nat)
    requires Trace(ss, es) && l < |ss| && q < PROC_NUM
    ensures Sizes(ss[l])
    ensures ss[l].procs[q].status == ZOMBIE ==> ExitedBefore(ss, es, l, ss[l].procs[q].pid, ss[l].procs[q].exitCode)
    decreases l
  {
    hide Step, Safe, Allowed, ListsOk, FamilyOk, RefsOk, IdleOk, PidsOk, Trace;
    RunSafe(ss, es, l);
    if l == 0 {
      InitAlive(ss, es, q);
    } else {
      var s, e := ss[l - 1], es[l - 1];
      RunSafe(ss, es, l - 1);
      ZombieExited(ss, es, l - 1, q);
      StepKept(s, e, q);
      if ss[l].procs[q].status == ZOMBIE {
        if s.procs[q].status == ZOMBIE {
          var k :| 0 <= k < l - 1 && es[k] == Exit(s.procs[q].exitCode) && IsCurrent(ss[k], s.procs[q].pid);
          assert es[k] == Exit(ss[l].procs[q].exitCode) && IsCurrent(ss[k], ss[l].procs[q].pid);
        } else {
          assert es[l - 1] == Exit(ss[l].procs[q].exitCode) && IsCurrent(ss[l - 1], ss[l].procs[q].pid);
        }
      }
    }
  }

  lemma InitAlive(ss: seq<State>, es: seq<Event>, q: nat)
    requires Trace(ss, es) && q < PROC_NUM
    ensures |ss[0].procs| == PROC_NUM && ss[0].procs[q].status != ZOMBIE
  {
  }

  /** Whatever is handed back, a process with that number exited with that code before. */
  lemma HandedBackExited(ss: seq<State>, es: seq<Event>, l: nat, n: nat, code: int)
    requires Trace(ss, es) && l < |es| && HandsBack(ss[l], es[l], n, code)
    ensures ExitedBefore(ss, es, l, n, code)
  {
    hide Step, Safe, Allowed, Trace, ListsOk, FamilyOk, RefsOk, IdleOk, PidsOk, HandsBack, ExitedBefore;
    RunSafe(ss, es, l);
    HandedZombie(ss[l], es[l], n, code);
    var q :| 0 <= q < PROC_NUM && ss[l].procs[q].status == ZOMBIE && ss[l].procs[q].pid == n && ss[l].procs[q].exitCode == code;
    ZombieExited(ss, es, l, q);
  }
}
