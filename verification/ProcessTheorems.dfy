/** What holds in every run of processes, semaphores and wait/exit. */
module ProcessTheorems {
  import opened Options
  import opened Processes
  import opened ProcessInvariant

  ghost predicate Blank(pr: Proc) {
    && pr.parent == None && pr.childNum == 0 && pr.zombie == Sem(0, []) && pr.ctx == User && |pr.usems| == MAX_USEM
    && forall j :: 0 <= j < MAX_USEM ==> pr.usems[j] == None
  }

  /** When the idle process first waits for an interrupt: it runs, and the first user process is ready. */
  ghost predicate Init(s: State) {
    && |s.procs| == PROC_NUM && |s.usems| == USER_SEM_NUM && s.curr == 0 && s.nextPid == 2
    && (forall p :: 0 <= p < PROC_NUM ==> Blank(s.procs[p]))
    && s.procs[0].status == RUNNING && s.procs[0].pid == 0 && s.procs[1].status == READY && s.procs[1].pid == 1
    && (forall p :: 2 <= p < PROC_NUM ==> s.procs[p].status == UNUSED)
    && (forall u :: 0 <= u < USER_SEM_NUM ==> s.usems[u] == Usem(Sem(0, []), 0))
  }

  lemma {:induction false} NoRefs(tbl: seq<Option<nat>>, u: nat)
    requires forall j :: 0 <= j < |tbl| ==> tbl[j] == None
    ensures Refs(tbl, u) == 0
  {
    if tbl != [] {
      NoRefs(tbl[1..], u);
    }
  }

  lemma InitInv(s: State)
    requires Init(s)
    ensures Inv(s)
  {
    forall p | 0 <= p < PROC_NUM
      ensures CountsOk(s, p)
    {
      SumZero(s.procs, KidsOf(p));
      SumZero(s.procs, ZombiesOf(p));
    }
    forall u | 0 <= u < USER_SEM_NUM
      ensures s.usems[u].ref == Sum(s.procs, RefsTo(u))
    {
      forall p | 0 <= p < PROC_NUM
        ensures W(s.procs[p], RefsTo(u)) == 0
      {
        assert Blank(s.procs[p]);
        NoRefs(s.procs[p].usems, u);
      }
      SumZero(s.procs, RefsTo(u));
    }
  }

  /** A run: each event is one the process then running can cause. One that would fail may lead anywhere. */
  ghost predicate Trace(ss: seq<State>, es: seq<Event>)
    ensures Trace(ss, es) ==> |ss| == |es| + 1
  {
    && |ss| == |es| + 1 && Init(ss[0])
    && forall i :: 0 <= i < |es| ==> Next(ss[i], es[i], ss[i + 1])
  }

  ghost predicate Next(s: State, e: Event, t: State) {
    Sizes(s) ==> Allowed(s, e) && (Safe(s, e) ==> t == Step(s, e))
  }

  /** Nothing ever fails, and the invariant holds at every point of every run. */
  lemma {:induction false} RunSafe(ss: seq<State>, es: seq<Event>, k: nat)
    requires Trace(ss, es) && k < |ss|
    ensures Inv(ss[k])
    ensures k < |es| ==> Allowed(ss[k], es[k]) && Safe(ss[k], es[k]) && ss[k + 1] == Step(ss[k], es[k])
  {
    if k == 0 {
      InitInv(ss[0]);
    } else {
      RunSafe(ss, es, k - 1);
      assert Next(ss[k - 1], es[k - 1], ss[k]);
      StepInv(ss[k - 1], es[k - 1]);
    }
    if k < |es| {
      assert Next(ss[k], es[k], ss[k + 1]);
      StepInv(ss[k], es[k]);
    }
  }

  /** A fork that finds a slot leaves a ready child of the running process, with a number that no process has and the
      semaphores that its parent has open; the semaphores and everybody else are as they were. */
  lemma ForkedChild(s: State, i: nat)
    requires Inv(s) && Allowed(s, ForkCall) && i < PROC_NUM && s.procs[i].status == UNUSED && Step(s, ForkCall).procs[i].status != UNUSED
    ensures var t := Step(s, ForkCall);
            && t.procs[i].status == READY && t.procs[i].parent == Some(s.curr) && t.procs[i].usems == s.procs[s.curr].usems
            && (forall q :: 0 <= q < PROC_NUM && q != i && s.procs[q].status != UNUSED ==> t.procs[q].pid != t.procs[i].pid)
            && t.procs[s.curr] == s.procs[s.curr].(childNum := s.procs[s.curr].childNum + 1) && t.curr == s.curr
            && (forall q :: 0 <= q < PROC_NUM && q != i && q != s.curr ==> t.procs[q] == s.procs[q])
            && (forall u :: 0 <= u < USER_SEM_NUM ==> t.usems[u].sem == s.usems[u].sem)
  {
    hide ListsOk, FamilyOk, RefsOk;
  }

  // ---------------------------------------------------------------- waiting for children

  /** sys_wait hands back a child of the caller that has exited, the assertion holding, and forgets just that one. */
  lemma WaitReaps(s: State, p: nat)
    requires Inv(s) && Allowed(s, Resume) && p < PROC_NUM
    ensures Safe(s, Resume)
    ensures var z := FindZombie(s.procs, s.curr, 0);
            && s.procs[z].parent == Some(s.curr) && s.procs[z].status == ZOMBIE
            && Sum(Step(s, Resume).procs, KidsOf(p)) == Sum(s.procs, KidsOf(p)) - (if p == s.curr then 1 else 0)
            && (p != z ==> Step(s, Resume).procs[p].status == s.procs[p].status)
            && Step(s, Resume).procs[z].status == UNUSED
  {
    StepInv(s, Resume);
    ReapSums(s, p);
  }

  /** Whoever is blocked waiting for a child has one alive, that will wake it. */
  lemma WaiterHasChild(s: State, p: nat) returns (c: nat)
    requires Inv(s) && p < PROC_NUM && s.procs[p].status == BLOCKED && s.procs[p].ctx == Waiting
    ensures c < PROC_NUM && s.procs[c].parent == Some(p) && Live(s.procs[c])
  {
    assert WaitsSomewhere(s, p);
    var id, i: nat :| Queued(s, id, i) && GetSem(s, id).list[i] == p;
    assert SemOk(s, id) && MayWait(s, id, p);
    assert s.procs[p].zombie.value < 0;
    assert CountsOk(s, p);
    c := SumPositive(s.procs, KidsOf(p));
    assert ParentOk(s, c);
    if s.procs[c].status == ZOMBIE {
      SumAtLeast(s.procs, ZombiesOf(p), c);
      assert false;
    }
  }

  // ---------------------------------------------------------------- semaphores

  ghost predicate Waits(s: State, p: nat, id: SemId, i: nat)
    requires Sizes(s)
  {
    Queued(s, id, i) && GetSem(s, id).list[i] == p
  }

  /** A process is blocked exactly if it is in a wait list, and it is in at most one place of one list. */
  lemma BlockedIffWaiting(s: State, p: nat)
    requires Inv(s) && p < PROC_NUM
    ensures s.procs[p].status == BLOCKED <==> WaitsSomewhere(s, p)
    ensures forall a, b, i: nat, j: nat :: Waits(s, p, a, i) && Waits(s, p, b, j) ==> a == b && i == j
  {
    if WaitsSomewhere(s, p) {
      var id, i: nat :| Queued(s, id, i) && GetSem(s, id).list[i] == p;
      assert SemOk(s, id) && MayWait(s, id, p);
    }
  }

  /** How one event may change a wait list: not at all, its first woken, or the running process blocked at its end. */
  ghost predicate Queues(s: State, t: State, id: SemId)
    requires Sizes(s) && Sizes(t) && IsSem(id)
  {
    var l, m := GetSem(s, id).list, GetSem(t, id).list;
    || m == l
    || (m == l + [s.curr] && t.procs[s.curr].status == BLOCKED)
    || (l != [] && m == l[1..] && l[0] < PROC_NUM && s.procs[l[0]].status == BLOCKED && t.procs[l[0]].status != BLOCKED)
  }

  lemma ScheduleQueues(s: State, t: State, id: SemId)
    requires Sizes(s) && Sizes(t) && IsSem(id) && Queues(s, t, id)
    ensures Queues(s, Schedule(t), id)
  {
    assert GetSem(Schedule(t), id) == GetSem(t, id);
  }

  lemma SemPQueues(s: State, on: SemId, id: SemId)
    requires Sizes(s) && IsSem(on) && IsSem(id)
    ensures Queues(s, SemP(s, on), id)
  {
  }

  lemma SemVQueues(s: State, on: SemId, id: SemId)
    requires Sizes(s) && ListsOk(s) && IsSem(on) && CanV(s, on) && IsSem(id)
    ensures Queues(s, SemV(s, on), id)
  {
    ParentCanV(s, on);
  }

  lemma ExitQueues(s: State, code: int, id: SemId)
    requires Inv(s) && s.curr != 0 && Safe(s, Exit(code)) && IsSem(id)
    ensures Queues(s, MakeZombie(s, code), id)
  {
    hide ListsOk, FamilyOk, RefsOk, PidsOk, SemV, Queues;
    var s1 := Dying(s, code);
    DyingLists(s, code);
    if s.procs[s.curr].parent.Some? {
      SemVQueues(s1, OfProc(s.procs[s.curr].parent.value), id);
    } else {
      SameSems(s1, s1, id);
    }
    ExitSame(s, code, id);
  }

  lemma ExitSame(s: State, code: int, id: SemId)
    requires Sizes(s) && Safe(s, Exit(code)) && IsSem(id)
    ensures var pa := s.procs[s.curr].parent;
            Queues(Dying(s, code), if pa.Some? then SemV(Dying(s, code), OfProc(pa.value)) else Dying(s, code), id) ==>
              Queues(s, MakeZombie(s, code), id)
  {
    var pa := s.procs[s.curr].parent;
    var s1 := Dying(s, code);
    var s2 := if pa.Some? then SemV(s1, OfProc(pa.value)) else s1;
    var t := MakeZombie(s, code);
    assert GetSem(t, id) == GetSem(s2, id) && GetSem(s1, id) == GetSem(s, id);
    assert forall p :: 0 <= p < PROC_NUM ==> t.procs[p].status == s2.procs[p].status;
    assert forall p :: 0 <= p < PROC_NUM && s1.procs[p].status == BLOCKED ==> s.procs[p].status == BLOCKED;
  }

  /** Wait lists are queues: in every step a process joins at the end, and only the one that came first is woken. */
  lemma StepQueues(s: State, e: Event, id: SemId)
    requires Inv(s) && Allowed(s, e) && IsSem(id)
    ensures Safe(s, e) && Queues(s, Step(s, e), id)
  {
    hide ListsOk, FamilyOk, RefsOk, PidsOk, SemP, SemV, Schedule, Queues, MakeZombie, SemOpen, SemClose, Fork, Reap;
    StepInv(s, e);
    match e
    case Yield =>
      assert Queues(s, SetStatus(s, s.curr, READY), id) by { SameSems(s, SetStatus(s, s.curr, READY), id); }
      ScheduleQueues(s, SetStatus(s, s.curr, READY), id);
    case ForkCall => ForkQueues(s, id);
    case Exit(code) =>
      ExitQueues(s, code, id);
      ScheduleQueues(s, MakeZombie(s, code), id);
    case Wait => WaitQueues(s, id);
    case Resume => ReapQueues(s, s, id);
    case Open(value) => OpenQueues(s, value, id);
    case P(j) =>
      if Entry(s, j).Some? {
        SemPQueues(s, OfUser(Entry(s, j).value), id);
        ScheduleQueues(s, SemP(s, OfUser(Entry(s, j).value)), id);
      } else {
        SameSems(s, s, id);
      }
    case V(j) =>
      if Entry(s, j).Some? {
        EntryOpen(s, j);
        SemVUserKeeps(s, Entry(s, j).value);
        SemVQueues(s, OfUser(Entry(s, j).value), id);
      } else {
        SameSems(s, s, id);
      }
    case Close(j) =>
      if Entry(s, j).Some? {
        CloseQueues(s, j, Entry(s, j).value, id);
      } else {
        SameSems(s, s, id);
      }
  }

  lemma SameSems(s: State, t: State, id: SemId)
    requires Sizes(s) && Sizes(t) && IsSem(id) && GetSem(s, id).list == GetSem(t, id).list
    ensures Queues(s, t, id)
  {
  }

  lemma ForkQueues(s: State, id: SemId)
    requires Inv(s) && IsSem(id)
    ensures Queues(s, Fork(s), id)
  {
    hide FamilyOk, RefsOk, PidsOk;
    if FreeSlot(s.procs, 1) < PROC_NUM {
      ZombieList(s, FreeSlot(s.procs, 1));
    }
  }

  lemma OpenQueues(s: State, value: int, id: SemId)
    requires Inv(s) && IsSem(id)
    ensures Queues(s, SemOpen(s, value), id)
  {
    hide ListsOk, FamilyOk, RefsOk, PidsOk;
    if FirstUnused(s.usems, 0) < USER_SEM_NUM {
      RecycledIsEmpty(s, FirstUnused(s.usems, 0));
    }
  }

  lemma CloseQueues(s: State, j: nat, u: nat, id: SemId)
    requires Sizes(s) && j < MAX_USEM && u < USER_SEM_NUM && IsSem(id)
    ensures Queues(s, SemClose(s, j, u), id)
  {
  }

  lemma ReapQueues(s: State, t: State, id: SemId)
    requires Sizes(s) && Sizes(t) && IsSem(id) && t.curr == s.curr && t.procs[t.curr].status != BLOCKED
    requires Queues(s, t, id) && FindZombie(t.procs, t.curr, 0) < PROC_NUM
    ensures Queues(s, Reap(t), id)
  {
    assert GetSem(Reap(t), id) == GetSem(t, id);
  }

  lemma WaitQueues(s: State, id: SemId)
    requires Inv(s) && Allowed(s, Wait) && Safe(s, Wait) && IsSem(id)
    ensures Queues(s, Step(s, Wait), id)
  {
    hide ListsOk, FamilyOk, RefsOk, PidsOk, SemP, Schedule, Reap;
    if s.procs[s.curr].childNum != 0 {
      var s1 := s.(procs := s.procs[s.curr := s.procs[s.curr].(ctx := Waiting)]);
      SemPQueues(s1, OfProc(s.curr), id);
      assert GetSem(s1, id) == GetSem(s, id);
      assert Queues(s, StartWait(s), id);
      StartWaitKeeps(s);
      if s.procs[s.curr].zombie.value > 0 {
        ReapQueues(s, StartWait(s), id);
      } else {
        ScheduleQueues(s, StartWait(s), id);
      }
    }
  }

  /** Why a semaphore must not be opened with a negative value: nobody waits on it, and the first V finds no one. */
  lemma OpenThenV(s: State, value: int)
    requires Inv(s) && FirstNone(s.procs[s.curr].usems, 0) < MAX_USEM && FirstUnused(s.usems, 0) < USER_SEM_NUM
    ensures Safe(SemOpen(s, value), V(FirstNone(s.procs[s.curr].usems, 0))) <==> value >= 0
  {
    hide ListsOk, FamilyOk, RefsOk, PidsOk;
    var j, u := FirstNone(s.procs[s.curr].usems, 0), FirstUnused(s.usems, 0);
    assert Entry(SemOpen(s, value), j) == Some(u) && GetSem(SemOpen(s, value), OfUser(u)) == Sem(value, []);
  }

  // ---------------------------------------------------------------- the pool of list nodes

  const SEM_NUM := PROC_NUM + USER_SEM_NUM

  function SemAt(k: nat): (id: SemId)
    requires k < SEM_NUM
    ensures IsSem(id)
  {
    if k < PROC_NUM then OfProc(k) else OfUser(k - PROC_NUM)
  }

  /** Everyone waiting on the first n semaphores. */
  function Waiters(s: State, n: nat): seq<nat>
    requires Sizes(s) && n <= SEM_NUM
  {
    if n == 0 then [] else Waiters(s, n - 1) + GetSem(s, SemAt(n - 1)).list
  }

  lemma {:induction false} WaitersAt(s: State, n: nat, i: nat) returns (k: nat, j: nat)
    requires Sizes(s) && n <= SEM_NUM && i < |Waiters(s, n)|
    ensures k < n && Queued(s, SemAt(k), j) && GetSem(s, SemAt(k)).list[j] == Waiters(s, n)[i]
    ensures i == |Waiters(s, k)| + j
  {
    if i < |Waiters(s, n - 1)| {
      k, j := WaitersAt(s, n - 1, i);
    } else {
      k, j := n - 1, i - |Waiters(s, n - 1)|;
    }
  }

  lemma {:induction false} DistinctBound(l: seq<nat>, n: nat)
    requires forall i :: 0 <= i < |l| ==> 0 < l[i] < n
    requires forall i, j :: 0 <= i < j < |l| ==> l[i] != l[j]
    requires n > 0
    ensures |l| < n
  {
    if n == 1 {
      assert l == [];
    } else if exists i :: 0 <= i < |l| && l[i] == n - 1 {
      var i :| 0 <= i < |l| && l[i] == n - 1;
      DistinctBound(l[..i] + l[i + 1..], n - 1);
    } else {
      DistinctBound(l, n - 1);
    }
  }

  /** At most 63 list nodes are ever in use, so that the pool of 256 that all wait lists share never runs out. */
  lemma PoolLasts(s: State)
    requires Inv(s)
    ensures |Waiters(s, SEM_NUM)| < PROC_NUM
  {
    var l := Waiters(s, SEM_NUM);
    forall i | 0 <= i < |l|
      ensures 0 < l[i] < PROC_NUM
    {
      var k, j := WaitersAt(s, SEM_NUM, i);
      assert SemOk(s, SemAt(k)) && MayWait(s, SemAt(k), l[i]);
    }
    forall i, j | 0 <= i < j < |l|
      ensures l[i] != l[j]
    {
      var a, x := WaitersAt(s, SEM_NUM, i);
      var b, y := WaitersAt(s, SEM_NUM, j);
    }
    DistinctBound(l, PROC_NUM);
  }

  // ---------------------------------------------------------------- scheduling

  /** One call of schedule: a ready process runs, or comes closer to its turn. */
  lemma ScheduleProgress(s: State, p: nat)
    requires Core(s) && Switching(s) && p < PROC_NUM && s.procs[p].status == READY
    ensures var t := Schedule(s);
            t.curr == p || (t.procs[p].status == READY && Dist(t.curr, p) < Dist(s.curr, p))
    ensures 1 <= Dist(s.curr, Schedule(s).curr) <= PROC_NUM
    ensures forall q :: 0 <= q < PROC_NUM && Dist(s.curr, q) < Dist(s.curr, Schedule(s).curr) ==> s.procs[q].status != READY
  {
    ScheduleKeeps(s);
  }

  /** Whether an event ends in a call of schedule. */
  predicate Switches(s: State, e: Event)
    requires Sizes(s) && Safe(s, e)
  {
    match e
    case Yield => true
    case Exit(_) => true
    case Wait => s.procs[s.curr].childNum != 0 && s.procs[s.curr].zombie.value <= 0
    case P(j) => Entry(s, j).Some? && SemP(s, OfUser(Entry(s, j).value)).procs[s.curr].status == BLOCKED
    case _ => false
  }

  lemma StepProgress(s: State, e: Event, p: nat)
    requires Inv(s) && Allowed(s, e) && p < PROC_NUM && s.procs[p].status == READY
    ensures Safe(s, e)
    ensures var t := Step(s, e);
            || t.curr == p
            || (t.procs[p].status == READY && Dist(t.curr, p) + (if Switches(s, e) then 1 else 0) <= Dist(s.curr, p))
  {
    hide ListsOk, FamilyOk, RefsOk, PidsOk, MakeZombie, Schedule;
    StepInv(s, e);
    match e
    case Yield =>
      FlipKeeps(s, s.curr, READY);
      ScheduleProgress(SetStatus(s, s.curr, READY), p);
    case Exit(code) =>
      ExitKeeps(s, code);
      ExitLeavesReady(s, code, p);
      ScheduleProgress(MakeZombie(s, code), p);
    case Wait =>
      if s.procs[s.curr].childNum != 0 {
        StartWaitKeeps(s);
        if s.procs[s.curr].zombie.value <= 0 {
          ScheduleProgress(StartWait(s), p);
        }
      }
    case P(j) =>
      if Entry(s, j).Some? {
        EntryOpen(s, j);
        SemPUserKeeps(s, Entry(s, j).value);
        var t := SemP(s, OfUser(Entry(s, j).value));
        if t.procs[s.curr].status == BLOCKED {
          ScheduleProgress(t, p);
        }
      }
    case _ =>
  }

  lemma ExitLeavesReady(s: State, code: int, p: nat)
    requires Sizes(s) && Safe(s, Exit(code)) && p < PROC_NUM && p != s.curr && s.procs[p].status == READY
    ensures MakeZombie(s, code).procs[p].status == READY && MakeZombie(s, code).curr == s.curr
  {
  }

  /** How often schedule is called in a run between two points. */
  ghost function Calls(ss: seq<State>, es: seq<Event>, lo: nat, hi: nat): nat
    requires Trace(ss, es) && lo <= hi <= |es|
    decreases hi
  {
    if lo == hi then 0
    else
      RunSafe(ss, es, hi - 1);
      Calls(ss, es, lo, hi - 1) + if Switches(ss[hi - 1], es[hi - 1]) then 1 else 0
  }

  ghost predicate IsReady(s: State, p: nat) {
    Sizes(s) && p < PROC_NUM && s.procs[p].status == READY
  }

  lemma ReadyIsNear(s: State, p: nat)
    requires Inv(s) && IsReady(s, p)
    ensures s.curr != p && Dist(s.curr, p) < PROC_NUM
  {
  }

  /** A process that stays ready while schedule is called 64 times runs: it cannot stay ready longer. */
  lemma {:induction false} ReadyRuns(ss: seq<State>, es: seq<Event>, p: nat, lo: nat, hi: nat)
    requires Trace(ss, es) && lo <= hi <= |es| && p < PROC_NUM
    requires forall i :: lo <= i <= hi ==> IsReady(ss[i], p)
    ensures Sizes(ss[lo]) && Sizes(ss[hi]) && Calls(ss, es, lo, hi) + Dist(ss[hi].curr, p) <= Dist(ss[lo].curr, p)
    ensures Calls(ss, es, lo, hi) < PROC_NUM
    decreases hi
  {
    hide Inv, Trace, Step, Safe, Allowed, Switches, Sizes;
    assert IsReady(ss[lo], p) && IsReady(ss[hi], p);
    RunSafe(ss, es, lo);
    ReadyIsNear(ss[lo], p);
    if lo < hi {
      assert IsReady(ss[hi - 1], p);
      ReadyRuns(ss, es, p, lo, hi - 1);
      RunSafe(ss, es, hi - 1);
      RunSafe(ss, es, hi);
      ReadyIsNear(ss[hi], p);
      StepProgress(ss[hi - 1], es[hi - 1], p);
    }
  }
}
