/** The invariant of processes, semaphores and wait/exit, and what it gives over every run. */
module ProcessInvariant {
  import opened Options
  import opened Processes

  // ---------------------------------------------------------------- sums over processes

  datatype Query =
    | KidsOf(p: nat)
    | ZombiesOf(p: nat)
    | RefsTo(u: nat)
    | Blocked

  predicate Live(pr: Proc) {
    pr.status == RUNNING || pr.status == READY || pr.status == BLOCKED
  }

  function W(pr: Proc, q: Query): nat {
    match q
    case KidsOf(p) => if pr.parent == Some(p) && pr.status != UNUSED then 1 else 0
    case ZombiesOf(p) => if IsZombieOf(pr, p) then 1 else 0
    case RefsTo(u) => if Live(pr) then Refs(pr.usems, u) else 0
    case Blocked => if pr.status == BLOCKED then 1 else 0
  }

  function Sum(procs: seq<Proc>, q: Query): nat {
    if procs == [] then 0 else W(procs[0], q) + Sum(procs[1..], q)
  }

  lemma {:induction false} SumUpdate(procs: seq<Proc>, p: nat, pr: Proc, q: Query)
    requires p < |procs|
    ensures Sum(procs[p := pr], q) == Sum(procs, q) - W(procs[p], q) + W(pr, q)
  {
    if p == 0 {
      assert procs[p := pr][1..] == procs[1..];
    } else {
      SumUpdate(procs[1..], p - 1, pr, q);
      assert procs[p := pr][1..] == procs[1..][p - 1 := pr];
    }
  }

  lemma {:induction false} SumSame(a: seq<Proc>, b: seq<Proc>, q: Query)
    requires |a| == |b| && forall i :: 0 <= i < |a| ==> W(a[i], q) == W(b[i], q)
    ensures Sum(a, q) == Sum(b, q)
  {
    if a != [] {
      SumSame(a[1..], b[1..], q);
    }
  }

  lemma {:induction false} SumPositive(procs: seq<Proc>, q: Query) returns (i: nat)
    requires Sum(procs, q) > 0
    ensures i < |procs| && W(procs[i], q) > 0
  {
    if W(procs[0], q) > 0 {
      i := 0;
    } else {
      i := SumPositive(procs[1..], q);
      i := i + 1;
    }
  }

  lemma {:induction false} SumAtLeast(procs: seq<Proc>, q: Query, i: nat)
    requires i < |procs|
    ensures Sum(procs, q) >= W(procs[i], q)
  {
    if i > 0 {
      SumAtLeast(procs[1..], q, i - 1);
    }
  }

  lemma {:induction false} SumZero(procs: seq<Proc>, q: Query)
    requires forall i :: 0 <= i < |procs| ==> W(procs[i], q) == 0
    ensures Sum(procs, q) == 0
  {
    if procs != [] {
      SumZero(procs[1..], q);
    }
  }

  // ---------------------------------------------------------------- the invariant

  ghost predicate Queued(s: State, id: SemId, i: nat)
    requires Sizes(s)
  {
    IsSem(id) && i < |GetSem(s, id).list|
  }

  /** Who may wait on a semaphore: its owner in sys_wait, or a process that has the semaphore open. */
  ghost predicate MayWait(s: State, id: SemId, q: nat)
    requires Sizes(s)
  {
    && q < PROC_NUM && s.procs[q].status == BLOCKED
    && match id
       case OfProc(p) => q == p && s.procs[q].ctx == Waiting
       case OfUser(u) => s.procs[q].ctx == User && Refs(s.procs[q].usems, u) > 0
  }

  /** A list is as long as the value is negative, and holds processes that may wait there. */
  ghost predicate SemOk(s: State, id: SemId)
    requires Sizes(s)
  {
    IsSem(id) ==>
      && |GetSem(s, id).list| == (if GetSem(s, id).value < 0 then -GetSem(s, id).value else 0)
      && forall i :: 0 <= i < |GetSem(s, id).list| ==> MayWait(s, id, GetSem(s, id).list[i])
  }

  /** No process waits twice, and every blocked one waits somewhere. */
  ghost predicate ListsOk(s: State)
    requires Sizes(s)
  {
    && (forall id :: SemOk(s, id))
    && (forall a, b, i: nat, j: nat :: Queued(s, a, i) && Queued(s, b, j) && GetSem(s, a).list[i] == GetSem(s, b).list[j] ==>
         a == b && i == j)
    && (forall p :: 0 <= p < PROC_NUM && s.procs[p].status == BLOCKED ==> WaitsSomewhere(s, p))
  }

  ghost predicate WaitsSomewhere(s: State, p: nat)
    requires Sizes(s)
  {
    exists id, i: nat :: Queued(s, id, i) && GetSem(s, id).list[i] == p
  }

  /** A slot's parent, even a stale one of an unused slot, is alive; so a slot used again has no strangers for children. */
  ghost predicate ParentOk(s: State, p: nat)
    requires Sizes(s) && p < PROC_NUM
  {
    && s.procs[p].status != UNINIT
    && (s.procs[p].parent.Some? ==>
          var d := s.procs[p].parent.value;
          0 < d < PROC_NUM && d != p && Live(s.procs[d]))
  }

  /** What a live process counts: its children, and its zombie children less the wait it is in. */
  ghost predicate CountsOk(s: State, p: nat)
    requires Sizes(s) && p < PROC_NUM
  {
    Live(s.procs[p]) ==>
      && s.procs[p].childNum == Sum(s.procs, KidsOf(p))
      && s.procs[p].zombie.value == Sum(s.procs, ZombiesOf(p)) - (if s.procs[p].ctx == Waiting then 1 else 0)
      && (s.procs[p].ctx == Waiting ==> s.procs[p].childNum >= 1)
  }

  ghost predicate EntriesOk(s: State, p: nat)
    requires Sizes(s) && p < PROC_NUM
  {
    forall j :: 0 <= j < MAX_USEM && s.procs[p].usems[j].Some? ==> s.procs[p].usems[j].value < USER_SEM_NUM
  }

  ghost predicate PidsOk(s: State)
    requires Sizes(s)
  {
    && (forall p :: 0 <= p < PROC_NUM && s.procs[p].status != UNUSED ==> s.procs[p].pid < s.nextPid)
    && (forall p, q :: 0 <= p < q < PROC_NUM && s.procs[p].status != UNUSED && s.procs[q].status != UNUSED ==>
          s.procs[p].pid != s.procs[q].pid)
  }

  ghost predicate FamilyOk(s: State)
    requires Sizes(s)
  {
    forall p :: 0 <= p < PROC_NUM ==> ParentOk(s, p) && CountsOk(s, p)
  }

  /** A user semaphore counts the entries that live processes have for it. */
  ghost predicate RefsOk(s: State)
    requires Sizes(s)
  {
    && (forall p :: 0 <= p < PROC_NUM ==> EntriesOk(s, p))
    && (forall u :: 0 <= u < USER_SEM_NUM ==> s.usems[u].ref == Sum(s.procs, RefsTo(u)))
  }

  ghost predicate IdleOk(s: State)
    requires Sizes(s)
  {
    s.procs[0].ctx == User && (s.procs[0].status == RUNNING || s.procs[0].status == READY)
  }

  /** All of the invariant that does not say who runs. */
  ghost predicate Core(s: State) {
    Sizes(s) && ListsOk(s) && FamilyOk(s) && RefsOk(s) && PidsOk(s) && IdleOk(s)
  }

  /** Exactly the current process runs. */
  ghost predicate Running(s: State)
    requires Sizes(s)
  {
    forall p :: 0 <= p < PROC_NUM ==> (s.procs[p].status == RUNNING <==> p == s.curr)
  }

  /** Between leaving a process and entering the next, none runs. */
  ghost predicate Switching(s: State)
    requires Sizes(s)
  {
    forall p :: 0 <= p < PROC_NUM ==> s.procs[p].status != RUNNING
  }

  ghost predicate Inv(s: State) {
    Core(s) && Running(s)
  }

  // ---------------------------------------------------------------- the wait lists

  /** Semaphores with waiters, blocked processes and what entitles them to wait are as before. */
  ghost predicate SameWaits(s: State, t: State)
    requires Sizes(s) && Sizes(t)
  {
    && (forall id :: IsSem(id) ==> SameWaiters(GetSem(s, id), GetSem(t, id)))
    && (forall q :: 0 <= q < PROC_NUM ==> SameBlocked(s.procs[q], t.procs[q]))
  }

  ghost predicate SameWaiters(a: Sem, b: Sem) {
    a.list == b.list && (a.value == b.value || (a.value >= 0 && b.value >= 0))
  }

  ghost predicate SameBlocked(a: Proc, b: Proc) {
    a.status == BLOCKED || b.status == BLOCKED ==> a.status == b.status && a.ctx == b.ctx && a.usems == b.usems
  }

  lemma ListsSame(s: State, t: State)
    requires Sizes(s) && Sizes(t) && ListsOk(s) && SameWaits(s, t)
    ensures ListsOk(t)
  {
    forall id | IsSem(id)
      ensures SemOk(t, id)
    {
      assert SemOk(s, id);
      assert SameWaiters(GetSem(s, id), GetSem(t, id));
      forall i | 0 <= i < |GetSem(t, id).list|
        ensures MayWait(t, id, GetSem(t, id).list[i])
      {
        assert MayWait(s, id, GetSem(s, id).list[i]);
        assert SameBlocked(s.procs[GetSem(s, id).list[i]], t.procs[GetSem(s, id).list[i]]);
      }
    }
    forall a, b, i: nat, j: nat | Queued(t, a, i) && Queued(t, b, j) && GetSem(t, a).list[i] == GetSem(t, b).list[j]
      ensures a == b && i == j
    {
      assert SameWaiters(GetSem(s, a), GetSem(t, a)) && SameWaiters(GetSem(s, b), GetSem(t, b));
      assert Queued(s, a, i) && Queued(s, b, j);
    }
    forall p | 0 <= p < PROC_NUM && t.procs[p].status == BLOCKED
      ensures WaitsSomewhere(t, p)
    {
      assert SameBlocked(s.procs[p], t.procs[p]);
      assert WaitsSomewhere(s, p);
      var id, i: nat :| Queued(s, id, i) && GetSem(s, id).list[i] == p;
      assert SameWaiters(GetSem(s, id), GetSem(t, id));
      assert Queued(t, id, i);
    }
  }

  /** The running process goes to the end of a wait list. */
  ghost predicate Enqueues(s: State, t: State, id: SemId, c: nat)
    requires Sizes(s) && Sizes(t)
  {
    && IsSem(id) && c < PROC_NUM && s.procs[c].status != BLOCKED
    && GetSem(s, id).value <= 0 && GetSem(t, id) == Sem(GetSem(s, id).value - 1, GetSem(s, id).list + [c])
    && (forall o :: IsSem(o) && o != id ==> GetSem(t, o) == GetSem(s, o))
    && (forall q :: 0 <= q < PROC_NUM && q != c ==> SameBlocked(s.procs[q], t.procs[q]))
    && MayWait(t, id, c)
  }

  lemma NotQueued(s: State, c: nat)
    requires Sizes(s) && ListsOk(s) && c < PROC_NUM && s.procs[c].status != BLOCKED
    ensures forall id, i: nat :: Queued(s, id, i) ==> GetSem(s, id).list[i] != c
  {
    forall id, i: nat | Queued(s, id, i)
      ensures GetSem(s, id).list[i] != c
    {
      assert SemOk(s, id);
      assert MayWait(s, id, GetSem(s, id).list[i]);
    }
  }

  lemma ListsEnqueue(s: State, t: State, id: SemId, c: nat)
    requires Sizes(s) && Sizes(t) && ListsOk(s) && Enqueues(s, t, id, c)
    ensures ListsOk(t)
  {
    NotQueued(s, c);
    forall o | IsSem(o)
      ensures SemOk(t, o)
    {
      assert SemOk(s, o);
      forall i | 0 <= i < |GetSem(t, o).list|
        ensures MayWait(t, o, GetSem(t, o).list[i])
      {
        if i < |GetSem(s, o).list| {
          assert Queued(s, o, i) && MayWait(s, o, GetSem(s, o).list[i]);
          assert SameBlocked(s.procs[GetSem(s, o).list[i]], t.procs[GetSem(s, o).list[i]]);
        }
      }
    }
    forall a, b, i: nat, j: nat | Queued(t, a, i) && Queued(t, b, j) && GetSem(t, a).list[i] == GetSem(t, b).list[j]
      ensures a == b && i == j
    {
      if i < |GetSem(s, a).list| {
        assert Queued(s, a, i);
      }
      if j < |GetSem(s, b).list| {
        assert Queued(s, b, j);
      }
    }
    forall p | 0 <= p < PROC_NUM && t.procs[p].status == BLOCKED
      ensures WaitsSomewhere(t, p)
    {
      if p == c {
        assert Queued(t, id, |GetSem(s, id).list|);
      } else {
        assert SameBlocked(s.procs[p], t.procs[p]);
        assert WaitsSomewhere(s, p);
        var o, i: nat :| Queued(s, o, i) && GetSem(s, o).list[i] == p;
        assert Queued(t, o, i);
      }
    }
  }

  /** The first of a wait list leaves it and is no longer blocked. */
  ghost predicate Dequeues(s: State, t: State, id: SemId)
    requires Sizes(s) && Sizes(t)
  {
    && IsSem(id) && GetSem(s, id).value < 0 && GetSem(s, id).list != [] && GetSem(s, id).list[0] < PROC_NUM
    && GetSem(t, id) == Sem(GetSem(s, id).value + 1, GetSem(s, id).list[1..])
    && (forall o :: IsSem(o) && o != id ==> GetSem(t, o) == GetSem(s, o))
    && (forall q :: 0 <= q < PROC_NUM && q != GetSem(s, id).list[0] ==> SameBlocked(s.procs[q], t.procs[q]))
    && t.procs[GetSem(s, id).list[0]].status != BLOCKED
  }

  lemma ListsDequeue(s: State, t: State, id: SemId)
    requires Sizes(s) && Sizes(t) && ListsOk(s) && Dequeues(s, t, id)
    ensures ListsOk(t)
  {
    var first := GetSem(s, id).list[0];
    assert Queued(s, id, 0);
    forall o | IsSem(o)
      ensures SemOk(t, o)
    {
      assert SemOk(s, o);
      forall i | 0 <= i < |GetSem(t, o).list|
        ensures MayWait(t, o, GetSem(t, o).list[i])
      {
        var k := if o == id then i + 1 else i;
        assert Queued(s, o, k) && MayWait(s, o, GetSem(s, o).list[k]);
        assert SameBlocked(s.procs[GetSem(s, o).list[k]], t.procs[GetSem(s, o).list[k]]);
      }
    }
    forall a, b, i: nat, j: nat | Queued(t, a, i) && Queued(t, b, j) && GetSem(t, a).list[i] == GetSem(t, b).list[j]
      ensures a == b && i == j
    {
      assert Queued(s, a, if a == id then i + 1 else i) && Queued(s, b, if b == id then j + 1 else j);
    }
    forall p | 0 <= p < PROC_NUM && t.procs[p].status == BLOCKED
      ensures WaitsSomewhere(t, p)
    {
      assert SameBlocked(s.procs[p], t.procs[p]);
      assert WaitsSomewhere(s, p);
      var o, i: nat :| Queued(s, o, i) && GetSem(s, o).list[i] == p;
      assert Queued(t, o, if o == id then i - 1 else i);
    }
  }

  // ---------------------------------------------------------------- changes that move no relation

  ghost predicate SameKinProc(a: Proc, b: Proc) {
    && a.parent == b.parent && a.pid == b.pid && a.childNum == b.childNum
    && (Live(a) <==> Live(b)) && (a.status == UNUSED <==> b.status == UNUSED) && (a.status == UNINIT <==> b.status == UNINIT)
  }

  /** Parents, children and who is alive are as before. */
  ghost predicate SameKin(s: State, t: State)
    requires Sizes(s) && Sizes(t)
  {
    s.nextPid <= t.nextPid && forall p :: 0 <= p < PROC_NUM ==> SameKinProc(s.procs[p], t.procs[p])
  }

  ghost predicate SameCountsProc(a: Proc, b: Proc) {
    Live(a) ==> a.ctx == b.ctx && a.zombie.value == b.zombie.value
  }

  ghost predicate SameCounts(s: State, t: State)
    requires Sizes(s) && Sizes(t)
  {
    forall p :: 0 <= p < PROC_NUM ==> SameCountsProc(s.procs[p], t.procs[p])
  }

  ghost predicate SameTables(s: State, t: State)
    requires Sizes(s) && Sizes(t)
  {
    && (forall p :: 0 <= p < PROC_NUM ==> s.procs[p].usems == t.procs[p].usems)
    && (forall u :: 0 <= u < USER_SEM_NUM ==> s.usems[u].ref == t.usems[u].ref)
  }

  lemma KinSums(s: State, t: State, p: nat)
    requires Sizes(s) && Sizes(t) && SameKin(s, t)
    ensures Sum(s.procs, KidsOf(p)) == Sum(t.procs, KidsOf(p)) && Sum(s.procs, ZombiesOf(p)) == Sum(t.procs, ZombiesOf(p))
  {
    forall i | 0 <= i < PROC_NUM
      ensures W(s.procs[i], KidsOf(p)) == W(t.procs[i], KidsOf(p)) && W(s.procs[i], ZombiesOf(p)) == W(t.procs[i], ZombiesOf(p))
    {
      assert SameKinProc(s.procs[i], t.procs[i]);
    }
    SumSame(s.procs, t.procs, KidsOf(p));
    SumSame(s.procs, t.procs, ZombiesOf(p));
  }

  lemma ParentsSame(s: State, t: State)
    requires Sizes(s) && Sizes(t) && SameKin(s, t) && FamilyOk(s)
    ensures forall p :: 0 <= p < PROC_NUM ==> ParentOk(t, p)
  {
    forall p | 0 <= p < PROC_NUM
      ensures ParentOk(t, p)
    {
      assert ParentOk(s, p) && SameKinProc(s.procs[p], t.procs[p]);
      if s.procs[p].parent.Some? {
        assert SameKinProc(s.procs[s.procs[p].parent.value], t.procs[s.procs[p].parent.value]);
      }
    }
  }

  lemma FamilySame(s: State, t: State)
    requires Sizes(s) && Sizes(t) && SameKin(s, t) && FamilyOk(s) && SameCounts(s, t)
    ensures FamilyOk(t)
  {
    ParentsSame(s, t);
    forall p | 0 <= p < PROC_NUM
      ensures CountsOk(t, p)
    {
      assert CountsOk(s, p) && SameKinProc(s.procs[p], t.procs[p]) && SameCountsProc(s.procs[p], t.procs[p]);
      KinSums(s, t, p);
    }
  }

  lemma PidsSame(s: State, t: State)
    requires Sizes(s) && Sizes(t) && SameKin(s, t) && PidsOk(s)
    ensures PidsOk(t)
  {
    assert forall p :: 0 <= p < PROC_NUM ==> SameKinProc(s.procs[p], t.procs[p]);
  }

  lemma RefsSame(s: State, t: State)
    requires Sizes(s) && Sizes(t) && SameKin(s, t) && SameTables(s, t) && RefsOk(s)
    ensures RefsOk(t)
  {
    forall p | 0 <= p < PROC_NUM
      ensures EntriesOk(t, p)
    {
      assert EntriesOk(s, p);
    }
    forall u | 0 <= u < USER_SEM_NUM
      ensures t.usems[u].ref == Sum(t.procs, RefsTo(u))
    {
      forall i | 0 <= i < PROC_NUM
        ensures W(s.procs[i], RefsTo(u)) == W(t.procs[i], RefsTo(u))
      {
        assert SameKinProc(s.procs[i], t.procs[i]);
      }
      SumSame(s.procs, t.procs, RefsTo(u));
    }
  }

  lemma CoreSame(s: State, t: State)
    requires Core(s) && Sizes(t) && ListsOk(t) && SameKin(s, t) && SameCounts(s, t) && SameTables(s, t) && IdleOk(t)
    ensures Core(t)
  {
    FamilySame(s, t);
    PidsSame(s, t);
    RefsSame(s, t);
  }

  // ---------------------------------------------------------------- one primitive at a time

  lemma FlipKeeps(s: State, p: nat, st: Status)
    requires Core(s) && p < PROC_NUM && s.procs[p].status in {RUNNING, READY} && st in {RUNNING, READY}
    ensures Core(SetStatus(s, p, st))
  {
    var t := SetStatus(s, p, st);
    ListsSame(s, t);
    CoreSame(s, t);
  }

  /** schedule always finds a ready process, because the idle one never blocks. */
  lemma ScheduleKeeps(s: State)
    requires Core(s) && Switching(s)
    ensures Inv(Schedule(s)) && s.procs[Schedule(s).curr].status == READY
  {
    hide ListsOk, FamilyOk, RefsOk, PidsOk;
    var n := NextReady(s.procs, s.curr, 1);
    assert Dist(s.curr, 0) >= 1 && s.procs[0].status == READY;
    FlipKeeps(s, n.value, RUNNING);
    var t := SetStatus(s, n.value, RUNNING);
    assert Core(t.(curr := n.value)) by {
      var t' := t.(curr := n.value);
      ListsSame(t, t');
      CoreSame(t, t');
    }
  }

  lemma SemPUserKeeps(s: State, u: nat)
    requires Inv(s) && s.curr != 0 && u < USER_SEM_NUM && s.procs[s.curr].ctx == User && Refs(s.procs[s.curr].usems, u) > 0
    ensures var t := SemP(s, OfUser(u)); Core(t) && if t.procs[s.curr].status == BLOCKED then Switching(t) else Running(t)
  {
    var id := OfUser(u);
    var t := SemP(s, id);
    assert SemOk(s, id);
    if GetSem(s, id).value - 1 < 0 {
      assert Enqueues(s, t, id, s.curr);
      ListsEnqueue(s, t, id, s.curr);
    } else {
      ListsSame(s, t);
    }
    CoreSame(s, t);
  }

  lemma SemVUserLists(s: State, u: nat)
    requires Inv(s) && u < USER_SEM_NUM
    ensures CanV(s, OfUser(u))
    ensures var t := SemV(s, OfUser(u)); ListsOk(t) && IdleOk(t) && Running(t)
    ensures var t := SemV(s, OfUser(u)); SameKin(s, t) && SameCounts(s, t) && SameTables(s, t)
  {
    hide FamilyOk, RefsOk, PidsOk;
    var id := OfUser(u);
    assert SemOk(s, id);
    if GetSem(s, id).value < 0 {
      assert MayWait(s, id, GetSem(s, id).list[0]);
      assert Dequeues(s, SemV(s, id), id);
      ListsDequeue(s, SemV(s, id), id);
    } else {
      ListsSame(s, SemV(s, id));
    }
  }

  lemma SemVUserKeeps(s: State, u: nat)
    requires Inv(s) && u < USER_SEM_NUM
    ensures CanV(s, OfUser(u)) && Inv(SemV(s, OfUser(u)))
  {
    hide ListsOk, FamilyOk, RefsOk, PidsOk, SameKin, SameCounts, SameTables, SemV;
    SemVUserLists(s, u);
    CoreSame(s, SemV(s, OfUser(u)));
  }

  /** The wait list of a live process that is not in sys_wait is empty, and a process waits for a child at most once. */
  lemma ZombieList(s: State, p: nat)
    requires Sizes(s) && ListsOk(s) && p < PROC_NUM && !(s.procs[p].status == BLOCKED && s.procs[p].ctx == Waiting)
    ensures s.procs[p].zombie.list == [] && s.procs[p].zombie.value >= 0
  {
    var id := OfProc(p);
    assert SemOk(s, id);
    assert GetSem(s, id).list != [] ==> MayWait(s, id, GetSem(s, id).list[0]);
  }

  lemma StartWaitLists(s: State)
    requires Inv(s) && s.curr != 0 && s.procs[s.curr].ctx == User
    ensures ListsOk(StartWait(s)) && IdleOk(StartWait(s))
    ensures StartWait(s).procs[s.curr].status == (if s.procs[s.curr].zombie.value > 0 then RUNNING else BLOCKED)
    ensures StartWait(s).procs[s.curr].status == BLOCKED ==> Switching(StartWait(s))
    ensures StartWait(s).procs[s.curr].status != BLOCKED ==> Running(StartWait(s))
    ensures StartWait(s).procs[s.curr].ctx == Waiting
  {
    hide FamilyOk, RefsOk, PidsOk;
    var t := StartWait(s);
    var c := s.curr;
    ZombieList(s, c);
    if s.procs[c].zombie.value > 0 {
      ListsSame(s, t);
    } else {
      assert Enqueues(s, t, OfProc(c), c);
      ListsEnqueue(s, t, OfProc(c), c);
    }
  }

  lemma StartWaitFamily(s: State)
    requires Inv(s) && s.procs[s.curr].ctx == User && s.procs[s.curr].childNum != 0
    ensures FamilyOk(StartWait(s)) && SameKin(s, StartWait(s)) && SameTables(s, StartWait(s))
  {
    hide ListsOk, RefsOk, PidsOk;
    var t := StartWait(s);
    ParentsSame(s, t);
    forall p | 0 <= p < PROC_NUM
      ensures CountsOk(t, p)
    {
      assert CountsOk(s, p);
      KinSums(s, t, p);
    }
  }

  lemma StartWaitKeeps(s: State)
    requires Inv(s) && s.curr != 0 && s.procs[s.curr].ctx == User && s.procs[s.curr].childNum != 0
    ensures var t := StartWait(s); Core(t) && if t.procs[s.curr].status == BLOCKED then Switching(t) else Running(t)
    ensures StartWait(s).procs[s.curr].status == (if s.procs[s.curr].zombie.value > 0 then RUNNING else BLOCKED)
    ensures StartWait(s).procs[s.curr].ctx == Waiting
  {
    hide ListsOk, FamilyOk, RefsOk, PidsOk, SameKin, SameTables, SemP;
    StartWaitLists(s);
    StartWaitFamily(s);
    PidsSame(s, StartWait(s));
    RefsSame(s, StartWait(s));
  }

  /** A process that goes on in sys_wait has a zombie child to find. */
  lemma ZombieThere(s: State)
    requires Core(s) && s.procs[s.curr].status == RUNNING && s.procs[s.curr].ctx == Waiting
    ensures FindZombie(s.procs, s.curr, 0) < PROC_NUM
  {
    ZombieList(s, s.curr);
    assert CountsOk(s, s.curr);
    var i := SumPositive(s.procs, ZombiesOf(s.curr));
  }

  lemma ReapSums(s: State, p: nat)
    requires Sizes(s) && FindZombie(s.procs, s.curr, 0) < PROC_NUM && s.procs[s.curr].status == RUNNING
    ensures var d := if p == s.curr then 1 else 0;
            && Sum(Reap(s).procs, KidsOf(p)) == Sum(s.procs, KidsOf(p)) - d
            && Sum(Reap(s).procs, ZombiesOf(p)) == Sum(s.procs, ZombiesOf(p)) - d
  {
    var z := FindZombie(s.procs, s.curr, 0);
    var procs := s.procs[z := s.procs[z].(status := UNUSED)];
    var me := procs[s.curr].(childNum := procs[s.curr].childNum - 1, ctx := User);
    SumUpdate(s.procs, z, s.procs[z].(status := UNUSED), KidsOf(p));
    SumUpdate(s.procs, z, s.procs[z].(status := UNUSED), ZombiesOf(p));
    SumUpdate(procs, s.curr, me, KidsOf(p));
    SumUpdate(procs, s.curr, me, ZombiesOf(p));
  }

  lemma ReapRefs(s: State)
    requires Core(s) && FindZombie(s.procs, s.curr, 0) < PROC_NUM && s.procs[s.curr].status == RUNNING
    ensures RefsOk(Reap(s))
  {
    var t := Reap(s);
    forall p | 0 <= p < PROC_NUM
      ensures EntriesOk(t, p)
    {
      assert EntriesOk(s, p);
    }
    forall u | 0 <= u < USER_SEM_NUM
      ensures t.usems[u].ref == Sum(t.procs, RefsTo(u))
    {
      SumSame(s.procs, t.procs, RefsTo(u));
    }
  }

  lemma ReapFamily(s: State)
    requires Inv(s) && s.procs[s.curr].ctx == Waiting && FindZombie(s.procs, s.curr, 0) < PROC_NUM
    ensures FamilyOk(Reap(s))
  {
    hide ListsOk, RefsOk, PidsOk;
    var t := Reap(s);
    forall p | 0 <= p < PROC_NUM
      ensures ParentOk(t, p) && CountsOk(t, p)
    {
      assert ParentOk(s, p) && CountsOk(s, p);
      ReapSums(s, p);
    }
  }

  lemma ReapKeeps(s: State)
    requires Inv(s) && s.curr != 0 && s.procs[s.curr].ctx == Waiting && FindZombie(s.procs, s.curr, 0) < PROC_NUM
    ensures Inv(Reap(s))
  {
    hide ListsOk, FamilyOk, RefsOk;
    ListsSame(s, Reap(s));
    ReapFamily(s);
    ReapRefs(s);
  }

  // ---------------------------------------------------------------- sys_fork

  lemma ForkSums(s: State, p: nat)
    requires Core(s) && FreeSlot(s.procs, 1) < PROC_NUM && s.procs[s.curr].status == RUNNING && p < PROC_NUM
    ensures Sum(Fork(s).procs, KidsOf(p)) == Sum(s.procs, KidsOf(p)) + (if p == s.curr then 1 else 0)
    ensures Sum(Fork(s).procs, ZombiesOf(p)) == Sum(s.procs, ZombiesOf(p))
    ensures !Live(s.procs[p]) ==> Sum(s.procs, KidsOf(p)) == 0 && Sum(s.procs, ZombiesOf(p)) == 0
  {
    hide ListsOk, RefsOk, PidsOk;
    var i := FreeSlot(s.procs, 1);
    var me := s.procs[s.curr];
    var child := Proc(s.nextPid, READY, Some(s.curr), 0, s.procs[i].exitCode, Sem(0, []), me.usems, User);
    var procs := s.procs[i := child];
    SumUpdate(s.procs, i, child, KidsOf(p));
    SumUpdate(s.procs, i, child, ZombiesOf(p));
    SumUpdate(procs, s.curr, procs[s.curr].(childNum := me.childNum + 1), KidsOf(p));
    SumUpdate(procs, s.curr, procs[s.curr].(childNum := me.childNum + 1), ZombiesOf(p));
    if !Live(s.procs[p]) {
      forall j | 0 <= j < PROC_NUM
        ensures W(s.procs[j], KidsOf(p)) == 0 && W(s.procs[j], ZombiesOf(p)) == 0
      {
        assert ParentOk(s, j);
      }
      SumZero(s.procs, KidsOf(p));
      SumZero(s.procs, ZombiesOf(p));
    }
  }

  lemma ForkRefs(s: State)
    requires Core(s) && FreeSlot(s.procs, 1) < PROC_NUM && s.procs[s.curr].status == RUNNING
    ensures RefsOk(Fork(s))
  {
    var t := Fork(s);
    var i := FreeSlot(s.procs, 1);
    var procs := s.procs[i := t.procs[i]];
    forall p | 0 <= p < PROC_NUM
      ensures EntriesOk(t, p)
    {
      assert EntriesOk(s, p) && EntriesOk(s, s.curr);
    }
    forall u | 0 <= u < USER_SEM_NUM
      ensures t.usems[u].ref == Sum(t.procs, RefsTo(u))
    {
      SumUpdate(s.procs, i, t.procs[i], RefsTo(u));
      SumUpdate(procs, s.curr, t.procs[s.curr], RefsTo(u));
    }
  }

  lemma ForkLists(s: State)
    requires Inv(s) && FreeSlot(s.procs, 1) < PROC_NUM
    ensures ListsOk(Fork(s)) && PidsOk(Fork(s))
  {
    hide FamilyOk, RefsOk;
    ZombieList(s, FreeSlot(s.procs, 1));
    ListsSame(s, Fork(s));
  }

  lemma ForkKeeps(s: State)
    requires Inv(s) && s.curr != 0
    ensures Inv(Fork(s))
  {
    hide ListsOk, PidsOk, RefsOk;
    var i := FreeSlot(s.procs, 1);
    if i < PROC_NUM {
      var t := Fork(s);
      ForkLists(s);
      ForkRefs(s);
      forall p | 0 <= p < PROC_NUM
        ensures ParentOk(t, p) && CountsOk(t, p)
      {
        assert ParentOk(s, p) && CountsOk(s, p);
        ForkSums(s, p);
      }
    }
  }

  // ---------------------------------------------------------------- sys_exit

  /** The running process as a zombie, before its parent is told. */
  function Dying(s: State, code: int): (t: State)
    requires Sizes(s)
    ensures Sizes(t)
  {
    s.(procs := s.procs[s.curr := s.procs[s.curr].(status := ZOMBIE, exitCode := code)])
  }

  /** What exit does to every other process. */
  ghost predicate Bereaved(a: Proc, b: Proc, c: nat, parent: bool) {
    && b.parent == (if a.parent == Some(c) then None else a.parent)
    && b.pid == a.pid && b.childNum == a.childNum && b.usems == a.usems && b.ctx == a.ctx
    && (Live(a) <==> Live(b)) && (a.status == UNUSED <==> b.status == UNUSED) && (a.status == UNINIT <==> b.status == UNINIT)
    && b.zombie.value == a.zombie.value + (if parent then 1 else 0)
  }

  lemma DyingLists(s: State, code: int)
    requires Inv(s) && s.curr != 0
    ensures ListsOk(Dying(s, code)) && Switching(Dying(s, code)) && IdleOk(Dying(s, code))
  {
    ListsSame(s, Dying(s, code));
  }

  lemma ParentCanV(s: State, id: SemId)
    requires Sizes(s) && ListsOk(s) && IsSem(id)
    ensures CanV(s, id)
    ensures GetSem(s, id).value < 0 ==> MayWait(s, id, GetSem(s, id).list[0])
  {
    assert SemOk(s, id);
    assert GetSem(s, id).list != [] ==> MayWait(s, id, GetSem(s, id).list[0]);
  }

  lemma SemVLists(s: State, id: SemId)
    requires Sizes(s) && IsSem(id) && CanV(s, id) && ListsOk(s) && Switching(s) && IdleOk(s)
    ensures ListsOk(SemV(s, id)) && Switching(SemV(s, id)) && IdleOk(SemV(s, id))
  {
    ParentCanV(s, id);
    var t := SemV(s, id);
    if GetSem(s, id).value < 0 {
      assert Dequeues(s, t, id);
      ListsDequeue(s, t, id);
    } else {
      ListsSame(s, t);
    }
  }

  lemma ExitIsSafe(s: State, code: int)
    requires Inv(s) && s.curr != 0
    ensures Safe(s, Exit(code))
  {
    assert ParentOk(s, s.curr);
    if s.procs[s.curr].parent.Some? {
      ParentCanV(s, OfProc(s.procs[s.curr].parent.value));
    }
  }

  lemma ExitLists(s: State, code: int)
    requires Inv(s) && s.curr != 0 && Safe(s, Exit(code))
    ensures var t := MakeZombie(s, code); ListsOk(t) && Switching(t) && IdleOk(t)
  {
    hide ListsOk, FamilyOk, RefsOk, PidsOk, SemV;
    var c := s.curr;
    var s1 := Dying(s, code);
    DyingLists(s, code);
    var s2 := s1;
    if s.procs[c].parent.Some? {
      s2 := SemV(s1, OfProc(s.procs[c].parent.value));
      SemVLists(s1, OfProc(s.procs[c].parent.value));
    }
    ListsSame(s2, MakeZombie(s, code));
  }

  lemma ExitProcs(s: State, code: int)
    requires Inv(s) && s.curr != 0 && Safe(s, Exit(code))
    ensures var t := MakeZombie(s, code); var c := s.curr;
            && t.curr == s.curr && t.nextPid == s.nextPid
            && t.procs[c].status == ZOMBIE && t.procs[c].parent == s.procs[c].parent && t.procs[c].pid == s.procs[c].pid
            && t.procs[c].usems == s.procs[c].usems
            && (forall p :: 0 <= p < PROC_NUM && p != c ==>
                  Bereaved(s.procs[p], t.procs[p], c, s.procs[c].parent == Some(p)))
            && (forall u :: 0 <= u < USER_SEM_NUM ==> t.usems[u].ref == s.usems[u].ref - Refs(s.procs[c].usems, u))
  {
    hide PidsOk, RefsOk;
    var c := s.curr;
    assert ParentOk(s, c);
    var s1 := Dying(s, code);
    DyingLists(s, code);
    if s.procs[c].parent.Some? {
      ParentCanV(s1, OfProc(s.procs[c].parent.value));
    }
  }

  lemma ExitSums(s: State, code: int, p: nat)
    requires Inv(s) && s.curr != 0 && Safe(s, Exit(code)) && p != s.curr
    ensures var t := MakeZombie(s, code);
            && Sum(t.procs, KidsOf(p)) == Sum(s.procs, KidsOf(p))
            && Sum(t.procs, ZombiesOf(p)) == Sum(s.procs, ZombiesOf(p)) + (if s.procs[s.curr].parent == Some(p) then 1 else 0)
  {
    hide ListsOk, PidsOk, RefsOk;
    var c := s.curr;
    var t := MakeZombie(s, code);
    ExitProcs(s, code);
    SumUpdate(s.procs, c, t.procs[c], KidsOf(p));
    SumUpdate(s.procs, c, t.procs[c], ZombiesOf(p));
    var mid := s.procs[c := t.procs[c]];
    forall i | 0 <= i < PROC_NUM
      ensures W(mid[i], KidsOf(p)) == W(t.procs[i], KidsOf(p)) && W(mid[i], ZombiesOf(p)) == W(t.procs[i], ZombiesOf(p))
    {
      assert i != c ==> Bereaved(s.procs[i], t.procs[i], c, s.procs[c].parent == Some(i));
    }
    SumSame(mid, t.procs, KidsOf(p));
    SumSame(mid, t.procs, ZombiesOf(p));
  }

  lemma ExitFamily(s: State, code: int)
    requires Inv(s) && s.curr != 0 && Safe(s, Exit(code))
    ensures FamilyOk(MakeZombie(s, code))
  {
    hide ListsOk, PidsOk, RefsOk, MakeZombie;
    var c := s.curr;
    var t := MakeZombie(s, code);
    ExitProcs(s, code);
    forall p | 0 <= p < PROC_NUM
      ensures ParentOk(t, p) && CountsOk(t, p)
    {
      assert ParentOk(s, p) && CountsOk(s, p);
      if p != c {
        assert Bereaved(s.procs[p], t.procs[p], c, s.procs[c].parent == Some(p));
        ExitSums(s, code, p);
      }
      if t.procs[p].parent.Some? {
        var d := t.procs[p].parent.value;
        assert d != c && Bereaved(s.procs[d], t.procs[d], c, s.procs[c].parent == Some(d));
      }
    }
  }

  lemma ExitRefs(s: State, code: int)
    requires Inv(s) && s.curr != 0 && Safe(s, Exit(code))
    ensures RefsOk(MakeZombie(s, code)) && PidsOk(MakeZombie(s, code))
  {
    hide ListsOk, FamilyOk, MakeZombie;
    var c := s.curr;
    var t := MakeZombie(s, code);
    ExitProcs(s, code);
    var mid := s.procs[c := t.procs[c]];
    assert forall p :: 0 <= p < PROC_NUM && p != c ==> Bereaved(s.procs[p], t.procs[p], c, s.procs[c].parent == Some(p));
    forall p | 0 <= p < PROC_NUM
      ensures EntriesOk(t, p)
    {
      assert EntriesOk(s, p);
    }
    forall u | 0 <= u < USER_SEM_NUM
      ensures t.usems[u].ref == Sum(t.procs, RefsTo(u))
    {
      SumUpdate(s.procs, c, t.procs[c], RefsTo(u));
      SumSame(mid, t.procs, RefsTo(u));
    }
  }

  lemma ExitKeeps(s: State, code: int)
    requires Inv(s) && s.curr != 0
    ensures Safe(s, Exit(code)) && Core(MakeZombie(s, code)) && Switching(MakeZombie(s, code))
  {
    hide ListsOk, FamilyOk, RefsOk, PidsOk, MakeZombie, Safe, Switching, IdleOk;
    ExitIsSafe(s, code);
    ExitLists(s, code);
    ExitFamily(s, code);
    ExitRefs(s, code);
  }

  // ---------------------------------------------------------------- opening and closing semaphores

  lemma {:induction false} RefsUpdate(tbl: seq<Option<nat>>, j: nat, e: Option<nat>, u: nat)
    requires j < |tbl|
    ensures Refs(tbl[j := e], u) == Refs(tbl, u) - (if tbl[j] == Some(u) then 1 else 0) + (if e == Some(u) then 1 else 0)
  {
    if j == 0 {
      assert tbl[j := e][1..] == tbl[1..];
    } else {
      RefsUpdate(tbl[1..], j - 1, e, u);
      assert tbl[j := e][1..] == tbl[1..][j - 1 := e];
    }
  }

  lemma {:induction false} RefsPositive(tbl: seq<Option<nat>>, j: nat, u: nat)
    requires j < |tbl| && tbl[j] == Some(u)
    ensures Refs(tbl, u) > 0
  {
    if j > 0 {
      RefsPositive(tbl[1..], j - 1, u);
    }
  }

  /** A semaphore nobody has open has no waiters, so it can be used again. */
  lemma RecycledIsEmpty(s: State, u: nat)
    requires Core(s) && u < USER_SEM_NUM && s.usems[u].ref == 0
    ensures s.usems[u].sem.list == [] && s.usems[u].sem.value >= 0
  {
    var id := OfUser(u);
    assert SemOk(s, id);
    if s.usems[u].sem.list != [] {
      var q := s.usems[u].sem.list[0];
      assert MayWait(s, id, q);
      SumAtLeast(s.procs, RefsTo(u), q);
    }
  }

  lemma OpenRefs(s: State, value: int)
    requires Inv(s)
    ensures RefsOk(SemOpen(s, value))
  {
    hide ListsOk, FamilyOk, PidsOk;
    var j, n := FirstNone(s.procs[s.curr].usems, 0), FirstUnused(s.usems, 0);
    if j < MAX_USEM && n < USER_SEM_NUM {
      var t := SemOpen(s, value);
      forall p | 0 <= p < PROC_NUM
        ensures EntriesOk(t, p)
      {
        assert EntriesOk(s, p);
      }
      forall u | 0 <= u < USER_SEM_NUM
        ensures t.usems[u].ref == Sum(t.procs, RefsTo(u))
      {
        SumUpdate(s.procs, s.curr, t.procs[s.curr], RefsTo(u));
        RefsUpdate(s.procs[s.curr].usems, j, Some(n), u);
      }
    }
  }

  lemma OpenKeeps(s: State, value: int)
    requires Inv(s) && value >= 0
    ensures Inv(SemOpen(s, value))
  {
    hide FamilyOk, RefsOk, PidsOk;
    var n := FirstUnused(s.usems, 0);
    var t := SemOpen(s, value);
    if n < USER_SEM_NUM {
      RecycledIsEmpty(s, n);
    }
    ListsSame(s, t);
    OpenRefs(s, value);
    FamilySame(s, t);
    PidsSame(s, t);
  }

  lemma CloseRefs(s: State, j: nat, n: nat)
    requires Inv(s) && j < MAX_USEM && n < USER_SEM_NUM && s.procs[s.curr].usems[j] == Some(n)
    ensures RefsOk(SemClose(s, j, n))
  {
    hide ListsOk, FamilyOk, PidsOk;
    var t := SemClose(s, j, n);
    forall p | 0 <= p < PROC_NUM
      ensures EntriesOk(t, p)
    {
      assert EntriesOk(s, p);
    }
    forall u | 0 <= u < USER_SEM_NUM
      ensures t.usems[u].ref == Sum(t.procs, RefsTo(u))
    {
      SumUpdate(s.procs, s.curr, t.procs[s.curr], RefsTo(u));
      RefsUpdate(s.procs[s.curr].usems, j, None, u);
    }
  }

  lemma CloseKeeps(s: State, j: nat, n: nat)
    requires Inv(s) && j < MAX_USEM && n < USER_SEM_NUM && s.procs[s.curr].usems[j] == Some(n)
    ensures Inv(SemClose(s, j, n))
  {
    hide FamilyOk, RefsOk, PidsOk;
    var t := SemClose(s, j, n);
    ListsSame(s, t);
    CloseRefs(s, j, n);
    FamilySame(s, t);
    PidsSame(s, t);
  }

  // ---------------------------------------------------------------- every step, and every run

  lemma EntryOpen(s: State, j: int)
    requires Inv(s) && Entry(s, j).Some?
    ensures Entry(s, j).value < USER_SEM_NUM && Refs(s.procs[s.curr].usems, Entry(s, j).value) > 0
  {
    assert EntriesOk(s, s.curr);
    RefsPositive(s.procs[s.curr].usems, j, Entry(s, j).value);
  }

  /** Whatever the running process does, nothing fails and the invariant stays. */
  lemma StepInv(s: State, e: Event)
    requires Inv(s) && Allowed(s, e)
    ensures Safe(s, e) && Inv(Step(s, e))
  {
    hide ListsOk, FamilyOk, RefsOk, PidsOk, SemOpen, SemClose, Fork, MakeZombie, Reap, StartWait, SemP, SemV, Schedule;
    match e
    case Yield =>
      FlipKeeps(s, s.curr, READY);
      ScheduleKeeps(SetStatus(s, s.curr, READY));
    case ForkCall => ForkKeeps(s);
    case Exit(code) =>
      ExitKeeps(s, code);
      ScheduleKeeps(MakeZombie(s, code));
    case Wait => WaitInv(s);
    case Resume =>
      ZombieThere(s);
      ReapKeeps(s);
    case Open(value) => OpenKeeps(s, value);
    case P(j) =>
      if Entry(s, j).Some? {
        var u := Entry(s, j).value;
        EntryOpen(s, j);
        SemPUserKeeps(s, u);
        var t := SemP(s, OfUser(u));
        if t.procs[s.curr].status == BLOCKED {
          ScheduleKeeps(t);
        }
      }
    case V(j) =>
      if Entry(s, j).Some? {
        EntryOpen(s, j);
        SemVUserKeeps(s, Entry(s, j).value);
      }
    case Close(j) =>
      if Entry(s, j).Some? {
        EntryOpen(s, j);
        CloseKeeps(s, j, Entry(s, j).value);
      }
  }

  lemma WaitInv(s: State)
    requires Inv(s) && Allowed(s, Wait)
    ensures Safe(s, Wait) && Inv(Step(s, Wait))
  {
    hide ListsOk, FamilyOk, RefsOk, PidsOk, Reap, SemP, Schedule;
    if s.procs[s.curr].childNum != 0 {
      StartWaitKeeps(s);
      var t := StartWait(s);
      if s.procs[s.curr].zombie.value > 0 {
        ZombieThere(t);
        ReapKeeps(t);
      } else {
        ScheduleKeeps(t);
      }
    }
  }
}
