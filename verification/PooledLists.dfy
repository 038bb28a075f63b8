/** The wait lists of the state machine as the kernel keeps them: linked nodes of one pool (kernel/klib/list.c, under
    kernel/src/sem.c). Over any run the pool lasts, and the linked lists hold what the state machine says. */
module PooledLists {
  import opened Options
  import opened Processes
  import opened ProcessInvariant
  import opened ProcessTheorems
  import W = WaitList

  // What an event does to the wait lists; list k + 1 belongs to semaphore k.
  datatype ListOp = Nothing | Clear(k: nat) | Join(k: nat, p: nat) | Wake(k: nat)

  function IndexOf(id: SemId): (k: nat)
    requires IsSem(id)
    ensures k < SEM_NUM && SemAt(k) == id
  {
    match id
    case OfProc(p) => p
    case OfUser(u) => PROC_NUM + u
  }

  function POp(s: State, id: SemId): ListOp
    requires Sizes(s) && IsSem(id)
  {
    if GetSem(s, id).value - 1 < 0 then Join(IndexOf(id), s.curr) else Nothing
  }

  function VOp(s: State, id: SemId): ListOp
    requires Sizes(s) && IsSem(id)
  {
    if GetSem(s, id).value + 1 <= 0 then Wake(IndexOf(id)) else Nothing
  }

  /** The one list function that the kernel calls in an event. */
  function OpOf(s: State, e: Event): ListOp
    requires Sizes(s) && Safe(s, e)
  {
    match e
    case ForkCall => if FreeSlot(s.procs, 1) < PROC_NUM then Clear(IndexOf(OfProc(FreeSlot(s.procs, 1)))) else Nothing
    case Open(_) =>
      if FirstNone(s.procs[s.curr].usems, 0) < MAX_USEM && FirstUnused(s.usems, 0) < USER_SEM_NUM then
        Clear(IndexOf(OfUser(FirstUnused(s.usems, 0))))
      else Nothing
    case Exit(_) => if s.procs[s.curr].parent.Some? then VOp(s, OfProc(s.procs[s.curr].parent.value)) else Nothing
    case Wait => if s.procs[s.curr].childNum == 0 then Nothing else POp(s, OfProc(s.curr))
    case P(j) => if Entry(s, j).Some? then POp(s, OfUser(Entry(s, j).value)) else Nothing
    case V(j) => if Entry(s, j).Some? then VOp(s, OfUser(Entry(s, j).value)) else Nothing
    case _ => Nothing
  }

  /** What it leaves of list k. */
  function ListAfter(op: ListOp, k: nat, l: seq<nat>): seq<nat> {
    match op
    case Nothing => l
    case Clear(_) => l
    case Join(i, p) => if i == k then l + [p] else l
    case Wake(i) => if i == k && l != [] then l[1..] else l
  }

  lemma ScheduleLists(s: State, k: nat)
    requires Sizes(s) && k < SEM_NUM
    ensures GetSem(Schedule(s), SemAt(k)) == GetSem(s, SemAt(k))
  {
  }

  lemma PLists(s: State, id: SemId, k: nat)
    requires Sizes(s) && IsSem(id) && k < SEM_NUM
    ensures GetSem(SemP(s, id), SemAt(k)).list == ListAfter(POp(s, id), k, GetSem(s, SemAt(k)).list)
  {
  }

  lemma VLists(s: State, id: SemId, k: nat)
    requires Sizes(s) && IsSem(id) && CanV(s, id) && k < SEM_NUM
    ensures GetSem(SemV(s, id), SemAt(k)).list == ListAfter(VOp(s, id), k, GetSem(s, SemAt(k)).list)
  {
  }

  lemma ExitLists(s: State, code: int, k: nat)
    requires Sizes(s) && Safe(s, Exit(code)) && k < SEM_NUM
    ensures GetSem(MakeZombie(s, code), SemAt(k)).list == ListAfter(OpOf(s, Exit(code)), k, GetSem(s, SemAt(k)).list)
  {
    hide SemV;
    var s1 := s.(procs := s.procs[s.curr := s.procs[s.curr].(status := ZOMBIE, exitCode := code)]);
    if s.procs[s.curr].parent.Some? {
      VLists(s1, OfProc(s.procs[s.curr].parent.value), k);
    }
  }

  /** Lists that are initialised are empty already. */
  lemma ClearsEmpty(s: State, e: Event)
    requires Inv(s) && Safe(s, e) && OpOf(s, e).Clear?
    ensures OpOf(s, e).k < SEM_NUM && GetSem(s, SemAt(OpOf(s, e).k)).list == []
  {
    hide ListsOk, RefsOk, PidsOk;
    match e
    case ForkCall => ZombieList(s, FreeSlot(s.procs, 1));
    case Open(_) => RecycledIsEmpty(s, FirstUnused(s.usems, 0));
  }

  /** What a step does to every wait list. */
  lemma StepLists(s: State, e: Event, k: nat)
    requires Inv(s) && Allowed(s, e) && k < SEM_NUM
    ensures Safe(s, e)
    ensures GetSem(Step(s, e), SemAt(k)).list == ListAfter(OpOf(s, e), k, GetSem(s, SemAt(k)).list)
  {
    hide ListsOk, FamilyOk, RefsOk, PidsOk, Schedule, MakeZombie, SemP, SemV;
    StepInv(s, e);
    if OpOf(s, e).Clear? {
      ClearsEmpty(s, e);
    }
    match e
    case Yield => ScheduleLists(SetStatus(s, s.curr, READY), k);
    case Exit(code) =>
      ExitLists(s, code, k);
      ScheduleLists(MakeZombie(s, code), k);
    case Wait => WaitCallLists(s, k);
    case P(j) =>
      if Entry(s, j).Some? {
        PLists(s, OfUser(Entry(s, j).value), k);
        ScheduleLists(SemP(s, OfUser(Entry(s, j).value)), k);
      }
    case V(j) =>
      if Entry(s, j).Some? {
        VLists(s, OfUser(Entry(s, j).value), k);
      }
    case _ =>
  }

  lemma WaitCallLists(s: State, k: nat)
    requires Sizes(s) && Safe(s, Wait) && k < SEM_NUM
    ensures GetSem(Step(s, Wait), SemAt(k)).list == ListAfter(OpOf(s, Wait), k, GetSem(s, SemAt(k)).list)
  {
    hide SemP, Schedule;
    var s1 := s.(procs := s.procs[s.curr := s.procs[s.curr].(ctx := Waiting)]);
    PLists(s1, OfProc(s.curr), k);
    ScheduleLists(StartWait(s), k);
  }

  // ---------------------------------------------------------------- linked lists that follow

  /** The linked lists hold what the wait lists of the state say. */
  ghost predicate Mirrors(w: W.WaitLists, s: State)
    reads w, w.prev, w.next, w.ptr
  {
    && w.Valid() && |w.rings| == SEM_NUM + 1 && Sizes(s)
    && forall k :: 0 <= k < SEM_NUM ==> w.Queue(k + 1) == GetSem(s, SemAt(k)).list
  }

  lemma {:induction false} UseIsWaiters(s: State, rings: seq<seq<nat>>, n: nat)
    requires Sizes(s) && n <= SEM_NUM && |rings| == SEM_NUM + 1
    requires forall k :: 0 <= k < SEM_NUM ==> |rings[k + 1]| == |GetSem(s, SemAt(k)).list| + 1
    ensures W.Total(rings[1..n + 1]) == |Waiters(s, n)| + n
  {
    if n == 0 {
      assert rings[1..1] == [];
    } else {
      UseIsWaiters(s, rings, n - 1);
      assert rings[1..n + 1] == rings[1..n] + [rings[n]];
      TotalAppend(rings[1..n], rings[n]);
    }
  }

  lemma {:induction false} TotalAppend(cs: seq<seq<nat>>, c: seq<nat>)
    ensures W.Total(cs + [c]) == W.Total(cs) + |c|
  {
    if cs == [] {
      assert cs + [c] == [c];
    } else {
      assert (cs + [c])[1..] == cs[1..] + [c];
      TotalAppend(cs[1..], c);
    }
  }

  /** At most 63 nodes are in use, so that at least 193 of the 256 are in the free list. */
  lemma PoolIsEnough(w: W.WaitLists, s: State)
    requires Mirrors(w, s) && Inv(s)
    ensures 0 <= w.InUse() < PROC_NUM && |w.rings[0]| - 1 == W.LIST_NUM - w.InUse()
  {
    hide Inv, W.Ring, W.Rings;
    forall k | 0 <= k < SEM_NUM
      ensures |w.rings[k + 1]| == |GetSem(s, SemAt(k)).list| + 1
    {
      assert |w.Queue(k + 1)| == |w.rings[k + 1]| - 1;
    }
    UseIsWaiters(s, w.rings, SEM_NUM);
    assert w.rings[1..SEM_NUM + 1] == w.rings[1..];
    PoolLasts(s);
    w.Conserved();
  }

  /** An event, with the list function that it calls carried out on linked nodes: a free node is there when one is needed,
      whom the list function wakes is whom the state machine wakes, and the lists go on to agree. */
  method Follow(w: W.WaitLists, s: State, e: Event) returns (woken: Option<nat>)
    requires Mirrors(w, s) && Inv(s) && Allowed(s, e)
    modifies w`rings, w.prev, w.next, w.ptr
    ensures Safe(s, e) && Mirrors(w, Step(s, e)) && Inv(Step(s, e))
    ensures 0 <= w.InUse() < PROC_NUM && |w.rings[0]| - 1 == W.LIST_NUM - w.InUse()
    ensures var op := OpOf(s, e);
            woken == if op.Wake? && op.k < SEM_NUM && GetSem(s, SemAt(op.k)).list != [] then Some(GetSem(s, SemAt(op.k)).list[0])
                     else None
  {
    hide Inv, Allowed, Safe, Step, OpOf, W.WaitLists.Valid, W.WaitLists.Linked;
    StepInv(s, e);
    PoolIsEnough(w, s);
    OpInRange(s, e);
    forall k | 0 <= k < SEM_NUM
      ensures GetSem(Step(s, e), SemAt(k)).list == ListAfter(OpOf(s, e), k, GetSem(s, SemAt(k)).list)
    {
      StepLists(s, e, k);
    }
    woken := None;
    match OpOf(s, e) {
      case Nothing =>
      case Clear(k) =>
        ClearsEmpty(s, e);
        w.Init(k + 1);
      case Join(k, p) => w.Enqueue(k + 1, p);
      case Wake(k) => woken := w.Dequeue(k + 1);
    }
    PoolIsEnough(w, Step(s, e));
  }

  lemma OpInRange(s: State, e: Event)
    requires Sizes(s) && Safe(s, e)
    ensures OpOf(s, e).Nothing? || OpOf(s, e).k < SEM_NUM
  {
  }

  /** A whole run on linked lists, from the pool as it is set up: in every run, at every point, no more than 63 of the 256
      nodes are in use, all others are in the free list, and the linked lists are the wait lists. */
  method FollowRun(ss: seq<State>, es: seq<Event>) returns (w: W.WaitLists)
    requires Trace(ss, es)
    ensures Mirrors(w, ss[|es|])
    ensures 0 <= w.InUse() < PROC_NUM && |w.rings[0]| - 1 == W.LIST_NUM - w.InUse()
  {
    hide Trace, Inv, Step, Safe, Allowed, W.WaitLists.Valid, W.WaitLists.Linked;
    w := new W.WaitLists(SEM_NUM);
    RunSafe(ss, es, 0);
    NobodyWaits(ss, es);
    PoolIsEnough(w, ss[0]);
    var i := 0;
    while i < |es|
      invariant 0 <= i <= |es| && fresh(w) && fresh(w.prev) && fresh(w.next) && fresh(w.ptr) && Mirrors(w, ss[i])
      invariant 0 <= w.InUse() < PROC_NUM && |w.rings[0]| - 1 == W.LIST_NUM - w.InUse()
    {
      RunSafe(ss, es, i);
      var _ := Follow(w, ss[i], es[i]);
      i := i + 1;
    }
  }

  lemma NobodyWaits(ss: seq<State>, es: seq<Event>)
    requires Trace(ss, es)
    ensures Sizes(ss[0]) && forall k :: 0 <= k < SEM_NUM ==> GetSem(ss[0], SemAt(k)).list == []
  {
    forall p | 0 <= p < PROC_NUM
      ensures |ss[0].procs[p].usems| == MAX_USEM && ss[0].procs[p].zombie.list == []
    {
      assert Blank(ss[0].procs[p]);
    }
  }
}
