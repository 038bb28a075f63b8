/** Processes, semaphores and wait/exit (kernel/src/proc.c, sem.c, syscall.c), as the steps between two points where
    the kernel can be left: interrupts are off in a system call, so it is atomic up to a yield, a block or an exit. */
module Processes {
  import opened Options

  const PROC_NUM := 64
  const USER_SEM_NUM := 128
  const MAX_USEM := 32

  datatype Status = UNUSED | UNINIT | RUNNING | READY | ZOMBIE | BLOCKED

  // A counting semaphore; the wait list is in order of arrival.
  datatype Sem = Sem(value: int, list: seq<nat>)

  // Where a process goes on when it runs next: in user code, or in sys_wait after sem_p.
  datatype Ctx = User | Waiting

  datatype Proc = Proc(
    pid: nat, status: Status, parent: Option<nat>, childNum: int, exitCode: int, zombie: Sem,
    usems: seq<Option<nat>>, ctx: Ctx)

  datatype Usem = Usem(sem: Sem, ref: int)

  datatype State = State(procs: seq<Proc>, usems: seq<Usem>, curr: nat, nextPid: nat)

  // The zombie semaphore of a process, or a user semaphore.
  datatype SemId = OfProc(p: nat) | OfUser(u: nat)

  predicate Sizes(s: State) {
    && |s.procs| == PROC_NUM && |s.usems| == USER_SEM_NUM && s.curr < PROC_NUM
    && forall p :: 0 <= p < PROC_NUM ==> |s.procs[p].usems| == MAX_USEM
  }

  predicate IsSem(id: SemId) {
    match id
    case OfProc(p) => p < PROC_NUM
    case OfUser(u) => u < USER_SEM_NUM
  }

  function GetSem(s: State, id: SemId): Sem
    requires Sizes(s) && IsSem(id)
  {
    match id
    case OfProc(p) => s.procs[p].zombie
    case OfUser(u) => s.usems[u].sem
  }

  function SetSem(s: State, id: SemId, sem: Sem): (s': State)
    requires Sizes(s) && IsSem(id)
    ensures Sizes(s')
  {
    match id
    case OfProc(p) => s.(procs := s.procs[p := s.procs[p].(zombie := sem)])
    case OfUser(u) => s.(usems := s.usems[u := s.usems[u].(sem := sem)])
  }

  function SetStatus(s: State, p: nat, st: Status): (s': State)
    requires Sizes(s) && p < PROC_NUM
    ensures Sizes(s')
  {
    s.(procs := s.procs[p := s.procs[p].(status := st)])
  }

  /** sem_p by the running process, up to the switch: if it must wait, it is queued last and blocked. */
  function SemP(s: State, id: SemId): (s': State)
    requires Sizes(s) && IsSem(id)
    ensures Sizes(s') && s'.curr == s.curr
  {
    var sem := GetSem(s, id);
    if sem.value - 1 < 0 then
      SetStatus(SetSem(s, id, Sem(sem.value - 1, sem.list + [s.curr])), s.curr, BLOCKED)
    else
      SetSem(s, id, Sem(sem.value - 1, sem.list))
  }

  /** sem_v: if processes wait, the one that came first is made ready. */
  function SemV(s: State, id: SemId): (s': State)
    requires Sizes(s) && IsSem(id)
    requires GetSem(s, id).value < 0 ==> GetSem(s, id).list != [] && GetSem(s, id).list[0] < PROC_NUM
    ensures Sizes(s') && s'.curr == s.curr
  {
    var sem := GetSem(s, id);
    if sem.value + 1 <= 0 then SetStatus(SetSem(s, id, Sem(sem.value + 1, sem.list[1..])), sem.list[0], READY)
    else SetSem(s, id, Sem(sem.value + 1, sem.list))
  }

  // ---------------------------------------------------------------- scanning

  /** The first unused slot from `i` on, PROC_NUM if there is none. */
  function FreeSlot(procs: seq<Proc>, i: nat): (r: nat)
    requires i <= |procs|
    ensures i <= r <= |procs| && (r < |procs| ==> procs[r].status == UNUSED)
    ensures forall j :: i <= j < r ==> procs[j].status != UNUSED
    decreases |procs| - i
  {
    if i == |procs| || procs[i].status == UNUSED then i else FreeSlot(procs, i + 1)
  }

  predicate IsZombieOf(pr: Proc, p: nat) {
    pr.parent == Some(p) && pr.status == ZOMBIE
  }

  function FindZombie(procs: seq<Proc>, p: nat, i: nat): (r: nat)
    requires i <= |procs|
    ensures i <= r <= |procs| && (r < |procs| ==> IsZombieOf(procs[r], p))
    ensures forall j :: i <= j < r ==> !IsZombieOf(procs[j], p)
    decreases |procs| - i
  {
    if i == |procs| || IsZombieOf(procs[i], p) then i else FindZombie(procs, p, i + 1)
  }

  /** How far ahead of `c` process `p` is, going round; a full round for `c` itself. */
  function Dist(c: nat, p: nat): nat
    requires c < PROC_NUM && p < PROC_NUM
  {
    if p > c then p - c else p + PROC_NUM - c
  }

  /** The slot at distance d ahead of `c`. */
  function Ahead(c: nat, d: nat): (p: nat)
    requires c < PROC_NUM && 0 < d <= PROC_NUM
    ensures p < PROC_NUM && Dist(c, p) == d
  {
    if c + d < PROC_NUM then c + d else c + d - PROC_NUM
  }

  /** The next ready process at distance d or more ahead of the current one. */
  function NextReady(procs: seq<Proc>, c: nat, d: nat): (r: Option<nat>)
    requires |procs| == PROC_NUM && c < PROC_NUM && 0 < d <= PROC_NUM + 1
    ensures r.Some? ==> r.value < PROC_NUM && procs[r.value].status == READY && Dist(c, r.value) >= d
    ensures r.Some? ==> forall p :: 0 <= p < PROC_NUM && d <= Dist(c, p) < Dist(c, r.value) ==> procs[p].status != READY
    ensures r.None? ==> forall p :: 0 <= p < PROC_NUM && d <= Dist(c, p) ==> procs[p].status != READY
    decreases PROC_NUM + 1 - d
  {
    if d > PROC_NUM then None
    else if procs[Ahead(c, d)].status == READY then Some(Ahead(c, d))
    else NextReady(procs, c, d + 1)
  }

  /** schedule: the next ready process going round from the current one runs. */
  function Schedule(s: State): (s': State)
    requires Sizes(s)
    ensures Sizes(s')
  {
    var n := NextReady(s.procs, s.curr, 1);
    if n.None? then s else SetStatus(s, n.value, RUNNING).(curr := n.value)
  }

  // ---------------------------------------------------------------- the system calls

  function Refs(tbl: seq<Option<nat>>, u: nat): nat {
    if tbl == [] then 0 else (if tbl[0] == Some(u) then 1 else 0) + Refs(tbl[1..], u)
  }

  /** The reference counts after one more, or one less, for every entry of a table. */
  function AddRefs(usems: seq<Usem>, tbl: seq<Option<nat>>, sign: int): (r: seq<Usem>)
    ensures |r| == |usems|
  {
    seq(|usems|, (u: nat) requires u < |usems| => usems[u].(ref := usems[u].ref + sign * Refs(tbl, u)))
  }

  function Fork(s: State): (s': State)
    requires Sizes(s)
    ensures Sizes(s')
  {
    var i := FreeSlot(s.procs, 1);
    if i == PROC_NUM then s
    else
      var me := s.procs[s.curr];
      var child := Proc(s.nextPid, READY, Some(s.curr), 0, s.procs[i].exitCode, Sem(0, []), me.usems, User);
      var procs := s.procs[i := child];
      State(procs[s.curr := procs[s.curr].(childNum := procs[s.curr].childNum + 1)],
            AddRefs(s.usems, me.usems, 1), s.curr, s.nextPid + 1)
  }

  function Orphan(procs: seq<Proc>, p: nat): (r: seq<Proc>)
    ensures |r| == |procs|
  {
    seq(|procs|, (i: nat) requires i < |procs| => if procs[i].parent == Some(p) then procs[i].(parent := None) else procs[i])
  }

  /** sys_exit up to the switch: a zombie, its parent told, its children orphaned, its semaphores closed. */
  function MakeZombie(s: State, code: int): (s': State)
    requires Sizes(s)
    requires s.procs[s.curr].parent.Some? ==> s.procs[s.curr].parent.value < PROC_NUM && CanV(s, OfProc(s.procs[s.curr].parent.value))
    ensures Sizes(s')
  {
    var c := s.curr;
    var s1 := s.(procs := s.procs[c := s.procs[c].(status := ZOMBIE, exitCode := code)]);
    var s2 := if s.procs[c].parent.Some? then SemV(s1, OfProc(s.procs[c].parent.value)) else s1;
    s2.(procs := Orphan(s2.procs, c), usems := AddRefs(s2.usems, s.procs[c].usems, -1))
  }

  predicate CanV(s: State, id: SemId)
    requires Sizes(s) && IsSem(id)
  {
    GetSem(s, id).value < 0 ==> GetSem(s, id).list != [] && GetSem(s, id).list[0] < PROC_NUM
  }

  /** The second half of sys_wait: a zombie child is found, freed and counted off. */
  function Reap(s: State): (s': State)
    requires Sizes(s) && FindZombie(s.procs, s.curr, 0) < PROC_NUM
    ensures Sizes(s')
  {
    var z := FindZombie(s.procs, s.curr, 0);
    var procs := s.procs[z := s.procs[z].(status := UNUSED)];
    s.(procs := procs[s.curr := procs[s.curr].(childNum := procs[s.curr].childNum - 1, ctx := User)])
  }

  /** sys_wait, up to sem_p. */
  function StartWait(s: State): (s': State)
    requires Sizes(s)
    ensures Sizes(s')
  {
    SemP(s.(procs := s.procs[s.curr := s.procs[s.curr].(ctx := Waiting)]), OfProc(s.curr))
  }

  /** These are the number and the exit code of a zombie child of the process that runs, the first of them. */
  ghost predicate WaitedFor(s: State, pid: int, code: int)
    requires Sizes(s)
  {
    var z := FindZombie(s.procs, s.curr, 0);
    && z < PROC_NUM && s.procs[z].parent == Some(s.curr) && s.procs[z].status == ZOMBIE
    && pid == s.procs[z].pid && code == s.procs[z].exitCode
  }

  function FirstNone(tbl: seq<Option<nat>>, j: nat): (r: nat)
    requires j <= |tbl|
    ensures j <= r <= |tbl| && (r < |tbl| ==> tbl[r] == None)
    ensures forall k :: j <= k < r ==> tbl[k] != None
    decreases |tbl| - j
  {
    if j == |tbl| || tbl[j] == None then j else FirstNone(tbl, j + 1)
  }

  function FirstUnused(usems: seq<Usem>, u: nat): (r: nat)
    requires u <= |usems|
    ensures u <= r <= |usems| && (r < |usems| ==> usems[r].ref == 0)
    ensures forall k :: u <= k < r ==> usems[k].ref != 0
    decreases |usems| - u
  {
    if u == |usems| || usems[u].ref == 0 then u else FirstUnused(usems, u + 1)
  }

  function SetEntry(s: State, j: nat, e: Option<nat>): (s': State)
    requires Sizes(s) && j < MAX_USEM
    ensures Sizes(s')
  {
    s.(procs := s.procs[s.curr := s.procs[s.curr].(usems := s.procs[s.curr].usems[j := e])])
  }

  function SemOpen(s: State, value: int): (s': State)
    requires Sizes(s)
    ensures Sizes(s')
  {
    var j, u := FirstNone(s.procs[s.curr].usems, 0), FirstUnused(s.usems, 0);
    if j == MAX_USEM || u == USER_SEM_NUM then s
    else SetEntry(s.(usems := s.usems[u := Usem(Sem(value, []), 1)]), j, Some(u))
  }

  /** The user semaphore an identifier of the running process stands for. */
  function Entry(s: State, j: int): (e: Option<nat>)
    requires Sizes(s)
  {
    if 0 <= j < MAX_USEM then s.procs[s.curr].usems[j] else None
  }

  function SemClose(s: State, j: nat, u: nat): (s': State)
    requires Sizes(s) && j < MAX_USEM && u < USER_SEM_NUM
    ensures Sizes(s')
  {
    SetEntry(s.(usems := s.usems[u := s.usems[u].(ref := s.usems[u].ref - 1)]), j, None)
  }

  // ---------------------------------------------------------------- events

  datatype Event =
    | Yield                // sys_yield, one turn of sys_sleep, or a timer interrupt
    | ForkCall
    | Exit(code: int)
    | Wait
    | Resume               // the rest of sys_wait, after its process was woken and runs again
    | Open(value: int)
    | P(id: int)
    | V(id: int)
    | Close(id: int)

  /** What the running process can do: the idle process only yields, a process woken in sys_wait goes on there, and
      semaphores are opened with values that are not negative. */
  predicate Allowed(s: State, e: Event)
    requires Sizes(s)
  {
    if s.curr == 0 then e.Yield?
    else if s.procs[s.curr].ctx == Waiting then e.Resume?
    else !e.Resume? && (e.Open? ==> e.value >= 0)
  }

  /** What an event needs so as not to fail: a process to wake where the count says so, a zombie where one is awaited. */
  predicate Safe(s: State, e: Event)
    requires Sizes(s)
  {
    match e
    case Exit(_) =>
      s.procs[s.curr].parent.Some? ==>
        s.procs[s.curr].parent.value < PROC_NUM && CanV(s, OfProc(s.procs[s.curr].parent.value))
    case Wait =>
      s.procs[s.curr].childNum != 0 && s.procs[s.curr].zombie.value > 0 ==>
        FindZombie(StartWait(s).procs, s.curr, 0) < PROC_NUM
    case Resume => FindZombie(s.procs, s.curr, 0) < PROC_NUM
    case P(j) => Entry(s, j).Some? ==> Entry(s, j).value < USER_SEM_NUM
    case V(j) => Entry(s, j).Some? ==> Entry(s, j).value < USER_SEM_NUM && CanV(s, OfUser(Entry(s, j).value))
    case Close(j) => Entry(s, j).Some? ==> Entry(s, j).value < USER_SEM_NUM
    case _ => true
  }

  function Step(s: State, e: Event): (s': State)
    requires Sizes(s) && Safe(s, e)
    ensures Sizes(s')
  {
    match e
    case Yield => Schedule(SetStatus(s, s.curr, READY))
    case ForkCall => Fork(s)
    case Exit(code) => Schedule(MakeZombie(s, code))
    case Wait =>
      if s.procs[s.curr].childNum == 0 then s
      else if s.procs[s.curr].zombie.value > 0 then Reap(StartWait(s))
      else Schedule(StartWait(s))
    case Resume => Reap(s)
    case Open(value) => SemOpen(s, value)
    case P(j) =>
      if Entry(s, j).None? then s
      else
        var s1 := SemP(s, OfUser(Entry(s, j).value));
        if s1.procs[s.curr].status == BLOCKED then Schedule(s1) else s1
    case V(j) => if Entry(s, j).None? then s else SemV(s, OfUser(Entry(s, j).value))
    case Close(j) => if Entry(s, j).None? then s else SemClose(s, j, Entry(s, j).value)
  }
}
