/** The process table and the user semaphores as the kernel updates them in place, each routine proved to make the step
    of module Processes that it stands for. */
module Kernel {
  import opened Options
  import opened Processes
  import opened ProcessInvariant

  /** The reference counts after the first j entries of a table were counted up, or down. */
  lemma {:induction false} RefsStep(tbl: seq<Option<nat>>, j: nat, u: nat)
    requires j < |tbl|
    ensures Refs(tbl[..j + 1], u) == Refs(tbl[..j], u) + (if tbl[j] == Some(u) then 1 else 0)
  {
    if j == 0 {
      assert tbl[..1] == [tbl[0]] && tbl[..0] == [];
      assert [tbl[0]][1..] == [];
    } else {
      assert tbl[..j + 1][1..] == tbl[1..][..j] && tbl[..j][1..] == tbl[1..][..j - 1];
      RefsStep(tbl[1..], j - 1, u);
    }
  }

  lemma AddRefsStep(usems: seq<Usem>, tbl: seq<Option<nat>>, j: nat, sign: int)
    requires j < |tbl|
    ensures tbl[j].None? ==> AddRefs(usems, tbl[..j + 1], sign) == AddRefs(usems, tbl[..j], sign)
    ensures tbl[j].Some? && tbl[j].value < |usems| ==>
              var r := AddRefs(usems, tbl[..j], sign);
              AddRefs(usems, tbl[..j + 1], sign) == r[tbl[j].value := r[tbl[j].value].(ref := r[tbl[j].value].ref + sign)]
  {
    forall u | 0 <= u < |usems|
      ensures Refs(tbl[..j + 1], u) == Refs(tbl[..j], u) + (if tbl[j] == Some(u) then 1 else 0)
    {
      RefsStep(tbl, j, u);
    }
  }

  lemma AddRefsNone(usems: seq<Usem>, tbl: seq<Option<nat>>, sign: int)
    ensures AddRefs(usems, tbl[..0], sign) == usems
  {
  }

  function NoUsems(): (t: seq<Option<nat>>)
    ensures |t| == MAX_USEM && forall j :: 0 <= j < MAX_USEM ==> t[j] == None
  {
    seq(MAX_USEM, _ => None)
  }

  /** A slot just taken, with nothing in it. */
  function Allocated(s: State, i: nat): (t: State)
    requires Sizes(s) && i < PROC_NUM
    ensures Sizes(t)
  {
    s.(procs := s.procs[i := Proc(s.nextPid, UNINIT, None, 0, s.procs[i].exitCode, Sem(0, []), NoUsems(), User)],
       nextPid := s.nextPid + 1)
  }

  lemma HandleNeeds(s: State, e: Event)
    requires Inv(s) && Allowed(s, e) && Safe(s, e)
    ensures EntriesOk(s, s.curr) && s.procs[s.curr].status == RUNNING
    ensures e.ForkCall? ==> Step(s, e) == Fork(s)
    ensures e.Open? ==> Step(s, e) == SemOpen(s, e.value)
    ensures e.Resume? ==> FindZombie(s.procs, s.curr, 0) < PROC_NUM && Step(s, e) == Reap(s)
  {
  }

  lemma ProbeStep(procs: seq<Proc>, c: nat, d: nat)
    requires |procs| == PROC_NUM && c < PROC_NUM && 0 < d <= PROC_NUM
    requires exists q :: 0 <= q < PROC_NUM && procs[q].status == READY
    requires NextReady(procs, c, d) == NextReady(procs, c, 1)
    ensures if procs[Ahead(c, d)].status == READY then NextReady(procs, c, 1) == Some(Ahead(c, d))
            else d < PROC_NUM && NextReady(procs, c, d + 1) == NextReady(procs, c, 1)
  {
    var q :| 0 <= q < PROC_NUM && procs[q].status == READY;
    assert Dist(c, q) >= 1;
  }

  class Kernel {
    const pcb: array<Proc>
    const userSem: array<Usem>
    var curr: nat
    var nextPid: nat

    ghost predicate Valid()
      reads this, pcb, userSem
    {
      && pcb.Length == PROC_NUM && userSem.Length == USER_SEM_NUM && curr < PROC_NUM
      && forall p :: 0 <= p < PROC_NUM ==> |pcb[p].usems| == MAX_USEM
    }

    ghost function Now(): (s: State)
      requires Valid()
      reads this, pcb, userSem
      ensures Sizes(s)
    {
      State(pcb[..], userSem[..], curr, nextPid)
    }

    // ---------------------------------------------------------------- semaphores

    method GetValue(id: SemId) returns (sem: Sem)
      requires Valid() && IsSem(id)
      ensures sem == GetSem(Now(), id)
    {
      match id
      case OfProc(p) => sem := pcb[p].zombie;
      case OfUser(u) => sem := userSem[u].sem;
    }

    method SetValue(id: SemId, sem: Sem)
      requires Valid() && IsSem(id)
      modifies pcb, userSem
      ensures Valid() && Now() == SetSem(old(Now()), id, sem)
    {
      match id
      case OfProc(p) => pcb[p] := pcb[p].(zombie := sem);
      case OfUser(u) => userSem[u] := userSem[u].(sem := sem);
    }

    /** sem_p, up to the software interrupt of proc_block. */
    method P(id: SemId)
      requires Valid() && IsSem(id)
      modifies pcb, userSem
      ensures Valid() && Now() == SemP(old(Now()), id)
    {
      var sem := GetValue(id);
      sem := sem.(value := sem.value - 1);
      if sem.value < 0 {
        sem := sem.(list := sem.list + [curr]);
        SetValue(id, sem);
        pcb[curr] := pcb[curr].(status := BLOCKED);
      } else {
        SetValue(id, sem);
      }
    }

    method V(id: SemId)
      requires Valid() && IsSem(id) && CanV(Now(), id)
      modifies pcb, userSem
      ensures Valid() && Now() == SemV(old(Now()), id)
    {
      var sem := GetValue(id);
      sem := sem.(value := sem.value + 1);
      if sem.value <= 0 {
        var p := sem.list[0];
        SetValue(id, sem.(list := sem.list[1..]));
        pcb[p] := pcb[p].(status := READY);
      } else {
        SetValue(id, sem);
      }
    }

    /** usem_alloc */
    method UsemAlloc(value: int) returns (r: Option<nat>)
      requires Valid()
      modifies userSem
      ensures Valid()
      ensures var u := FirstUnused(old(Now()).usems, 0);
              if u == USER_SEM_NUM then r == None && Now() == old(Now())
              else r == Some(u) && Now() == old(Now()).(usems := old(Now()).usems[u := Usem(Sem(value, []), 1)])
    {
      ghost var before := userSem[..];
      var i := 0;
      while i < USER_SEM_NUM
        invariant 0 <= i <= USER_SEM_NUM && userSem[..] == before && FirstUnused(before, i) == FirstUnused(before, 0)
      {
        if userSem[i].ref == 0 {
          userSem[i] := Usem(Sem(value, []), 1);
          return Some(i);
        }
        i := i + 1;
      }
      r := None;
    }

    /** proc_allocusem */
    method AllocUsem() returns (r: int)
      requires Valid()
      ensures var j := FirstNone(Now().procs[curr].usems, 0);
              r == if j == MAX_USEM then -1 else j
    {
      var i := 0;
      while i < MAX_USEM
        invariant 0 <= i <= MAX_USEM && FirstNone(pcb[curr].usems, i) == FirstNone(pcb[curr].usems, 0)
      {
        if pcb[curr].usems[i] == None {
          return i;
        }
        i := i + 1;
      }
      r := -1;
    }

    method SetUsem(j: nat, e: Option<nat>)
      requires Valid() && j < MAX_USEM
      modifies pcb
      ensures Valid() && Now() == SetEntry(old(Now()), j, e)
    {
      pcb[curr] := pcb[curr].(usems := pcb[curr].usems[j := e]);
    }

    /** sys_sem_open */
    method SysSemOpen(value: int) returns (r: int)
      requires Valid()
      modifies pcb, userSem
      ensures Valid() && Now() == SemOpen(old(Now()), value)
      ensures var j, u := FirstNone(old(pcb[curr].usems), 0), FirstUnused(old(userSem[..]), 0);
              if j < MAX_USEM && u < USER_SEM_NUM then r == j && pcb[curr].usems[j] == Some(u) && userSem[u] == Usem(Sem(value, []), 1)
              else r == -1 && Now() == old(Now())
    {
      r := AllocUsem();
      if r != -1 {
        var u := UsemAlloc(value);
        if u.None? {
          r := -1;
        } else {
          SetUsem(r, u);
        }
      }
    }

    /** proc_getusem */
    method GetUsem(id: int) returns (u: Option<nat>)
      requires Valid()
      ensures u == Entry(Now(), id)
    {
      if id < 0 || id >= MAX_USEM {
        return None;
      }
      u := pcb[curr].usems[id];
    }

    method SysSemV(id: int) returns (r: int)
      requires Valid() && Safe(Now(), Event.V(id))
      modifies pcb, userSem
      ensures Valid() && Now() == Step(old(Now()), Event.V(id)) && r == if Entry(old(Now()), id).None? then -1 else 0
    {
      var u := GetUsem(id);
      if u.None? {
        return -1;
      }
      V(OfUser(u.value));
      r := 0;
    }

    method SysSemClose(id: int) returns (r: int)
      requires Valid() && Safe(Now(), Close(id))
      modifies pcb, userSem
      ensures Valid() && Now() == Step(old(Now()), Close(id)) && r == if Entry(old(Now()), id).None? then -1 else 0
    {
      var u := GetUsem(id);
      if u.None? {
        return -1;
      }
      userSem[u.value] := userSem[u.value].(ref := userSem[u.value].ref - 1);
      SetUsem(id, None);
      r := 0;
    }

    // ---------------------------------------------------------------- fork

    /** proc_alloc: every field of an unused slot is set, the exit code excepted. */
    method ProcAlloc() returns (r: Option<nat>)
      requires Valid()
      modifies pcb, `nextPid
      ensures Valid()
      ensures var s := old(Now());
              var i := FreeSlot(s.procs, 1);
              if i == PROC_NUM then r == None && Now() == s
              else r == Some(i) && Now() == Allocated(s, i)
    {
      ghost var before := pcb[..];
      var i := 1;
      while i < PROC_NUM
        invariant 1 <= i <= PROC_NUM && pcb[..] == before && nextPid == old(nextPid)
        invariant FreeSlot(before, i) == FreeSlot(before, 1)
      {
        if pcb[i].status == UNUSED {
          pcb[i] := pcb[i].(pid := nextPid);
          nextPid := nextPid + 1;
          pcb[i] := pcb[i].(status := UNINIT);
          pcb[i] := pcb[i].(parent := None, childNum := 0, zombie := Sem(0, []), ctx := User);
          ClearUsems(i);
          return Some(i);
        }
        i := i + 1;
      }
      r := None;
    }

    method ClearUsems(i: nat)
      requires Valid() && i < PROC_NUM
      modifies pcb
      ensures Valid() && pcb[..] == old(pcb[..])[i := old(pcb[i]).(usems := NoUsems())]
    {
      ghost var before := pcb[..];
      var j := 0;
      while j < MAX_USEM
        invariant 0 <= j <= MAX_USEM && |pcb[i].usems| == MAX_USEM
        invariant pcb[..] == before[i := before[i].(usems := pcb[i].usems)]
        invariant forall k :: 0 <= k < j ==> pcb[i].usems[k] == None
      {
        pcb[i] := pcb[i].(usems := pcb[i].usems[j := None]);
        j := j + 1;
      }
      assert pcb[i].usems == NoUsems();
    }

    /** proc_copycurr, as far as processes and semaphores go: parent, child count, and the open semaphores. */
    method CopyCurr(i: nat)
      requires Valid() && i < PROC_NUM && i != curr && pcb[i].usems == NoUsems() && EntriesOk(Now(), curr)
      modifies pcb, userSem
      ensures Valid()
      ensures var s := old(Now());
              var child := s.procs[i].(parent := Some(s.curr), usems := s.procs[s.curr].usems);
              var me := s.procs[s.curr].(childNum := s.procs[s.curr].childNum + 1);
              Now() == s.(procs := s.procs[i := child][s.curr := me], usems := AddRefs(s.usems, s.procs[s.curr].usems, 1))
    {
      pcb[i] := pcb[i].(parent := Some(curr));
      pcb[curr] := pcb[curr].(childNum := pcb[curr].childNum + 1);
      DupUsems(i);
    }

    method DupUsems(i: nat)
      requires Valid() && i < PROC_NUM && i != curr && pcb[i].usems == NoUsems() && EntriesOk(Now(), curr)
      modifies pcb, userSem
      ensures Valid() && pcb[..] == old(pcb[..])[i := old(pcb[i]).(usems := pcb[curr].usems)]
      ensures userSem[..] == AddRefs(old(userSem[..]), pcb[curr].usems, 1)
    {
      hide AddRefs;
      ghost var half, tbl, before := pcb[..], pcb[curr].usems, userSem[..];
      AddRefsNone(before, tbl, 1);
      var j := 0;
      while j < MAX_USEM
        invariant 0 <= j <= MAX_USEM && |pcb[i].usems| == MAX_USEM
        invariant forall p :: 0 <= p < PROC_NUM && p != i ==> pcb[p] == half[p]
        invariant pcb[i] == half[i].(usems := pcb[i].usems)
        invariant forall k :: 0 <= k < MAX_USEM ==> pcb[i].usems[k] == if k < j then tbl[k] else None
        invariant userSem[..] == AddRefs(before, tbl[..j], 1)
      {
        AddRefsStep(before, tbl, j, 1);
        var u := pcb[curr].usems[j];
        assert u == tbl[j];
        if u.Some? {
          userSem[u.value] := userSem[u.value].(ref := userSem[u.value].ref + 1);
          pcb[i] := pcb[i].(usems := pcb[i].usems[j := u]);
        }
        j := j + 1;
      }
      assert tbl[..j] == tbl && pcb[i].usems == tbl && pcb[curr].usems == tbl;
    }

    /** sys_fork; the number handed back is the child's. */
    method SysFork() returns (r: int)
      requires Valid() && EntriesOk(Now(), curr) && pcb[curr].status != UNUSED
      modifies pcb, userSem, `nextPid
      ensures Valid() && Now() == Fork(old(Now()))
      ensures r == if FreeSlot(old(Now()).procs, 1) == PROC_NUM then -1 else old(nextPid)
    {
      var i := ProcAlloc();
      if i.None? {
        return -1;
      }
      CopyCurr(i.value);
      pcb[i.value] := pcb[i.value].(status := READY);
      r := pcb[i.value].pid;
    }

    // ---------------------------------------------------------------- exit

    /** proc_makezombie of the running process. */
    method ToZombie(code: int)
      requires Valid() && Safe(Now(), Exit(code)) && EntriesOk(Now(), curr)
      modifies pcb, userSem
      ensures Valid() && Now() == MakeZombie(old(Now()), code)
    {
      pcb[curr] := pcb[curr].(status := ZOMBIE, exitCode := code);
      assert Now() == Dying(old(Now()), code);
      if pcb[curr].parent.Some? {
        V(OfProc(pcb[curr].parent.value));
      }
      OrphanAll();
      CloseAll();
    }

    method OrphanAll()
      requires Valid()
      modifies pcb
      ensures Valid() && Now() == old(Now()).(procs := Orphan(old(Now()).procs, curr))
    {
      ghost var before := pcb[..];
      ghost var orphaned := Orphan(before, curr);
      var i := 0;
      while i < PROC_NUM
        invariant 0 <= i <= PROC_NUM
        invariant forall k :: 0 <= k < PROC_NUM ==> pcb[k] == if k < i then orphaned[k] else before[k]
      {
        if pcb[i].parent == Some(curr) {
          pcb[i] := pcb[i].(parent := None);
        }
        i := i + 1;
      }
      assert pcb[..] == orphaned;
    }

    method CloseAll()
      requires Valid() && EntriesOk(Now(), curr)
      modifies userSem
      ensures Valid() && Now() == old(Now()).(usems := AddRefs(old(Now()).usems, pcb[curr].usems, -1))
    {
      ghost var before := userSem[..];
      ghost var tbl := pcb[curr].usems;
      AddRefsNone(before, tbl, -1);
      var j := 0;
      while j < MAX_USEM
        invariant 0 <= j <= MAX_USEM
        invariant userSem[..] == AddRefs(before, tbl[..j], -1)
      {
        AddRefsStep(before, tbl, j, -1);
        var u := pcb[curr].usems[j];
        if u.Some? {
          userSem[u.value] := userSem[u.value].(ref := userSem[u.value].ref - 1);
        }
        j := j + 1;
      }
      assert tbl[..j] == tbl;
    }

    // ---------------------------------------------------------------- wait

    /** proc_findzombie of the running process. */
    method FindZombieChild() returns (r: Option<nat>)
      requires Valid()
      ensures var z := FindZombie(Now().procs, curr, 0); r == if z == PROC_NUM then None else Some(z)
    {
      var i := 0;
      while i < PROC_NUM
        invariant 0 <= i <= PROC_NUM && FindZombie(pcb[..], curr, i) == FindZombie(pcb[..], curr, 0)
      {
        if pcb[i].parent == Some(curr) && pcb[i].status == ZOMBIE {
          return Some(i);
        }
        i := i + 1;
      }
      r := None;
    }

    /** sys_wait up to sem_p; whether there is a child to wait for. */
    method BeginWait() returns (ok: bool)
      requires Valid()
      modifies pcb, userSem
      ensures Valid() && ok == (old(pcb[curr].childNum) != 0)
      ensures Now() == if ok then StartWait(old(Now())) else old(Now())
    {
      if pcb[curr].childNum == 0 {
        return false;
      }
      pcb[curr] := pcb[curr].(ctx := Waiting);
      P(OfProc(curr));
      ok := true;
    }

    /** The rest of sys_wait: the assertion that there is a zombie, and the numbers it hands to its caller. */
    method EndWait() returns (pid: nat, code: int)
      requires Valid() && FindZombie(Now().procs, curr, 0) < PROC_NUM && pcb[curr].status == RUNNING
      modifies pcb
      ensures Valid() && Now() == Reap(old(Now()))
      ensures var z := FindZombie(old(Now()).procs, curr, 0); pid == old(Now()).procs[z].pid && code == old(Now()).procs[z].exitCode
    {
      var zombie := FindZombieChild();
      assert zombie != None;
      code := pcb[zombie.value].exitCode;
      pid := pcb[zombie.value].pid;
      ProcFree(zombie.value);
      pcb[curr] := pcb[curr].(childNum := pcb[curr].childNum - 1, ctx := User);
    }

    method ProcFree(i: nat)
      requires Valid() && i < PROC_NUM
      modifies pcb
      ensures Valid()
      ensures Now() == if old(pcb[i]).status == RUNNING then old(Now()) else SetStatus(old(Now()), i, UNUSED)
    {
      if pcb[i].status == RUNNING {
        return;
      }
      pcb[i] := pcb[i].(status := UNUSED);
    }

    // ---------------------------------------------------------------- scheduling

    /** The loop of schedule: it probes the slots after the current one, round and round, until one is ready. */
    method Probe() returns (p: nat)
      requires Valid() && exists q :: 0 <= q < PROC_NUM && pcb[q].status == READY
      ensures p < PROC_NUM && NextReady(Now().procs, curr, 1) == Some(p)
    {
      hide NextReady;
      ghost var procs := pcb[..];
      p := curr;
      ghost var d := 0;
      var found := false;
      while !found
        invariant p < PROC_NUM && 0 <= d <= PROC_NUM && (d == PROC_NUM ==> found)
        invariant p == if d == 0 then curr else Ahead(curr, d)
        invariant found ==> NextReady(procs, curr, 1) == Some(p)
        invariant !found ==> NextReady(procs, curr, d + 1) == NextReady(procs, curr, 1)
        decreases PROC_NUM - d, !found
      {
        p := if p == PROC_NUM - 1 then 0 else p + 1;
        d := d + 1;
        found := pcb[p].status == READY;
        ProbeStep(procs, curr, d);
      }
    }

    /** schedule */
    method Reschedule()
      requires Valid() && exists q :: 0 <= q < PROC_NUM && pcb[q].status == READY
      modifies pcb, `curr
      ensures Valid() && Now() == Schedule(old(Now())) && pcb[curr].status == RUNNING
    {
      var p := Probe();
      pcb[p] := pcb[p].(status := RUNNING);
      curr := p;
    }

    // ---------------------------------------------------------------- one event

    method Leave()
      requires Valid() && Core(Now()) && Switching(Now())
      modifies pcb, `curr
      ensures Valid() && Now() == Schedule(old(Now()))
    {
      assert pcb[0].status == READY;
      Reschedule();
    }

    /** sys_sem_p. A caller that must wait gets its 0 when it runs again. */
    method SysSemP(id: int) returns (r: int)
      requires Valid() && Inv(Now()) && Allowed(Now(), Event.P(id))
      modifies pcb, userSem, `curr
      ensures Valid() && Safe(old(Now()), Event.P(id)) && Now() == Step(old(Now()), Event.P(id))
      ensures r == if Entry(old(Now()), id).None? then -1 else 0
      ensures r == -1 ==> Now() == old(Now())
    {
      var u := GetUsem(id);
      if u.None? {
        return -1;
      }
      EntryOpen(Now(), id);
      SemPUserKeeps(Now(), u.value);
      P(OfUser(u.value));
      if pcb[curr].status == BLOCKED {
        Leave();
      }
      r := 0;
    }

    method SysExit(code: int)
      requires Valid() && Inv(Now()) && Allowed(Now(), Exit(code))
      modifies pcb, userSem, `curr
      ensures Valid() && Safe(old(Now()), Exit(code)) && Now() == Step(old(Now()), Exit(code))
    {
      ExitKeeps(Now(), code);
      ToZombie(code);
      Leave();
    }

    method SysYield()
      requires Valid() && Inv(Now())
      modifies pcb, `curr
      ensures Valid() && Now() == Step(old(Now()), Yield)
    {
      FlipKeeps(Now(), curr, READY);
      pcb[curr] := pcb[curr].(status := READY);
      assert Now() == SetStatus(old(Now()), curr, READY);
      Leave();
    }

    /** sys_wait: -1 without a child, the child's number and exit code if a zombie is there; a caller that must wait gets
        its answer from SysResume when it runs again. */
    method SysWait() returns (r: Option<int>, code: int)
      requires Valid() && Inv(Now()) && Allowed(Now(), Wait)
      modifies pcb, userSem, `curr
      ensures Valid() && Safe(old(Now()), Wait) && Now() == Step(old(Now()), Wait)
      ensures r == Some(-1) <==> old(pcb[curr].childNum) == 0
      ensures r == None <==> old(pcb[curr].childNum) != 0 && old(pcb[curr].zombie.value) <= 0
      ensures r.Some? && r.value >= 0 ==> WaitedFor(StartWait(old(Now())), r.value, code)
    {
      ghost var s := Now();
      WaitInv(s);
      r, code := Some(-1), 0;
      var ok := BeginWait();
      if ok {
        StartWaitKeeps(s);
        if pcb[curr].status == BLOCKED {
          Leave();
          r := None;
        } else {
          var pid;
          pid, code := EndWait();
          r := Some(pid);
        }
      }
    }

    /** The rest of sys_wait, for a caller that was blocked in it. */
    method SysResume() returns (pid: nat, code: int)
      requires Valid() && Inv(Now()) && Allowed(Now(), Resume)
      modifies pcb
      ensures Valid() && Safe(old(Now()), Resume) && Now() == Step(old(Now()), Resume)
      ensures WaitedFor(old(Now()), pid, code)
    {
      ZombieThere(Now());
      pid, code := EndWait();
    }

    /** Whatever the running process may do: the kernel carries it out without failing and in finite time, makes the
        step that the state machine allows, and keeps the invariant. */
    method Handle(e: Event)
      requires Valid() && Inv(Now()) && Allowed(Now(), e)
      modifies pcb, userSem, `curr, `nextPid
      ensures Valid() && Safe(old(Now()), e) && Now() == Step(old(Now()), e) && Inv(Now())
    {
      hide Inv, Core, Step, Safe, Allowed;
      ghost var s := Now();
      StepInv(s, e);
      HandleNeeds(s, e);
      match e
      case Yield => SysYield();
      case ForkCall => var _ := SysFork();
      case Exit(code) => SysExit(code);
      case Wait => var _, _ := SysWait();
      case Resume => var _, _ := SysResume();
      case Open(value) => var _ := SysSemOpen(value);
      case P(id) => var _ := SysSemP(id);
      case V(id) => var _ := SysSemV(id);
      case Close(id) => var _ := SysSemClose(id);
    }
  }
}
