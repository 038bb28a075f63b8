/** What user semaphores are for: over any run no more P's are through than the initial value and the V's allow
    (kernel/src/sem.c, kernel/src/syscall.c). */
module Semaphores {
  import opened Options
  import opened Processes
  import opened ProcessInvariant
  import opened ProcessTheorems

  /** The running process has user semaphore u open under this number. */
  predicate Has(s: State, j: int, u: nat) {
    s.curr < |s.procs| && 0 <= j < |s.procs[s.curr].usems| && s.procs[s.curr].usems[j] == Some(u)
  }

  // ---------------------------------------------------------------- one event

  /** P and V move the value of the semaphore under their number by one and no other, whoever is blocked or woken by it;
      opening gives an unused one its value; nothing else moves any. */
  lemma Moves(s: State, e: Event, u: nat)
    requires Inv(s) && Allowed(s, e) && u < USER_SEM_NUM
    ensures Safe(s, e)
    ensures var was, now := s.usems[u], Step(s, e).usems[u];
            match e
            case P(j) => now.sem.value == was.sem.value - (if Has(s, j, u) then 1 else 0)
            case V(j) => now.sem.value == was.sem.value + (if Has(s, j, u) then 1 else 0)
            case Open(value) => now == was || (was.ref == 0 && now == Usem(Sem(value, []), 1))
            case _ => now.sem == was.sem
  {
    hide ListsOk, FamilyOk, RefsOk, PidsOk, IdleOk;
    StepInv(s, e);
    match e
    case Exit(code) =>
      ExitMoves(s, code, u);
    case _ =>
  }

  lemma ExitMoves(s: State, code: int, u: nat)
    requires Sizes(s) && Safe(s, Exit(code)) && u < USER_SEM_NUM
    ensures Step(s, Exit(code)).usems[u].sem == s.usems[u].sem
  {
  }

  /** P goes on when the value is positive; else it waits, last in the list, and another process runs. */
  lemma PWaits(s: State, j: int, u: nat)
    requires Inv(s) && Allowed(s, Event.P(j)) && Has(s, j, u)
    ensures u < USER_SEM_NUM && Safe(s, Event.P(j))
    ensures var was, t := s.usems[u].sem, Step(s, Event.P(j));
            if was.value > 0 then t.curr == s.curr && t.procs == s.procs && t.usems[u].sem.list == was.list
            else t.procs[s.curr].status == BLOCKED && t.curr != s.curr && t.usems[u].sem.list == was.list + [s.curr]
  {
    hide ListsOk, FamilyOk, RefsOk, PidsOk, IdleOk, Schedule;
    StepInv(s, Event.P(j));
    HasInRange(s, j, u);
    var s1 := SemP(s, OfUser(u));
    if s.usems[u].sem.value <= 0 {
      LeavesBlocked(s1);
    }
  }

  lemma HasInRange(s: State, j: int, u: nat)
    requires Inv(s) && Has(s, j, u)
    ensures u < USER_SEM_NUM && s.usems[u].ref > 0
  {
    hide ListsOk, FamilyOk, PidsOk, IdleOk;
    assert EntriesOk(s, s.curr);
    OpenEntry(s.procs[s.curr].usems, j, u);
    SumAtLeast(s.procs, RefsTo(u), s.curr);
  }

  lemma {:induction false} OpenEntry(tbl: seq<Option<nat>>, j: nat, u: nat)
    requires j < |tbl| && tbl[j] == Some(u)
    ensures Refs(tbl, u) > 0
  {
    if j > 0 {
      OpenEntry(tbl[1..], j - 1, u);
    }
  }

  lemma LeavesBlocked(s: State)
    requires Sizes(s) && s.procs[s.curr].status == BLOCKED && Inv(Schedule(s))
    ensures Schedule(s).curr != s.curr && Schedule(s).procs[s.curr].status == BLOCKED && Schedule(s).usems == s.usems
  {
    hide Core;
  }

  /** V wakes the process that has waited longest, if one waits, and nobody else; the caller goes on. */
  lemma VWakes(s: State, j: int, u: nat)
    requires Inv(s) && Allowed(s, Event.V(j)) && Has(s, j, u)
    ensures u < USER_SEM_NUM && Safe(s, Event.V(j))
    ensures var was, t := s.usems[u].sem, Step(s, Event.V(j));
            && t.curr == s.curr
            && if was.list == [] then t.procs == s.procs && t.usems[u].sem.list == []
               else
                 && was.list[0] < PROC_NUM && t.procs == s.procs[was.list[0] := s.procs[was.list[0]].(status := READY)]
                 && t.usems[u].sem.list == was.list[1..]
  {
    hide FamilyOk, RefsOk, PidsOk, IdleOk;
    StepInv(s, Event.V(j));
    HasInRange(s, j, u);
    assert SemOk(s, OfUser(u));
  }

  /** Closing gives up the number and one reference, and nothing else; without such a number these calls do nothing. */
  lemma Closes(s: State, j: int, u: nat)
    requires Inv(s) && Allowed(s, Close(j)) && Has(s, j, u)
    ensures u < USER_SEM_NUM && Safe(s, Close(j))
    ensures var t := Step(s, Close(j));
            && t == State(s.procs[s.curr := s.procs[s.curr].(usems := s.procs[s.curr].usems[j := None])],
                          s.usems[u := s.usems[u].(ref := s.usems[u].ref - 1)], s.curr, s.nextPid)
  {
    hide ListsOk, FamilyOk, RefsOk, PidsOk, IdleOk;
    StepInv(s, Close(j));
    HasInRange(s, j, u);
  }

  lemma NoNumber(s: State, j: int)
    requires Inv(s) && forall u: nat :: !Has(s, j, u)
    ensures Safe(s, Event.P(j)) && Safe(s, Event.V(j)) && Safe(s, Close(j))
    ensures Step(s, Event.P(j)) == s && Step(s, Event.V(j)) == s && Step(s, Close(j)) == s
  {
    hide Core;
    InvSizes(s);
    assert Entry(s, j).Some? ==> Has(s, j, Entry(s, j).value);
  }

  lemma InvSizes(s: State)
    requires Inv(s)
    ensures Sizes(s)
  {
  }

  // ---------------------------------------------------------------- a run

  /** How many of the events from lo to hi are a P on semaphore u. */
  function Ps(ss: seq<State>, es: seq<Event>, lo: nat, hi: nat, u: nat): nat
    requires lo <= hi <= |es| && |ss| == |es| + 1
    decreases hi
  {
    if lo == hi then 0 else Ps(ss, es, lo, hi - 1, u) + if es[hi - 1].P? && Has(ss[hi - 1], es[hi - 1].id, u) then 1 else 0
  }

  function Vs(ss: seq<State>, es: seq<Event>, lo: nat, hi: nat, u: nat): nat
    requires lo <= hi <= |es| && |ss| == |es| + 1
    decreases hi
  {
    if lo == hi then 0 else Vs(ss, es, lo, hi - 1, u) + if es[hi - 1].V? && Has(ss[hi - 1], es[hi - 1].id, u) then 1 else 0
  }

  ghost predicate OpenAt(s: State, u: nat) {
    u < |s.usems| && s.usems[u].ref > 0
  }

  /** While a semaphore is open, its value counts the V's and the P's. */
  lemma {:induction false} Balance(ss: seq<State>, es: seq<Event>, lo: nat, hi: nat, u: nat)
    requires Trace(ss, es) && lo <= hi <= |es| && u < USER_SEM_NUM
    requires forall k :: lo <= k < hi ==> OpenAt(ss[k], u)
    ensures Inv(ss[lo]) && Inv(ss[hi]) && |ss[lo].usems| == |ss[hi].usems| == USER_SEM_NUM
    ensures ss[hi].usems[u].sem.value == ss[lo].usems[u].sem.value + Vs(ss, es, lo, hi, u) - Ps(ss, es, lo, hi, u)
    decreases hi
  {
    hide Core, Step, Safe, Allowed, Trace, Has;
    RunSafe(ss, es, lo);
    RunSafe(ss, es, hi);
    InvSizes(ss[lo]);
    InvSizes(ss[hi]);
    if lo < hi {
      RunSafe(ss, es, hi - 1);
      Balance(ss, es, lo, hi - 1, u);
      Moves(ss[hi - 1], es[hi - 1], u);
      assert OpenAt(ss[hi - 1], u);
    }
  }

  /** Of the P's on a semaphore that nobody waited for, all are through but those whose processes wait, and no more than
      its value then and the V's since allow. */
  lemma NoneTooMany(ss: seq<State>, es: seq<Event>, lo: nat, hi: nat, u: nat)
    requires Trace(ss, es) && lo <= hi <= |es| && u < USER_SEM_NUM
    requires forall k :: lo <= k < hi ==> OpenAt(ss[k], u)
    ensures Sizes(ss[lo]) && Sizes(ss[hi])
    ensures ss[lo].usems[u].sem.value >= 0 ==>
              Ps(ss, es, lo, hi, u) - |ss[hi].usems[u].sem.list| <= ss[lo].usems[u].sem.value + Vs(ss, es, lo, hi, u)
    ensures ss[lo].usems[u].sem.value >= 0 && ss[hi].usems[u].sem.list != [] ==>
              Ps(ss, es, lo, hi, u) - |ss[hi].usems[u].sem.list| == ss[lo].usems[u].sem.value + Vs(ss, es, lo, hi, u)
  {
    hide FamilyOk, RefsOk, PidsOk, IdleOk, Trace, Step, Safe, Allowed;
    Balance(ss, es, lo, hi, u);
    assert SemOk(ss[hi], OfUser(u));
  }
}
