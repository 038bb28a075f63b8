/** The condition variable of lab/lab8/condition_sem.c with my_cv_signal in place of my_cv_broadcast: producers and
    consumers that share it can all fall asleep just when there are more than twice as many of them as places. */
module SignalBound {
  import opened CondVar

  // ---------------------------------------------------------------- counting threads by role

  datatype Kind = Any | Gave | Asleep

  predicate Is(th: Thread, r: Role, kind: Kind) {
    th.role == r && match kind case Any => true case Gave => GaveUp(th) case Asleep => th.pc == Sleep
  }

  function Num(ths: seq<Thread>, r: Role, kind: Kind): nat {
    if ths == [] then 0 else (if Is(ths[0], r, kind) then 1 else 0) + Num(ths[1..], r, kind)
  }

  lemma {:induction false} NumUpdate(ths: seq<Thread>, t: nat, th: Thread, r: Role, kind: Kind)
    requires t < |ths|
    ensures Num(ths[t := th], r, kind) == Num(ths, r, kind) - (if Is(ths[t], r, kind) then 1 else 0) + (if Is(th, r, kind) then 1 else 0)
  {
    if t > 0 {
      NumUpdate(ths[1..], t - 1, th, r, kind);
      assert ths[t := th][1..] == ths[1..][t - 1 := th];
    } else {
      assert ths[t := th][1..] == ths[1..];
    }
  }

  /** Of the threads of a role, no more can be of a kind than there are; and if one is not, fewer are. */
  lemma {:induction false} NumAtMost(ths: seq<Thread>, r: Role, kind: Kind)
    ensures Num(ths, r, kind) <= Num(ths, r, Any)
    ensures forall t :: 0 <= t < |ths| && ths[t].role == r && !Is(ths[t], r, kind) ==> Num(ths, r, kind) < Num(ths, r, Any)
  {
    if ths != [] {
      NumAtMost(ths[1..], r, kind);
      forall t | 0 <= t < |ths| && ths[t].role == r && !Is(ths[t], r, kind)
        ensures Num(ths, r, kind) < Num(ths, r, Any)
      {
        assert t > 0 ==> ths[t] == ths[1..][t - 1];
      }
    }
  }

  lemma {:induction false} NumSome(ths: seq<Thread>, r: Role, kind: Kind) returns (t: nat)
    requires Num(ths, r, kind) > 0
    ensures t < |ths| && Is(ths[t], r, kind)
  {
    if Is(ths[0], r, kind) {
      t := 0;
    } else {
      t := NumSome(ths[1..], r, kind);
      t := t + 1;
    }
  }

  lemma {:induction false} NumOther(ths: seq<Thread>, r: Role, kind: Kind) returns (t: nat)
    requires Num(ths, r, kind) < Num(ths, r, Any)
    ensures t < |ths| && ths[t].role == r && !Is(ths[t], r, kind)
  {
    if ths[0].role == r && !Is(ths[0], r, kind) {
      t := 0;
    } else {
      t := NumOther(ths[1..], r, kind);
      t := t + 1;
    }
  }

  lemma {:induction false} NumNone(ths: seq<Thread>, r: Role, kind: Kind)
    requires forall t :: 0 <= t < |ths| ==> !Is(ths[t], r, kind)
    ensures Num(ths, r, kind) == 0
  {
    if ths != [] {
      NumNone(ths[1..], r, kind);
    }
  }

  function Other(r: Role): Role {
    if r.Producer? then Consumer else Producer
  }

  // ---------------------------------------------------------------- few threads: nobody is left asleep

  /** What is there for threads of role r: items for consumers, free places for producers. */
  function Level(s: State, r: Role): int {
    if r.Consumer? then s.cnt else s.cap - s.cnt
  }

  function Pos(n: int): int {
    if n > 0 then n else 0
  }

  /** Of na threads of one role x have given up, of nb of the other y have, at a level l of k for the first role. */
  predicate Bounds(na: int, nb: int, k: int, x: int, y: int, l: int) {
    x <= Pos(na - l) && (y > 0 ==> x <= Pos(na - k) && x + y <= Pos(na - k) + nb - (k - l))
  }

  lemma GiveUpFirst(na: int, nb: int, k: int, x: int, y: int)
    requires Bounds(na, nb, k, x, y, 0) && na + nb <= 2 * k && 0 < nb <= k && 0 <= x < na && y >= 0
    ensures Bounds(na, nb, k, x + 1, y, 0)
  {
  }

  lemma GiveUpSecond(na: int, nb: int, k: int, x: int, y: int)
    requires Bounds(na, nb, k, x, y, k) && 0 <= y < nb
    ensures Bounds(na, nb, k, x, y + 1, k)
  {
  }

  /** One is woken while the level changes by one. */
  lemma OneWoken(na: int, nb: int, k: int, x: int, y: int, l: int, x2: int, y2: int, l2: int)
    requires Bounds(na, nb, k, x, y, l) && 0 <= l2 <= k && (l2 == l + 1 || l2 == l - 1) && x2 >= 0 && y2 >= 0
    requires (x2 == x - 1 && y2 == y) || (x2 == x && y2 == y - 1) || (x == x2 == 0 && y == y2 == 0)
    ensures Bounds(na, nb, k, x2, y2, l2)
  {
  }

  /** The thread has changed the buffer and nobody was woken for it yet. */
  predicate Owes(s: State, th: Thread) {
    th.pc == SLock || th.pc == STest || th.pc == SPost || (th.pc == SAwait && s.sleep == 1)
  }

  function Before(s: State, r: Role, th: Thread): int {
    Level(s, r) + if th.role == r then 1 else -1
  }

  ghost predicate BoundsAt(s: State, r: Role, l: int) {
    Bounds(Num(s.threads, r, Any), Num(s.threads, Other(r), Any), s.cap, Num(s.threads, r, Gave), Num(s.threads, Other(r), Gave), l)
  }

  /** The bounds hold at the level as it was when the wakeups so far were made. */
  ghost predicate Few(s: State, r: Role) {
    && s.wakeup.Signal?
    && Num(s.threads, r, Any) + Num(s.threads, Other(r), Any) <= 2 * s.cap && 0 < Num(s.threads, Other(r), Any) <= s.cap
    && (forall t :: 0 <= t < |s.threads| ==> !Member(s.threads[t].pc, Sweeping) && !s.threads[t].pc.BLock?)
    && (forall t :: 0 <= t < |s.threads| && Owes(s, s.threads[t]) ==> BoundsAt(s, r, Before(s, r, s.threads[t])))
    && ((forall t :: 0 <= t < |s.threads| ==> !Owes(s, s.threads[t])) ==> BoundsAt(s, r, Level(s, r)))
  }

  /** How a step changes the numbers. */
  lemma NumMoved(s: State, t: nat, s': State)
    requires t < |s.threads| && Enabled(s, t) && s' == Step(s, t)
    ensures forall r :: Num(s'.threads, r, Any) == Num(s.threads, r, Any)
    ensures forall r :: Num(s'.threads, r, Gave) ==
              Num(s.threads, r, Gave) - (if Is(s.threads[t], r, Gave) then 1 else 0) + (if Is(s'.threads[t], r, Gave) then 1 else 0)
  {
    hide Num;
    Moved(s, t, s');
    assert s'.threads == s.threads[t := s'.threads[t]];
    forall r
      ensures Num(s'.threads, r, Any) == Num(s.threads, r, Any)
      ensures Num(s'.threads, r, Gave) ==
                Num(s.threads, r, Gave) - (if Is(s.threads[t], r, Gave) then 1 else 0) + (if Is(s'.threads[t], r, Gave) then 1 else 0)
    {
      NumUpdate(s.threads, t, s'.threads[t], r, Any);
      NumUpdate(s.threads, t, s'.threads[t], r, Gave);
    }
  }

  /** Whoever holds the mutex owes, or nobody does. */
  lemma OwersHold(s: State, t: nat)
    requires Inv(s) && t < |s.threads| && Member(s.threads[t].pc, Crit)
    ensures forall u :: 0 <= u < |s.threads| && u != t ==> !Owes(s, s.threads[u])
  {
    hide Count, Serving, Still;
    Exclusive(s, t);
  }

  /** A signal on its way to a sleeper comes from a thread that owes it. */
  lemma Signaller(s: State, t: nat) returns (h: nat)
    requires Inv(s) && t < |s.threads| && s.threads[t].pc == Sleep && s.sleep > 0
    requires forall u :: 0 <= u < |s.threads| ==> !Member(s.threads[u].pc, Sweeping) && !s.threads[u].pc.BLock?
    ensures h < |s.threads| && h != t && s.threads[h].pc == SAwait && s.sleep == 1
  {
    hide Count;
    h := CountWitness(s.threads, Waking);
    assert Serving(s, s.threads[h]);
  }

  /** With nobody counted as waiting, nobody has given up. */
  lemma NobodyGave(s: State, t: nat)
    requires Inv(s) && t < |s.threads| && s.threads[t].pc == STest && s.nwait <= 0
    ensures forall r :: Num(s.threads, r, Gave) == 0
  {
    hide Count, Num;
    Exclusive(s, t);
    forall r
      ensures Num(s.threads, r, Gave) == 0
    {
      forall u | 0 <= u < |s.threads|
        ensures !Is(s.threads[u], r, Gave)
      {
        if Member(s.threads[u].pc, Waits) {
          CountMember(s.threads, u, Waits);
        }
      }
      NumNone(s.threads, r, Gave);
    }
  }

  lemma StillSignal(s: State, t: nat, r: Role)
    requires Few(s, r) && t < |s.threads| && Enabled(s, t)
    ensures var s' := Step(s, t);
            forall u :: 0 <= u < |s'.threads| ==> !Member(s'.threads[u].pc, Sweeping) && !s'.threads[u].pc.BLock?
  {
    hide Num, Bounds;
  }

  /** P(sleep): one of those that gave up is woken, which settles what the signaller owed. */
  lemma SleeperWoken(s: State, t: nat, r: Role)
    requires Inv(s) && Few(s, r) && t < |s.threads| && s.threads[t].pc == Sleep && s.sleep > 0
    ensures var s' := Step(s, t);
            BoundsAt(s', r, Level(s', r)) && forall u :: 0 <= u < |s'.threads| ==> !Owes(s', s'.threads[u])
  {
    hide Count, Num, Serving, Still, Bounds;
    var s' := Step(s, t);
    var h := Signaller(s, t);
    OwersHold(s, h);
    NumMoved(s, t, s');
    assert Owes(s, s.threads[h]);
    OneWoken(Num(s.threads, r, Any), Num(s.threads, Other(r), Any), s.cap, Num(s.threads, r, Gave), Num(s.threads, Other(r), Gave),
             Before(s, r, s.threads[h]), Num(s'.threads, r, Gave), Num(s'.threads, Other(r), Gave), Level(s', r));
  }

  lemma SleepStep(s: State, t: nat, r: Role)
    requires Inv(s) && Few(s, r) && t < |s.threads| && s.threads[t].pc == Sleep && s.sleep > 0
    ensures Few(Step(s, t), r)
  {
    hide Count, Num, Inv, BoundsAt, Member, Owes;
    StillSignal(s, t, r);
    SleeperWoken(s, t, r);
    NumMoved(s, t, Step(s, t));
  }

  /** By how much the level was higher when the wakeups so far were made. */
  function Shift(s: State, r: Role, th: Thread): int {
    if !Owes(s, th) then 0 else if th.role == r then 1 else -1
  }

  /** What the other steps leave: who has given up, what is owed, and at which level. */
  lemma OtherSteps(s: State, t: nat, r: Role)
    requires Inv(s) && Few(s, r) && t < |s.threads| && Enabled(s, t) && s.threads[t].pc != Sleep
    ensures Few(Step(s, t), r)
  {
    hide Count, Num, Inv, Few, BoundsAt, Step, Enabled, Member, Owes;
    var s' := Step(s, t);
    StillSignal(s, t, r);
    StepInv(s, t);
    if !Member(s.threads[t].pc, Crit) {
      FreeStep(s, t, r);
    } else {
      OwersHold(s, t);
      HolderFew(s, t, r);
      OthersSame(s, t);
      if s.threads[t].pc == Test && !Cond(s, s.threads[t].role) {
        GivesUp(s, t, r);
      } else if s.threads[t].pc == STest && s.nwait <= 0 {
        NobodyGave(s, t);
        NobodyWoken(s, t, r);
      } else {
        CritEffect(s, t, r);
      }
      FewAgain(s, t, r);
    }
  }

  /** A thread that holds the mutex is the one that may owe. */
  lemma HolderFew(s: State, t: nat, r: Role)
    requires Few(s, r) && t < |s.threads|
    requires forall u :: 0 <= u < |s.threads| && u != t ==> !Owes(s, s.threads[u])
    ensures BoundsAt(s, r, Level(s, r) + Shift(s, r, s.threads[t]))
  {
    hide Count, Num, Owes, BoundsAt, Member;
  }

  /** A step of the thread that holds the mutex leaves the others owing nothing. */
  lemma OthersSame(s: State, t: nat)
    requires Inv(s) && t < |s.threads| && Enabled(s, t) && Member(s.threads[t].pc, Crit)
    ensures var s' := Step(s, t); forall u :: 0 <= u < |s'.threads| && u != t ==> !Owes(s', s'.threads[u])
  {
    hide Count, Serving, Still;
    var s' := Step(s, t);
    Exclusive(s, t);
    Moved(s, t, s');
  }

  lemma FewAgain(s: State, t: nat, r: Role)
    requires Few(s, r) && t < |s.threads| && Enabled(s, t)
    requires var s' := Step(s, t);
             && (forall u :: 0 <= u < |s'.threads| && u != t ==> !Owes(s', s'.threads[u]))
             && (forall u :: 0 <= u < |s'.threads| ==> !Member(s'.threads[u].pc, Sweeping) && !s'.threads[u].pc.BLock?)
             && BoundsAt(s', r, Level(s', r) + Shift(s', r, s'.threads[t]))
    ensures Few(Step(s, t), r)
  {
    hide Count, Num, Owes, BoundsAt, Member;
    var s' := Step(s, t);
    NumMoved(s, t, s');
  }

  /** A step without the mutex, but not out of sleep, changes nothing of this. */
  lemma FreeStep(s: State, t: nat, r: Role)
    requires Inv(s) && Few(s, r) && t < |s.threads| && Enabled(s, t) && s.threads[t].pc != Sleep && !Member(s.threads[t].pc, Crit)
    requires var s' := Step(s, t);
             forall u :: 0 <= u < |s'.threads| ==> !Member(s'.threads[u].pc, Sweeping) && !s'.threads[u].pc.BLock?
    ensures Few(Step(s, t), r)
  {
    hide Count, Num, Inv, BoundsAt, Step, Member, Enabled, Owes;
    var s' := Step(s, t);
    FreeEffect(s, t, r);
    forall u | 0 <= u < |s'.threads|
      ensures Owes(s', s'.threads[u]) == Owes(s, s.threads[u])
      ensures Before(s', r, s'.threads[u]) == Before(s, r, s.threads[u])
    {
      FreeOwes(s, t, u);
    }
    if forall u :: 0 <= u < |s'.threads| ==> !Owes(s', s'.threads[u]) {
      assert forall u :: 0 <= u < |s.threads| ==> Owes(s, s.threads[u]) == Owes(s', s'.threads[u]);
    }
  }

  lemma FreeEffect(s: State, t: nat, r: Role)
    requires t < |s.threads| && Enabled(s, t) && s.threads[t].pc != Sleep && !Member(s.threads[t].pc, Crit)
    ensures var s' := Step(s, t);
            && |s'.threads| == |s.threads| && Level(s', r) == Level(s, r) && s'.cap == s.cap && s'.wakeup == s.wakeup
            && (forall u :: 0 <= u < |s.threads| ==> s'.threads[u].role == s.threads[u].role)
            && Num(s'.threads, r, Any) == Num(s.threads, r, Any)
            && Num(s'.threads, Other(r), Any) == Num(s.threads, Other(r), Any)
            && forall l :: BoundsAt(s', r, l) == BoundsAt(s, r, l)
  {
    hide Count, Num, Bounds;
    NumMoved(s, t, Step(s, t));
  }

  lemma FreeOwes(s: State, t: nat, u: nat)
    requires t < |s.threads| && Enabled(s, t) && s.threads[t].pc != Sleep && !Member(s.threads[t].pc, Crit) && u < |s.threads|
    ensures var s' := Step(s, t); Owes(s', s'.threads[u]) == Owes(s, s.threads[u])
  {
  }

  lemma GivesUp(s: State, t: nat, r: Role)
    requires Inv(s) && Few(s, r) && t < |s.threads| && s.threads[t].pc == Test && !Cond(s, s.threads[t].role)
    requires BoundsAt(s, r, Level(s, r) + Shift(s, r, s.threads[t]))
    ensures var s' := Step(s, t); BoundsAt(s', r, Level(s', r) + Shift(s', r, s'.threads[t]))
  {
    hide Count, Num, Inv, Bounds, Few, Step, Level, Shift;
    Sizes(s, r);
    OneGaveUp(s, t, r);
    var na, nb := Num(s.threads, r, Any), Num(s.threads, Other(r), Any);
    var x, y := Num(s.threads, r, Gave), Num(s.threads, Other(r), Gave);
    if s.threads[t].role == r {
      GiveUpFirst(na, nb, s.cap, x, y);
    } else {
      GiveUpSecond(na, nb, s.cap, x, y);
    }
  }

  /** The effect of giving up, which happens where nothing is left for the role. */
  lemma OneGaveUp(s: State, t: nat, r: Role)
    requires t < |s.threads| && s.threads[t].pc == Test && !Cond(s, s.threads[t].role) && 0 <= s.cnt <= s.cap
    ensures var s', own := Step(s, t), s.threads[t].role == r;
            && s'.cap == s.cap && Level(s', r) + Shift(s', r, s'.threads[t]) == Level(s, r) + Shift(s, r, s.threads[t])
            && Level(s, r) + Shift(s, r, s.threads[t]) == (if own then 0 else s.cap)
            && Num(s'.threads, r, Any) == Num(s.threads, r, Any)
            && Num(s'.threads, Other(r), Any) == Num(s.threads, Other(r), Any)
            && Num(s'.threads, r, Gave) == Num(s.threads, r, Gave) + (if own then 1 else 0)
            && Num(s'.threads, Other(r), Gave) == Num(s.threads, Other(r), Gave) + (if own then 0 else 1)
    ensures Num(s.threads, s.threads[t].role, Gave) < Num(s.threads, s.threads[t].role, Any)
  {
    hide Num;
    NumMoved(s, t, Step(s, t));
    NumAtMost(s.threads, s.threads[t].role, Gave);
  }

  lemma Sizes(s: State, r: Role)
    requires Inv(s) && Few(s, r)
    ensures 0 <= s.cnt <= s.cap && s.wakeup.Signal?
    ensures Num(s.threads, r, Any) + Num(s.threads, Other(r), Any) <= 2 * s.cap && 0 < Num(s.threads, Other(r), Any) <= s.cap
  {
    hide Count, Num, Serving, Still, Bounds, Owes, Member;
  }

  lemma NobodyWoken(s: State, t: nat, r: Role)
    requires Inv(s) && Few(s, r) && t < |s.threads| && s.threads[t].pc == STest && s.nwait <= 0
    requires forall x :: Num(s.threads, x, Gave) == 0
    ensures var s' := Step(s, t); BoundsAt(s', r, Level(s', r) + Shift(s', r, s'.threads[t]))
  {
    hide Count, Num, Inv, Few;
    var s' := Step(s, t);
    NumMoved(s, t, s');
  }

  /** The other steps of the thread that holds the mutex change the level with what it owes. */
  lemma CritEffect(s: State, t: nat, r: Role)
    requires Inv(s) && Few(s, r) && t < |s.threads| && Enabled(s, t) && Member(s.threads[t].pc, Crit)
    requires !(s.threads[t].pc == Test && !Cond(s, s.threads[t].role)) && !(s.threads[t].pc == STest && s.nwait <= 0)
    requires BoundsAt(s, r, Level(s, r) + Shift(s, r, s.threads[t]))
    ensures var s' := Step(s, t); BoundsAt(s', r, Level(s', r) + Shift(s', r, s'.threads[t]))
  {
    hide Count, Num, Inv, Few, Bounds;
    var s' := Step(s, t);
    NumMoved(s, t, s');
    Sizes(s, r);
    InFlight(s, t);
    NoSweep(s, t, r);
  }

  lemma NoSweep(s: State, t: nat, r: Role)
    requires Few(s, r) && t < |s.threads|
    ensures !Member(s.threads[t].pc, Sweeping) && !s.threads[t].pc.BLock?
  {
  }

  /** The wakeup that a signaller waits for is answered: its sleeper was woken. */
  lemma InFlight(s: State, t: nat)
    requires Inv(s) && t < |s.threads| && Enabled(s, t)
    ensures s.threads[t].pc == SAwait ==> s.sleep == 0
    ensures s.threads[t].pc == SPost ==> s.sleep == 0
  {
    hide Count;
    assert Serving(s, s.threads[t]);
  }

  lemma StepFew(s: State, t: nat, r: Role)
    requires Inv(s) && Few(s, r) && t < |s.threads| && Enabled(s, t)
    ensures Few(Step(s, t), r)
  {
    hide Count, Num, Inv, Few, Bounds, Step, Member, Owes;
    if s.threads[t].pc == Sleep {
      SleepStep(s, t, r);
    } else {
      OtherSteps(s, t, r);
    }
  }

  lemma InitFew(s: State, r: Role)
    requires Init(s) && s.wakeup.Signal?
    requires Num(s.threads, Producer, Any) + Num(s.threads, Consumer, Any) <= 2 * s.cap && 0 < Num(s.threads, Other(r), Any) <= s.cap
    ensures Few(s, r)
  {
    hide Num;
    NumNone(s.threads, r, Gave);
    NumNone(s.threads, Other(r), Gave);
  }

  lemma {:induction false} RunFew(run: seq<State>, k: nat, r: Role)
    requires IsRun(run) && Init(run[0]) && k < |run| && Few(run[0], r)
    ensures Inv(run[k]) && Few(run[k], r)
  {
    hide Inv, Few, Step, Enabled, Init;
    RunInv(run, k);
    if k > 0 {
      RunFew(run, k - 1, r);
      assert Next(run[k - 1], run[k]);
      var t :| 0 <= t < |run[k - 1].threads| && Enabled(run[k - 1], t) && run[k] == Step(run[k - 1], t);
      StepFew(run[k - 1], t, r);
    }
  }

  ghost predicate Stuck(s: State) {
    forall t :: 0 <= t < |s.threads| ==> !Enabled(s, t)
  }

  /** Where nobody can step everybody sleeps. */
  lemma StuckSleep(s: State)
    requires Inv(s) && Stuck(s)
    ensures forall t :: 0 <= t < |s.threads| ==> s.threads[t].pc == Sleep
    ensures forall t :: 0 <= t < |s.threads| ==> !Member(s.threads[t].pc, Crit)
    ensures s.mutex > 0
  {
    hide Count, Serving, Still;
    if s.mutex == 0 {
      var h := CountWitness(s.threads, Crit);
      var t := HolderOrHelper(s, h);
      assert false;
    }
    NobodyBusy(s);
    forall t | 0 <= t < |s.threads|
      ensures s.threads[t].pc == Sleep
    {
      assert !Enabled(s, t) && !Member(s.threads[t].pc, Crit);
    }
  }

  /** Where everybody sleeps, all of both roles have given up. */
  lemma SleepersGave(s: State, r: Role)
    requires forall t :: 0 <= t < |s.threads| ==> s.threads[t].pc == Sleep
    ensures Num(s.threads, r, Gave) == Num(s.threads, r, Any)
  {
    hide Num;
    NumAtMost(s.threads, r, Gave);
    if Num(s.threads, r, Gave) < Num(s.threads, r, Any) {
      var t := NumOther(s.threads, r, Gave);
      assert false;
    }
  }

  lemma FewNotStuck(s: State, r: Role)
    requires Inv(s) && Few(s, r) && Num(s.threads, r, Any) > 0
    ensures !Stuck(s)
  {
    hide Count, Num, Inv, Stuck;
    if Stuck(s) {
      StuckSleep(s);
      SleepersGave(s, r);
      SleepersGave(s, Other(r));
      Sizes(s, r);
      assert false;
    }
  }

  /** With no more threads than twice the places, signalling never leaves everybody asleep. */
  lemma SignalSafe(run: seq<State>, k: nat)
    requires IsRun(run) && Init(run[0]) && k < |run| && run[0].wakeup.Signal?
    requires Num(run[0].threads, Producer, Any) + Num(run[0].threads, Consumer, Any) <= 2 * run[0].cap
    ensures exists t :: 0 <= t < |run[k].threads| && Enabled(run[k], t)
  {
    hide Count, Num, Inv, Few;
    SomeOfBoth(run[0]);
    var r := if Num(run[0].threads, Producer, Any) <= run[0].cap then Consumer else Producer;
    InitFew(run[0], r);
    RunFew(run, k, r);
    SameNumbers(run, k);
    FewNotStuck(run[k], r);
  }

  lemma SomeOfBoth(s: State)
    requires Init(s)
    ensures Num(s.threads, Producer, Any) > 0 && Num(s.threads, Consumer, Any) > 0
  {
    hide Num;
    NumAtMost(s.threads, Producer, Gave);
    NumAtMost(s.threads, Consumer, Gave);
  }

  lemma {:induction false} SameNumbers(run: seq<State>, k: nat)
    requires IsRun(run) && k < |run|
    ensures forall r :: Num(run[k].threads, r, Any) == Num(run[0].threads, r, Any)
    ensures run[k].cap == run[0].cap
  {
    hide Num, Step, Enabled;
    if k > 0 {
      SameNumbers(run, k - 1);
      assert Next(run[k - 1], run[k]);
      var t :| 0 <= t < |run[k - 1].threads| && Enabled(run[k - 1], t) && run[k] == Step(run[k - 1], t);
      NumMoved(run[k - 1], t, run[k]);
      RunRoles(run, k);
    }
  }
}
