/** With more than twice as many producers and consumers as places, my_cv_signal lets all of them fall asleep: a run
    that gets there is built out of whole turns, in which one thread falls asleep or acts and wakes another. */
module SignalStuck {
  import opened CondVar
  import opened SignalBound

  /** Some run goes from one state to the other. */
  ghost predicate Leads(s: State, s': State) {
    exists run :: IsRun(run) && run[0] == s && run[|run| - 1] == s'
  }

  lemma LeadsRefl(s: State)
    ensures Leads(s, s)
  {
    assert IsRun([s]) && [s][0] == s && [s][|[s]| - 1] == s;
  }

  lemma LeadsStep(s: State, t: nat)
    requires t < |s.threads| && Enabled(s, t)
    ensures Leads(s, Step(s, t))
  {
    hide Step, Enabled;
    var run := [s, Step(s, t)];
    assert Next(run[0], run[1]);
    assert IsRun(run) && run[0] == s && run[|run| - 1] == Step(s, t);
  }

  lemma LeadsOn(a: State, b: State, c: State)
    requires Leads(a, b) && Leads(b, c)
    ensures Leads(a, c)
  {
    hide Next;
    var p :| IsRun(p) && p[0] == a && p[|p| - 1] == b;
    var q :| IsRun(q) && q[0] == b && q[|q| - 1] == c;
    var run := p + q[1..];
    forall k | 0 <= k < |run| - 1
      ensures Next(run[k], run[k + 1])
    {
      if k >= |p| - 1 {
        assert run[k] == q[k - |p| + 1] && run[k + 1] == q[k - |p| + 2];
      }
    }
    assert IsRun(run) && run[0] == a && run[|run| - 1] == c;
  }

  // ---------------------------------------------------------------- one thread at a time

  /** Where a thread stands, and the values that all threads share. */
  datatype Spot = Spot(pc: Pc, mutex: nat, lock: nat, sleep: nat, handshake: nat, nwait: int, cnt: int)

  function Put(s: State, t: nat, x: Spot): State
    requires t < |s.threads|
  {
    Goto(s, t, x.pc).(mutex := x.mutex, lock := x.lock, sleep := x.sleep, handshake := x.handshake, nwait := x.nwait, cnt := x.cnt)
  }

  /** From spot x the next step of thread t is to spot y. */
  predicate Follows(s: State, t: nat, x: Spot, y: Spot)
    requires t < |s.threads|
  {
    var a := Put(s, t, x);
    Enabled(a, t) && Step(a, t) == Put(a, t, y)
  }

  lemma PutPut(s: State, t: nat, x: Spot, y: Spot)
    requires t < |s.threads|
    ensures Put(Put(s, t, x), t, y) == Put(s, t, y)
  {
    var a := s.threads[t := s.threads[t].(pc := x.pc)];
    assert a[t := a[t].(pc := y.pc)] == s.threads[t := s.threads[t].(pc := y.pc)];
  }

  /** A thread that steps alone goes from spot to spot. */
  lemma {:induction false} Script(s: State, t: nat, xs: seq<Spot>)
    requires t < |s.threads| && xs != []
    requires forall k :: 0 <= k < |xs| - 1 ==> Follows(s, t, xs[k], xs[k + 1])
    ensures Leads(Put(s, t, xs[0]), Put(s, t, xs[|xs| - 1]))
  {
    hide Step, Enabled, Leads;
    var a := Put(s, t, xs[0]);
    if |xs| == 1 {
      LeadsRefl(a);
    } else {
      assert Follows(s, t, xs[0], xs[1]);
      PutPut(s, t, xs[0], xs[1]);
      LeadsStep(a, t);
      Script(s, t, xs[1..]);
      LeadsOn(a, Put(s, t, xs[1]), Put(s, t, xs[|xs| - 1]));
    }
  }

  // ---------------------------------------------------------------- whole turns

  /** Between turns: nobody is in the middle of anything, and nwait counts the sleepers. */
  ghost predicate Rest(s: State) {
    && s.mutex == 1 && s.lock == 1 && s.sleep == 0 && s.handshake == 0 && s.wakeup.Signal? && 0 <= s.cnt <= s.cap
    && (forall t :: 0 <= t < |s.threads| ==> s.threads[t].pc == Outside || s.threads[t].pc == Reenter || s.threads[t].pc == Sleep)
    && s.nwait == Num(s.threads, Producer, Asleep) + Num(s.threads, Consumer, Asleep)
  }

  predicate Awake(s: State, t: nat) {
    t < |s.threads| && (s.threads[t].pc == Outside || s.threads[t].pc == Reenter)
  }

  /** The thread takes the mutex. */
  lemma Enters(s: State, t: nat)
    requires Rest(s) && Awake(s, t)
    ensures Leads(s, Put(s, t, Spot(Test, 0, 1, 0, 0, s.nwait, s.cnt)))
  {
    hide Num, Leads;
    var n, c := s.nwait, s.cnt;
    var first := Spot(s.threads[t].pc, 1, 1, 0, 0, n, c);
    assert Put(s, t, first) == s by {
      assert s.threads[t := s.threads[t].(pc := s.threads[t].pc)] == s.threads;
    }
    if s.threads[t].pc == Outside {
      Script(s, t, [first, Spot(Enter, 1, 1, 0, 0, n, c), Spot(Test, 0, 1, 0, 0, n, c)]);
    } else {
      Script(s, t, [first, Spot(Test, 0, 1, 0, 0, n, c)]);
    }
  }

  /** A thread that finds nothing to do falls asleep. */
  lemma FallsAsleep(s: State, t: nat)
    requires Rest(s) && Awake(s, t) && !Cond(s, s.threads[t].role)
    ensures Leads(s, Put(s, t, Spot(Sleep, 1, 1, 0, 0, s.nwait + 1, s.cnt)))
  {
    hide Num, Leads;
    var n, c := s.nwait, s.cnt;
    Enters(s, t);
    Script(s, t, [Spot(Test, 0, 1, 0, 0, n, c), Spot(WLock, 0, 1, 0, 0, n, c), Spot(WInc, 0, 0, 0, 0, n, c),
                  Spot(WUnlock, 0, 0, 0, 0, n + 1, c), Spot(WLeave, 0, 1, 0, 0, n + 1, c), Spot(Sleep, 1, 1, 0, 0, n + 1, c)]);
    LeadsOn(s, Put(s, t, Spot(Test, 0, 1, 0, 0, n, c)), Put(s, t, Spot(Sleep, 1, 1, 0, 0, n + 1, c)));
  }

  /** The buffer after an item is put in or taken out. */
  function Acted(s: State, r: Role): int {
    if r.Producer? then s.cnt + 1 else s.cnt - 1
  }

  /** The thread changes the buffer, and looks for sleepers. */
  lemma Acts(s: State, t: nat)
    requires Rest(s) && Awake(s, t) && Cond(s, s.threads[t].role)
    ensures Leads(s, Put(s, t, Spot(STest, 0, 0, 0, 0, s.nwait, Acted(s, s.threads[t].role))))
  {
    hide Num, Leads;
    var n, c, d := s.nwait, s.cnt, Acted(s, s.threads[t].role);
    Enters(s, t);
    Script(s, t, [Spot(Test, 0, 1, 0, 0, n, c), Spot(Act, 0, 1, 0, 0, n, c), Spot(SLock, 0, 1, 0, 0, n, d), Spot(STest, 0, 0, 0, 0, n, d)]);
    LeadsOn(s, Put(s, t, Spot(Test, 0, 1, 0, 0, n, c)), Put(s, t, Spot(STest, 0, 0, 0, 0, n, d)));
  }

  /** A thread acts while nobody sleeps. */
  lemma ActsAlone(s: State, t: nat)
    requires Rest(s) && Awake(s, t) && Cond(s, s.threads[t].role) && s.nwait == 0
    ensures Leads(s, Put(s, t, Spot(Outside, 1, 1, 0, 0, 0, Acted(s, s.threads[t].role))))
  {
    hide Num, Leads;
    var d := Acted(s, s.threads[t].role);
    Acts(s, t);
    Script(s, t, [Spot(STest, 0, 0, 0, 0, 0, d), Spot(Unlock, 0, 0, 0, 0, 0, d), Spot(Leave, 0, 1, 0, 0, 0, d), Spot(Outside, 1, 1, 0, 0, 0, d)]);
    LeadsOn(s, Put(s, t, Spot(STest, 0, 0, 0, 0, 0, d)), Put(s, t, Spot(Outside, 1, 1, 0, 0, 0, d)));
  }

  /** A thread acts and wakes the sleeper u. */
  lemma ActsWaking(s: State, t: nat, u: nat)
    requires Rest(s) && Awake(s, t) && Cond(s, s.threads[t].role) && s.nwait > 0
    requires u < |s.threads| && s.threads[u].pc == Sleep
    ensures var d := Acted(s, s.threads[t].role);
            Leads(s, Put(Put(s, u, Spot(Reenter, 1, 1, 0, 0, s.nwait - 1, d)), t, Spot(Outside, 1, 1, 0, 0, s.nwait - 1, d)))
  {
    hide Num, Leads;
    var d, n := Acted(s, s.threads[t].role), s.nwait - 1;
    Acts(s, t);
    Script(s, t, [Spot(STest, 0, 0, 0, 0, n + 1, d), Spot(SPost, 0, 0, 0, 0, n, d), Spot(SAwait, 0, 0, 1, 0, n, d)]);
    var a := Put(s, t, Spot(SAwait, 0, 0, 1, 0, n, d));
    LeadsOn(s, Put(s, t, Spot(STest, 0, 0, 0, 0, n + 1, d)), a);
    Answers(s, a, u, n, d);
    var b := Put(a, u, Spot(Reenter, 0, 0, 0, 1, n, d));
    LeadsOn(s, a, b);
    Resumes(s, b, t, n, d);
    LeadsOn(s, b, Put(b, t, Spot(Outside, 1, 1, 0, 0, n, d)));
    Swap(s, t, u, Spot(SAwait, 0, 0, 1, 0, n, d), Spot(Reenter, 0, 0, 0, 1, n, d), Spot(Outside, 1, 1, 0, 0, n, d), Spot(Reenter, 1, 1, 0, 0, n, d));
  }

  /** The sleeper takes the wakeup and answers it. */
  lemma Answers(s: State, a: State, u: nat, n: int, d: int)
    requires u < |a.threads| && a.threads[u].pc == Sleep
    requires a.mutex == 0 && a.lock == 0 && a.sleep == 1 && a.handshake == 0 && a.nwait == n && a.cnt == d
    ensures Leads(a, Put(a, u, Spot(Reenter, 0, 0, 0, 1, n, d)))
  {
    hide Leads;
    var first := Spot(Sleep, 0, 0, 1, 0, n, d);
    assert Put(a, u, first) == a by {
      assert a.threads[u := a.threads[u].(pc := Sleep)] == a.threads;
    }
    Script(a, u, [first, Spot(Shake, 0, 0, 0, 0, n, d), Spot(Reenter, 0, 0, 0, 1, n, d)]);
  }

  /** The signaller takes the answer and leaves. */
  lemma Resumes(s: State, b: State, t: nat, n: int, d: int)
    requires t < |b.threads| && b.threads[t].pc == SAwait
    requires b.mutex == 0 && b.lock == 0 && b.sleep == 0 && b.handshake == 1 && b.nwait == n && b.cnt == d
    ensures Leads(b, Put(b, t, Spot(Outside, 1, 1, 0, 0, n, d)))
  {
    hide Leads;
    var first := Spot(SAwait, 0, 0, 0, 1, n, d);
    assert Put(b, t, first) == b by {
      assert b.threads[t := b.threads[t].(pc := SAwait)] == b.threads;
    }
    Script(b, t, [first, Spot(Unlock, 0, 0, 0, 0, n, d), Spot(Leave, 0, 1, 0, 0, n, d), Spot(Outside, 1, 1, 0, 0, n, d)]);
  }

  lemma Swap(s: State, t: nat, u: nat, x: Spot, y: Spot, z: Spot, w: Spot)
    requires t < |s.threads| && u < |s.threads| && t != u && y.pc == w.pc
    ensures Put(Put(Put(s, t, x), u, y), t, z) == Put(Put(s, u, w), t, z)
  {
    assert Put(Put(Put(s, t, x), u, y), t, z).threads == Put(Put(s, u, w), t, z).threads;
  }

  // ---------------------------------------------------------------- turns by numbers

  function Sleepers(s: State, r: Role): nat {
    Num(s.threads, r, Asleep)
  }

  function Size(s: State, r: Role): nat {
    Num(s.threads, r, Any)
  }

  /** A later state between turns, of the same threads. */
  ghost predicate Later(s: State, s': State) {
    && Leads(s, s') && Rest(s') && s'.cap == s.cap
    && Size(s', Producer) == Size(s, Producer) && Size(s', Consumer) == Size(s, Consumer)
  }

  lemma LaterOn(a: State, b: State, c: State)
    requires Later(a, b) && Later(b, c)
    ensures Later(a, c)
  {
    hide Leads, Rest;
    LeadsOn(a, b, c);
  }

  lemma LaterRefl(s: State)
    requires Rest(s)
    ensures Later(s, s)
  {
    hide Leads, Rest;
    LeadsRefl(s);
  }

  /** How moving one thread changes the numbers. */
  lemma NumPut(s: State, t: nat, x: Spot)
    requires t < |s.threads|
    ensures forall r :: Size(Put(s, t, x), r) == Size(s, r)
    ensures forall r :: Sleepers(Put(s, t, x), r) == Sleepers(s, r)
              - (if s.threads[t].role == r && s.threads[t].pc == Sleep then 1 else 0)
              + (if s.threads[t].role == r && x.pc == Sleep then 1 else 0)
  {
    hide Num;
    var th := s.threads[t].(pc := x.pc);
    forall r
      ensures Size(Put(s, t, x), r) == Size(s, r)
      ensures Sleepers(Put(s, t, x), r) == Sleepers(s, r)
              - (if s.threads[t].role == r && s.threads[t].pc == Sleep then 1 else 0)
              + (if s.threads[t].role == r && x.pc == Sleep then 1 else 0)
    {
      NumUpdate(s.threads, t, th, r, Any);
      NumUpdate(s.threads, t, th, r, Asleep);
    }
  }

  lemma SomeAwake(s: State, r: Role) returns (t: nat)
    requires Rest(s) && Sleepers(s, r) < Size(s, r)
    ensures Awake(s, t) && s.threads[t].role == r
  {
    hide Num;
    t := NumOther(s.threads, r, Asleep);
  }

  /** One more thread of role r, with nothing to do, sleeps. */
  lemma SleepOne(s: State, r: Role) returns (s': State)
    requires Rest(s) && Level(s, r) == 0 && Sleepers(s, r) < Size(s, r)
    ensures Later(s, s') && s'.cnt == s.cnt
    ensures Sleepers(s', r) == Sleepers(s, r) + 1 && Sleepers(s', Other(r)) == Sleepers(s, Other(r))
  {
    hide Num, Leads;
    var t := SomeAwake(s, r);
    var x := Spot(Sleep, 1, 1, 0, 0, s.nwait + 1, s.cnt);
    s' := Put(s, t, x);
    FallsAsleep(s, t);
    NumPut(s, t, x);
    assert s'.nwait == Sleepers(s', Producer) + Sleepers(s', Consumer);
  }

  /** All threads of role r, with nothing to do, sleep. */
  lemma {:induction false} SleepAll(s: State, r: Role) returns (s': State)
    requires Rest(s) && Level(s, r) == 0
    ensures Later(s, s') && s'.cnt == s.cnt
    ensures Sleepers(s', r) == Size(s, r) && Sleepers(s', Other(r)) == Sleepers(s, Other(r))
    decreases Size(s, r) - Sleepers(s, r)
  {
    hide Num, Leads, Rest;
    NumAtMost(s.threads, r, Asleep);
    if Sleepers(s, r) == Size(s, r) {
      LaterRefl(s);
      s' := s;
    } else {
      var a := SleepOne(s, r);
      s' := SleepAll(a, r);
      LaterOn(s, a, s');
    }
  }

  /** A thread of role r acts and wakes a sleeper of role w. */
  lemma ActOne(s: State, r: Role, w: Role) returns (s': State)
    requires Rest(s) && Level(s, r) > 0 && Sleepers(s, r) < Size(s, r) && Sleepers(s, w) > 0
    ensures Later(s, s') && Level(s', r) == Level(s, r) - 1
    ensures Sleepers(s', w) == Sleepers(s, w) - 1 && Sleepers(s', Other(w)) == Sleepers(s, Other(w))
  {
    hide Num, Leads;
    var t := SomeAwake(s, r);
    var u := NumSome(s.threads, w, Asleep);
    var d := Acted(s, r);
    var x, y := Spot(Reenter, 1, 1, 0, 0, s.nwait - 1, d), Spot(Outside, 1, 1, 0, 0, s.nwait - 1, d);
    s' := Put(Put(s, u, x), t, y);
    ActsWaking(s, t, u);
    NumPut(s, u, x);
    NumPut(Put(s, u, x), t, y);
    assert s'.nwait == Sleepers(s', Producer) + Sleepers(s', Consumer);
  }

  /** A thread of role r acts while nobody sleeps. */
  lemma ActFree(s: State, r: Role) returns (s': State)
    requires Rest(s) && Level(s, r) > 0 && Size(s, r) > 0 && Sleepers(s, r) == 0 == Sleepers(s, Other(r))
    ensures Later(s, s') && Level(s', r) == Level(s, r) - 1
    ensures Sleepers(s', r) == 0 == Sleepers(s', Other(r))
  {
    hide Num, Leads;
    var t := SomeAwake(s, r);
    var y := Spot(Outside, 1, 1, 0, 0, 0, Acted(s, r));
    s' := Put(s, t, y);
    ActsAlone(s, t);
    NumPut(s, t, y);
  }

  /** Threads of role r act as long as they can, waking their own kind first. */
  lemma {:induction false} Drive(s: State, r: Role) returns (s': State)
    requires Rest(s) && Sleepers(s, r) < Size(s, r)
    ensures Later(s, s') && Level(s', r) == 0
    ensures Sleepers(s', r) == Pos(Sleepers(s, r) - Level(s, r))
    ensures Sleepers(s', Other(r)) == Pos(Sleepers(s, Other(r)) - Pos(Level(s, r) - Sleepers(s, r)))
    decreases Level(s, r)
  {
    hide Num, Leads;
    if Level(s, r) == 0 {
      LaterRefl(s);
      s' := s;
    } else {
      var a;
      if Sleepers(s, r) > 0 {
        a := ActOne(s, r, r);
      } else if Sleepers(s, Other(r)) > 0 {
        a := ActOne(s, r, Other(r));
      } else {
        a := ActFree(s, r);
      }
      s' := Drive(a, r);
      LaterOn(s, a, s');
    }
  }

  // ---------------------------------------------------------------- the run that gets stuck

  /** Nothing is left for the other role, all of which sleeps, and somebody of role r is awake. */
  ghost predicate Turned(s: State, r: Role) {
    && Rest(s) && Level(s, Other(r)) == 0
    && Sleepers(s, Other(r)) == Size(s, Other(r)) && Sleepers(s, r) < Size(s, r)
  }

  /** Role r acts as long as it can and falls asleep: everybody sleeps if enough of role r slept before, and if not
      it is the other role's turn, of which so many still sleep as are more than the wakeups left over for it. */
  lemma Turn(s: State, r: Role) returns (s': State)
    requires Turned(s, r) && Size(s, Other(r)) > 0
    ensures Later(s, s') && Level(s', r) == 0 && Sleepers(s', r) == Size(s, r)
    ensures Sleepers(s', Other(r)) == Pos(Size(s, Other(r)) - Pos(s.cap - Sleepers(s, r)))
    ensures Sleepers(s, r) < s.cap ==> Turned(s', Other(r))
  {
    hide Num, Leads;
    var a := Drive(s, r);
    s' := SleepAll(a, r);
    LaterOn(s, a, s');
  }

  /** With everybody asleep nobody can step. */
  lemma AsleepStuck(s: State)
    requires Rest(s) && Sleepers(s, Producer) == Size(s, Producer) && Sleepers(s, Consumer) == Size(s, Consumer)
    ensures Stuck(s)
  {
    hide Num;
    forall t | 0 <= t < |s.threads|
      ensures !Enabled(s, t)
    {
      NumAtMost(s.threads, s.threads[t].role, Asleep);
      assert Is(s.threads[t], s.threads[t].role, Asleep);
    }
  }

  /** Turn after turn more of them stay asleep, until everybody does. */
  lemma {:induction false} TurnsStick(s: State, r: Role) returns (s': State)
    requires Turned(s, r) && Size(s, Other(r)) > 0 && Size(s, r) + Size(s, Other(r)) > 2 * s.cap
    ensures Leads(s, s') && Stuck(s')
    decreases Pos(s.cap - Sleepers(s, r))
  {
    hide Num, Leads, Stuck, Rest;
    var a := Turn(s, r);
    if Sleepers(s, r) >= s.cap {
      AsleepStuck(a);
      s' := a;
    } else {
      var b := Turn(a, Other(r));
      LaterOn(s, a, b);
      if Sleepers(a, Other(r)) >= s.cap {
        AsleepStuck(b);
        s' := b;
      } else {
        s' := TurnsStick(b, r);
        LeadsOn(s, b, s');
      }
    }
  }

  /** With more threads than twice the places, signalling can leave everybody asleep. */
  lemma SignalSticks(s: State) returns (s': State)
    requires Init(s) && s.wakeup.Signal? && Size(s, Producer) + Size(s, Consumer) > 2 * s.cap
    ensures Leads(s, s') && Stuck(s')
  {
    hide Num, Leads, Stuck;
    NumNone(s.threads, Producer, Asleep);
    NumNone(s.threads, Consumer, Asleep);
    SomeOfBoth(s);
    var a := SleepAll(s, Consumer);
    s' := TurnsStick(a, Producer);
    LeadsOn(s, a, s');
  }

  /** my_cv_signal can leave everybody asleep exactly if there are more than twice as many threads as places. */
  lemma SignalExact(s: State)
    requires Init(s) && s.wakeup.Signal?
    ensures (exists s' :: Leads(s, s') && Stuck(s')) <==> Size(s, Producer) + Size(s, Consumer) > 2 * s.cap
  {
    hide Num, Init;
    if Size(s, Producer) + Size(s, Consumer) > 2 * s.cap {
      var s' := SignalSticks(s);
    } else if exists s' :: Leads(s, s') && Stuck(s') {
      var s' :| Leads(s, s') && Stuck(s');
      var run :| IsRun(run) && run[0] == s && run[|run| - 1] == s';
      SignalSafe(run, |run| - 1);
      assert false;
    }
  }
}
