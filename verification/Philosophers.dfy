/** The dining philosophers of user/src/phase4/philosopher.c, for any number N of them: one semaphore a fork, and a
    room semaphore that lets in N - 1. A step is one semaphore operation, or the end of thinking or eating. */
module Philosophers {

  datatype Pc =
    | Thinking
    | AtDoor     // P(room)
    | AtLeft     // P(fork[id])
    | AtRight    // P(fork[(id + 1) % N])
    | Eating
    | PutRight   // V(fork[(id + 1) % N])
    | PutLeft    // V(fork[id])
    | Leaving    // V(room)

  datatype State = State(pcs: seq<Pc>, forks: seq<nat>, room: nat)

  function Next(id: nat, n: nat): nat
    requires id < n
  {
    (id + 1) % n
  }

  ghost predicate Init(s: State, n: nat) {
    && |s.pcs| == n && |s.forks| == n && n >= 1
    && (forall i :: 0 <= i < n ==> s.pcs[i] == Thinking && s.forks[i] == 1)
    && s.room == n - 1
  }

  predicate Enabled(s: State, id: nat)
    requires id < |s.pcs| == |s.forks|
  {
    match s.pcs[id]
    case AtDoor => s.room > 0
    case AtLeft => s.forks[id] > 0
    case AtRight => s.forks[Next(id, |s.pcs|)] > 0
    case _ => true
  }

  function Step(s: State, id: nat): (s': State)
    requires id < |s.pcs| == |s.forks| && Enabled(s, id)
    ensures |s'.pcs| == |s.pcs| == |s'.forks|
  {
    var l, r := id, Next(id, |s.pcs|);
    match s.pcs[id]
    case Thinking => s.(pcs := s.pcs[id := AtDoor])
    case AtDoor => s.(pcs := s.pcs[id := AtLeft], room := s.room - 1)
    case AtLeft => s.(pcs := s.pcs[id := AtRight], forks := s.forks[l := s.forks[l] - 1])
    case AtRight => s.(pcs := s.pcs[id := Eating], forks := s.forks[r := s.forks[r] - 1])
    case Eating => s.(pcs := s.pcs[id := PutRight])
    case PutRight => s.(pcs := s.pcs[id := PutLeft], forks := s.forks[r := s.forks[r] + 1])
    case PutLeft => s.(pcs := s.pcs[id := Leaving], forks := s.forks[l := s.forks[l] + 1])
    case Leaving => s.(pcs := s.pcs[id := Thinking], room := s.room + 1)
  }

  /** Consecutive states of N philosophers from the start, whoever steps when. */
  ghost predicate IsRun(run: seq<State>, n: nat) {
    && run != [] && Init(run[0], n)
    && forall k :: 0 <= k < |run| - 1 ==> Steps(run[k], run[k + 1])
  }

  ghost predicate Steps(s: State, s': State) {
    |s.pcs| == |s.forks| && exists id :: 0 <= id < |s.pcs| && Enabled(s, id) && s' == Step(s, id)
  }

  // ---------------------------------------------------------------- the invariant

  function HasLeft(pc: Pc): nat {
    if pc.AtRight? || pc.Eating? || pc.PutRight? || pc.PutLeft? then 1 else 0
  }

  function HasRight(pc: Pc): nat {
    if pc.Eating? || pc.PutRight? then 1 else 0
  }

  function Inside(pc: Pc): nat {
    if pc.Thinking? || pc.AtDoor? then 0 else 1
  }

  function CountInside(pcs: seq<Pc>): nat {
    if pcs == [] then 0 else Inside(pcs[0]) + CountInside(pcs[1..])
  }

  /** Every fork is on the table or in one hand, and N - 1 at most are in the room. */
  ghost predicate Inv(s: State, n: nat) {
    && |s.pcs| == |s.forks| == n >= 1
    && (forall i :: 0 <= i < n ==> ForkOk(s, i))
    && s.room + CountInside(s.pcs) == n - 1
  }

  /** Fork Next(i), between philosophers i and Next(i). */
  ghost predicate ForkOk(s: State, i: nat)
    requires i < |s.pcs| == |s.forks|
  {
    var r := Next(i, |s.pcs|);
    s.forks[r] + HasRight(s.pcs[i]) + HasLeft(s.pcs[r]) == 1
  }

  lemma {:induction false} CountUpdate(pcs: seq<Pc>, id: nat, pc: Pc)
    requires id < |pcs|
    ensures CountInside(pcs[id := pc]) == CountInside(pcs) - Inside(pcs[id]) + Inside(pc)
  {
    if id == 0 {
      assert pcs[id := pc][1..] == pcs[1..];
    } else {
      CountUpdate(pcs[1..], id - 1, pc);
      assert pcs[id := pc][1..] == pcs[1..][id - 1 := pc];
    }
  }

  lemma {:induction false} CountExtremes(pcs: seq<Pc>)
    ensures (forall i :: 0 <= i < |pcs| ==> Inside(pcs[i]) == 1) ==> CountInside(pcs) == |pcs|
    ensures (forall i :: 0 <= i < |pcs| ==> Inside(pcs[i]) == 0) ==> CountInside(pcs) == 0
  {
    if pcs != [] {
      CountExtremes(pcs[1..]);
    }
  }

  /** The neighbour on the right is another for another philosopher, and, with two or more of them, not oneself. */
  lemma NextInjective(i: nat, j: nat, n: nat)
    requires i < n && j < n
    ensures Next(i, n) == Next(j, n) <==> i == j
    ensures n >= 2 ==> Next(i, n) != i
    ensures Next(i, n) == if i == n - 1 then 0 else i + 1
  {
  }

  lemma InitInv(s: State, n: nat)
    requires Init(s, n)
    ensures Inv(s, n)
  {
    CountExtremes(s.pcs);
  }

  lemma StepInv(s: State, id: nat, n: nat)
    requires Inv(s, n) && id < n && Enabled(s, id)
    ensures Inv(Step(s, id), n)
  {
    var s' := Step(s, id);
    CountUpdate(s.pcs, id, s'.pcs[id]);
    forall i | 0 <= i < n
      ensures ForkOk(s', i)
    {
      assert ForkOk(s, i) && ForkOk(s, id);
      NextInjective(i, id, n);
    }
  }

  lemma {:induction false} RunInv(run: seq<State>, n: nat, k: nat)
    requires IsRun(run, n) && k < |run|
    ensures Inv(run[k], n)
  {
    hide Inv, Step, Enabled, Init;
    if k == 0 {
      InitInv(run[0], n);
    } else {
      RunInv(run, n, k - 1);
      Sizes(run[k - 1], n);
      assert Steps(run[k - 1], run[k]);
      var id :| 0 <= id < |run[k - 1].pcs| && Enabled(run[k - 1], id) && run[k] == Step(run[k - 1], id);
      StepInv(run[k - 1], id, n);
    }
  }

  lemma Sizes(s: State, n: nat)
    requires Inv(s, n)
    ensures |s.pcs| == |s.forks| == n
  {
  }

  // ---------------------------------------------------------------- what holds in every run

  /** No two neighbours ever eat at once. */
  lemma NeighboursExclude(run: seq<State>, n: nat, k: nat, i: nat)
    requires IsRun(run, n) && n >= 2 && k < |run| && i < n
    ensures |run[k].pcs| == n
    ensures !(run[k].pcs[i].Eating? && run[k].pcs[Next(i, n)].Eating?)
  {
    RunInv(run, n, k);
    assert ForkOk(run[k], i);
    NextInjective(i, i, n);
  }

  /** If nobody could step, everybody inside would wait for the right fork, held as a left fork by the next. */
  lemma {:induction false} AllInside(s: State, n: nat, i: nat, j: nat)
    requires Inv(s, n) && n >= 2 && i <= j < n
    requires forall id :: 0 <= id < n ==> !Enabled(s, id)
    requires s.pcs[i].AtRight?
    ensures s.pcs[j].AtRight?
    decreases j - i
  {
    if i < j {
      NextAtRight(s, n, i);
      NextInjective(i, i, n);
      AllInside(s, n, i + 1, j);
    }
  }

  lemma NextAtRight(s: State, n: nat, i: nat)
    requires Inv(s, n) && n >= 2 && i < n
    requires forall id :: 0 <= id < n ==> !Enabled(s, id)
    requires s.pcs[i].AtRight?
    ensures s.pcs[Next(i, n)].AtRight?
  {
    assert ForkOk(s, i);
    assert !Enabled(s, i) && !Enabled(s, Next(i, n));
  }

  lemma Prev(i: nat, n: nat) returns (p: nat)
    requires i < n
    ensures p < n && Next(p, n) == i
  {
    p := if i == 0 then n - 1 else i - 1;
  }

  /** With two philosophers or more, no state that can be reached is deadlocked. */
  lemma NoDeadlock(run: seq<State>, n: nat, k: nat)
    requires IsRun(run, n) && n >= 2 && k < |run|
    ensures |run[k].pcs| == |run[k].forks| == n
    ensures exists id :: 0 <= id < n && Enabled(run[k], id)
  {
    RunInv(run, n, k);
    var s := run[k];
    var first := Enabled(s, 0);
    if forall id :: 0 <= id < n ==> !Enabled(s, id) {
      if i :| 0 <= i < n && Inside(s.pcs[i]) == 1 {
        var r := SomeAtRight(s, n, i);
        EverybodyInside(s, n, r);
      } else {
        CountExtremes(s.pcs);
      }
    }
  }

  lemma SomeAtRight(s: State, n: nat, i: nat) returns (r: nat)
    requires Inv(s, n) && n >= 2 && i < n && Inside(s.pcs[i]) == 1
    requires forall id :: 0 <= id < n ==> !Enabled(s, id)
    ensures r < n && s.pcs[r].AtRight?
  {
    assert !Enabled(s, i);
    r := i;
    if s.pcs[i].AtLeft? {
      r := Prev(i, n);
      assert ForkOk(s, r) && !Enabled(s, r);
    }
  }

  lemma EverybodyInside(s: State, n: nat, r: nat)
    requires Inv(s, n) && n >= 2 && r < n && s.pcs[r].AtRight?
    requires forall id :: 0 <= id < n ==> !Enabled(s, id)
    ensures CountInside(s.pcs) == n
  {
    AllInside(s, n, r, n - 1);
    NextAtRight(s, n, n - 1);
    NextInjective(n - 1, n - 1, n);
    forall j | 0 <= j < n
      ensures Inside(s.pcs[j]) == 1
    {
      AllInside(s, n, 0, j);
    }
    CountExtremes(s.pcs);
  }

  /** A single philosopher is shut out of a room for none: the condition on N is needed. */
  lemma AloneIsStuck() returns (run: seq<State>)
    ensures IsRun(run, 1) && |run| == 2
    ensures |run[1].pcs| == |run[1].forks| == 1 && !Enabled(run[1], 0)
  {
    var s := State([Thinking], [1], 0);
    assert Enabled(s, 0);
    run := [s, Step(s, 0)];
    assert Steps(run[0], run[1]);
  }
}
