/** The wait lists (kernel/klib/list.c): circular doubly linked lists whose nodes all come from one pool of 256. */
module WaitList {
  import opened Options

  const LIST_NUM := 256

  // ---------------------------------------------------------------- rings

  /** The place after place i of a ring of n. */
  function After(i: nat, n: nat): (j: nat)
    requires i < n
    ensures j < n
  {
    if i + 1 == n then 0 else i + 1
  }

  /** `c` is a ring: following next from each node gives the following one, and following prev leads back. */
  ghost predicate Ring(c: seq<nat>, next: seq<nat>, prev: seq<nat>) {
    && |c| > 0 && |prev| == |next|
    && (forall i :: 0 <= i < |c| ==> c[i] < |next|)
    && (forall i :: 0 <= i < |c| ==> next[c[i]] == c[After(i, |c|)])
    && (forall i :: 0 <= i < |c| ==> prev[c[After(i, |c|)]] == c[i])
  }

  ghost predicate Rings(cs: seq<seq<nat>>, next: seq<nat>, prev: seq<nat>) {
    forall k :: 0 <= k < |cs| ==> Ring(cs[k], next, prev)
  }

  /** No node is in two places. */
  ghost predicate Apart(cs: seq<seq<nat>>) {
    forall k, i, l, j :: 0 <= k < |cs| && 0 <= i < |cs[k]| && 0 <= l < |cs| && 0 <= j < |cs[l]| && cs[k][i] == cs[l][j] ==>
      k == l && i == j
  }

  ghost predicate Loose(x: nat, cs: seq<seq<nat>>) {
    forall k, i :: 0 <= k < |cs| && 0 <= i < |cs[k]| ==> cs[k][i] != x
  }

  /** The ring with x put after its head. */
  function WithNext(c: seq<nat>, x: nat): (r: seq<nat>)
    requires |c| > 0
    ensures |r| == |c| + 1 && r[0] == c[0] && r[1] == x && forall i :: 2 <= i < |r| ==> r[i] == c[i - 1]
  {
    [c[0], x] + c[1..]
  }

  lemma AddNextRing(c: seq<nat>, x: nat, next: seq<nat>, prev: seq<nat>)
    requires Ring(c, next, prev) && x < |next| && x !in c
    requires forall i, j :: 0 <= i < j < |c| ==> c[i] != c[j]
    ensures var h := c[0]; Ring(WithNext(c, x), next[x := next[h]][h := x], prev[x := h][next[h] := x])
  {
    var h := c[0];
    var r, next', prev' := WithNext(c, x), next[x := next[h]][h := x], prev[x := h][next[h] := x];
    assert next[h] == c[After(0, |c|)];
    forall i | 0 <= i < |r|
      ensures next'[r[i]] == r[After(i, |r|)] && prev'[r[After(i, |r|)]] == r[i]
    {
      if i >= 2 {
        assert next[c[i - 1]] == c[After(i - 1, |c|)] && prev[c[After(i - 1, |c|)]] == c[i - 1];
      }
    }
  }

  lemma AddNextOther(c: seq<nat>, h: nat, x: nat, next: seq<nat>, prev: seq<nat>)
    requires Ring(c, next, prev) && x < |next| && h < |next| && next[h] < |next| && x !in c && h !in c && next[h] !in c
    ensures Ring(c, next[x := next[h]][h := x], prev[x := h][next[h] := x])
  {
  }

  /** list_add_next keeps every ring, and puts x after the head of ring k. */
  lemma AddNextKeeps(cs: seq<seq<nat>>, k: nat, x: nat, next: seq<nat>, prev: seq<nat>)
    requires Rings(cs, next, prev) && Apart(cs) && k < |cs| && x < |next| && Loose(x, cs)
    ensures Ring(cs[k], next, prev)
    ensures var h := cs[k][0];
            next[h] < |prev| && Rings(cs[k := WithNext(cs[k], x)], next[x := next[h]][h := x], prev[x := h][next[h] := x])
    ensures Apart(cs[k := WithNext(cs[k], x)])
  {
    var c := cs[k];
    var h := c[0];
    var cs' := cs[k := WithNext(c, x)];
    assert Ring(c, next, prev);
    assert next[c[0]] == c[After(0, |c|)];
    AddNextRing(c, x, next, prev);
    forall l | 0 <= l < |cs'|
      ensures Ring(cs'[l], next[x := next[h]][h := x], prev[x := h][next[h] := x])
    {
      if l != k {
        assert Ring(cs[l], next, prev);
        AddNextOther(cs[l], h, x, next, prev);
      }
    }
    forall l, i, m, j | 0 <= l < |cs'| && 0 <= i < |cs'[l]| && 0 <= m < |cs'| && 0 <= j < |cs'[m]| && cs'[l][i] == cs'[m][j]
      ensures l == m && i == j
    {
      assert l == k && i >= 2 ==> cs'[l][i] == c[i - 1];
      assert m == k && j >= 2 ==> cs'[m][j] == c[j - 1];
    }
  }

  lemma RemoveLastRing(c: seq<nat>, next: seq<nat>, prev: seq<nat>)
    requires Ring(c, next, prev) && |c| > 1
    requires forall i, j :: 0 <= i < j < |c| ==> c[i] != c[j]
    ensures var x := c[|c| - 1];
            && prev[c[0]] == x && prev[x] < |next| && next[x] == c[0]
            && Ring(c[..|c| - 1], next[prev[x] := next[x]], prev[next[x] := prev[x]])
  {
    var n := |c| - 1;
    assert prev[c[After(n, |c|)]] == c[n];
    assert prev[c[After(n - 1, |c|)]] == c[n - 1];
    var r, next', prev' := c[..n], next[prev[c[n]] := next[c[n]]], prev[next[c[n]] := prev[c[n]]];
    forall i | 0 <= i < |r|
      ensures next'[r[i]] == r[After(i, |r|)] && prev'[r[After(i, |r|)]] == r[i]
    {
      assert next[c[i]] == c[After(i, |c|)] && prev[c[After(i, |c|)]] == c[i];
    }
  }

  /** list_remove_prev keeps every ring, and takes the node before the head of ring k, the last one, out of it. */
  lemma RemovePrevKeeps(cs: seq<seq<nat>>, k: nat, next: seq<nat>, prev: seq<nat>)
    requires Rings(cs, next, prev) && Apart(cs) && k < |cs| && |cs[k]| > 1
    ensures Ring(cs[k], next, prev)
    ensures var n := |cs[k]| - 1;
            var x := cs[k][n];
            && prev[cs[k][0]] == x && prev[x] < |next| && next[x] < |next|
            && Rings(cs[k := cs[k][..n]], next[prev[x] := next[x]], prev[next[x] := prev[x]])
            && Apart(cs[k := cs[k][..n]]) && Loose(x, cs[k := cs[k][..n]])
  {
    var c := cs[k];
    var n := |c| - 1;
    var x := c[n];
    assert Ring(c, next, prev);
    RemoveLastRing(c, next, prev);
    assert prev[c[After(n - 1, |c|)]] == c[n - 1];
    var cs' := cs[k := c[..n]];
    forall l | 0 <= l < |cs'|
      ensures Ring(cs'[l], next[prev[x] := next[x]], prev[next[x] := prev[x]])
    {
      assert Ring(cs[l], next, prev);
    }
  }

  // ---------------------------------------------------------------- counting

  function Total(cs: seq<seq<nat>>): nat {
    if cs == [] then 0 else |cs[0]| + Total(cs[1..])
  }

  lemma {:induction false} TotalUpdate(cs: seq<seq<nat>>, k: nat, c: seq<nat>)
    requires k < |cs|
    ensures Total(cs[k := c]) == Total(cs) - |cs[k]| + |c|
  {
    if k == 0 {
      assert cs[k := c][1..] == cs[1..];
    } else {
      TotalUpdate(cs[1..], k - 1, c);
      assert cs[k := c][1..] == cs[1..][k - 1 := c];
    }
  }

  lemma {:induction false} HeadsTotal(cs: seq<seq<nat>>)
    requires forall k :: 0 <= k < |cs| ==> |cs[k]| == 1
    ensures Total(cs) == |cs|
  {
    if cs != [] {
      HeadsTotal(cs[1..]);
    }
  }

  lemma Heads(cs: seq<seq<nat>>, next: seq<nat>, prev: seq<nat>)
    requires |cs| > 0 && |next| == |prev| == LIST_NUM + |cs|
    requires forall k :: 0 <= k < |cs| ==> cs[k] == [LIST_NUM + k]
    requires forall i :: 0 <= i < |next| ==> next[i] == i && prev[i] == i
    ensures Layout(cs) && Rings(cs, next, prev)
  {
  }

  /** What a ring holds, the first to come first: the head's prev end is the front. */
  function QueueOf(c: seq<nat>, ptr: seq<nat>): (q: seq<nat>)
    requires |c| > 0 && forall i :: 0 <= i < |c| ==> c[i] < |ptr|
    ensures |q| == |c| - 1 && forall i :: 0 <= i < |q| ==> q[i] == ptr[c[|c| - 1 - i]]
  {
    seq(|c| - 1, i requires 0 <= i < |c| - 1 => ptr[c[|c| - 1 - i]])
  }

  /** The lists of a kernel: number 0 is the free list, the others belong to semaphores. */
  ghost predicate Layout(rings: seq<seq<nat>>) {
    && |rings| > 0
    && (forall k :: 0 <= k < |rings| ==> |rings[k]| > 0 && rings[k][0] == LIST_NUM + k)
    && (forall k, i :: 0 <= k < |rings| && 1 <= i < |rings[k]| ==> rings[k][i] < LIST_NUM)
    && Apart(rings)
  }

  class WaitLists {
    const prev: array<nat>
    const next: array<nat>
    const ptr: array<nat>
    ghost var rings: seq<seq<nat>>

    ghost predicate Linked()
      reads this, prev, next, ptr
    {
      && prev != next && prev != ptr && next != ptr
      && Layout(rings) && Rings(rings, next[..], prev[..])
      && next.Length == prev.Length == ptr.Length == LIST_NUM + |rings|
    }

    /** Every node of the pool is in exactly one list. */
    ghost predicate Valid()
      reads this, prev, next, ptr
    {
      Linked() && Total(rings) == LIST_NUM + |rings|
    }

    ghost predicate IsList(k: nat)
      reads this
    {
      0 < k < |rings|
    }

    ghost function Queue(k: nat): (q: seq<nat>)
      requires Linked() && k < |rings|
      reads this, prev, next, ptr
    {
      assert Ring(rings[k], next[..], prev[..]);
      QueueOf(rings[k], ptr[..])
    }

    /** The first list_init sets up the free list with the whole pool; each list of n semaphores is then empty. */
    constructor (n: nat)
      ensures Valid() && |rings| == n + 1 && InUse() == 0
      ensures forall k :: 0 < k <= n ==> Queue(k) == []
      ensures fresh(prev) && fresh(next) && fresh(ptr)
    {
      prev := new nat[LIST_NUM + n + 1](i => i);
      next := new nat[LIST_NUM + n + 1](i => i);
      ptr := new nat[LIST_NUM + n + 1](i => 0);
      ghost var heads: seq<seq<nat>> := seq(n + 1, k requires 0 <= k < n + 1 => [LIST_NUM + k]);
      rings := heads;
      new;
      Heads(heads, next[..], prev[..]);
      InitPool();
    }

    /** init_list: every node of the pool goes to the free list. */
    method InitPool()
      requires Linked() && forall k :: 0 <= k < |rings| ==> |rings[k]| == 1
      modifies prev, next, `rings
      ensures Valid() && |rings| == |old(rings)| && InUse() == 0
      ensures forall k :: 0 < k < |rings| ==> rings[k] == old(rings)[k]
    {
      hide Ring, Rings, Total;
      ghost var heads := rings;
      HeadsTotal(rings);
      HeadsTotal(rings[1..]);
      var i := 0;
      while i < LIST_NUM
        invariant 0 <= i <= LIST_NUM && Linked() && rings == heads[0 := rings[0]]
        invariant |rings[0]| == i + 1 && forall j :: 1 <= j < |rings[0]| ==> rings[0][j] < i
      {
        AddNext(0, i);
        i := i + 1;
      }
      TotalUpdate(heads, 0, rings[0]);
      assert rings[1..] == heads[1..];
    }

    /** list_add_next, of a node in no list. */
    method AddNext(k: nat, x: nat)
      requires Linked() && k < |rings| && x < LIST_NUM && Loose(x, rings)
      modifies prev, next, `rings
      ensures Linked() && rings == old(rings)[k := WithNext(old(rings)[k], x)]
    {
      ghost var p0: seq<nat>, n0: seq<nat> := prev[..], next[..];
      AddNextKeeps(rings, k, x, next[..], prev[..]);
      var list: nat := LIST_NUM + k;
      prev[x] := list;
      next[x] := next[list];
      next[prev[x]] := x;
      prev[next[x]] := x;
      rings := rings[k := WithNext(rings[k], x)];
      assert next[..] == n0[x := n0[list]][list := x] && prev[..] == p0[x := list][n0[list] := x];
    }

    /** list_remove_prev */
    method RemovePrev(k: nat) returns (x: nat)
      requires Linked() && k < |rings| && |rings[k]| > 1
      modifies prev, next, `rings
      ensures var c := old(rings)[k];
              x == c[|c| - 1] && x < LIST_NUM && rings == old(rings)[k := c[..|c| - 1]] && Loose(x, rings)
      ensures Linked()
    {
      ghost var p0: seq<nat>, n0: seq<nat> := prev[..], next[..];
      RemovePrevKeeps(rings, k, next[..], prev[..]);
      x := prev[LIST_NUM + k];
      next[prev[x]] := next[x];
      prev[next[x]] := prev[x];
      rings := rings[k := rings[k][..|rings[k]| - 1]];
      assert next[..] == n0[p0[x] := n0[x]] && prev[..] == p0[n0[x] := p0[x]];
    }

    /** How many nodes the semaphores' lists have in use. */
    ghost function InUse(): int
      requires Valid()
      reads this, prev, next, ptr
    {
      Total(rings[1..]) - (|rings| - 1)
    }

    /** Nodes are conserved: a node not in use is in the free list. */
    lemma Conserved()
      requires Valid()
      ensures |rings[0]| - 1 == LIST_NUM - InUse()
    {
    }

    /** list_empty */
    method Empty(k: nat) returns (r: bool)
      requires Valid() && k < |rings|
      ensures r <==> Queue(k) == []
    {
      r := LIST_NUM + k == next[LIST_NUM + k];
      assert Ring(rings[k], next[..], prev[..]);
      assert next[..][rings[k][0]] == rings[k][After(0, |rings[k]|)];
      assert |rings[k]| > 1 ==> rings[k][1] < LIST_NUM;
    }

    /** list_init of a list that is empty already; one with waiters would lose their nodes. */
    method Init(k: nat)
      requires Valid() && IsList(k) && Queue(k) == []
      modifies prev, next
      ensures Valid() && rings == old(rings)
      ensures forall l :: 0 <= l < |rings| ==> Queue(l) == old(Queue(l))
    {
      ghost var p0, n0 := prev[..], next[..];
      var list := LIST_NUM + k;
      assert Ring(rings[k], n0, p0) && |rings[k]| == 1;
      assert n0[rings[k][0]] == rings[k][After(0, 1)] && p0[rings[k][After(0, 1)]] == rings[k][0];
      prev[list] := list;
      next[list] := list;
      assert prev[..] == p0 && next[..] == n0;
    }

    /** list_enqueue: the assertion that a node is free holds, and p comes last. */
    method Enqueue(k: nat, p: nat)
      requires Valid() && IsList(k) && InUse() < LIST_NUM
      modifies prev, next, ptr, `rings
      ensures Valid() && |rings| == |old(rings)| && InUse() == old(InUse()) + 1
      ensures Queue(k) == old(Queue(k)) + [p]
      ensures forall l :: 0 < l < |rings| && l != k ==> Queue(l) == old(Queue(l))
    {
      hide Ring, Rings, Total, QueueOf;
      ghost var cs := rings;
      Conserved();
      var l := RemovePrev(0);
      ghost var mid := rings;
      ptr[l] := p;
      AddNext(k, l);
      Moves(cs, mid, rings, k);
      InBounds(cs, old(next[..]), old(prev[..]));
      InBounds(rings, next[..], prev[..]);
      KeepsOthers(cs, rings, old(ptr[..]), ptr[..], k, l);
    }

    /** list_dequeue: nothing from an empty list, else the one that came first, whose node is free again. */
    method Dequeue(k: nat) returns (r: Option<nat>)
      requires Valid() && IsList(k)
      modifies prev, next, `rings
      ensures Valid() && |rings| == |old(rings)|
      ensures r == if old(Queue(k)) == [] then None else Some(old(Queue(k))[0])
      ensures Queue(k) == if old(Queue(k)) == [] then [] else old(Queue(k))[1..]
      ensures InUse() == old(InUse()) - (if old(Queue(k)) == [] then 0 else 1)
      ensures forall l :: 0 < l < |rings| && l != k ==> Queue(l) == old(Queue(l))
    {
      hide Ring, Rings, Total;
      var none := Empty(k);
      if none {
        r := None;
      } else {
        ghost var cs := rings;
        var l := RemovePrev(k);
        ghost var mid := rings;
        r := Some(ptr[l]);
        AddNext(0, l);
        MovesBack(cs, mid, rings, k);
      }
    }
  }

  /** A node moves from the free list to list k. */
  lemma Moves(cs: seq<seq<nat>>, mid: seq<seq<nat>>, ds: seq<seq<nat>>, k: nat)
    requires 0 < k < |cs| && |cs| == |mid| == |ds| && |cs[0]| > 0
    requires mid == cs[0 := mid[0]] && |mid[0]| == |cs[0]| - 1 && ds == mid[k := ds[k]] && |ds[k]| == |cs[k]| + 1
    ensures Total(ds) == Total(cs) && Total(ds[1..]) == Total(cs[1..]) + 1
  {
    TotalUpdate(cs, 0, mid[0]);
    TotalUpdate(mid, k, ds[k]);
  }

  /** A node moves from list k to the free list. */
  lemma MovesBack(cs: seq<seq<nat>>, mid: seq<seq<nat>>, ds: seq<seq<nat>>, k: nat)
    requires 0 < k < |cs| && |cs| == |mid| == |ds| && |cs[k]| > 0
    requires mid == cs[k := mid[k]] && |mid[k]| == |cs[k]| - 1 && ds == mid[0 := ds[0]] && |ds[0]| == |cs[0]| + 1
    ensures Total(ds) == Total(cs) && Total(ds[1..]) == Total(cs[1..]) - 1
  {
    TotalUpdate(cs, k, mid[k]);
    TotalUpdate(mid, 0, ds[0]);
  }

  lemma InBounds(cs: seq<seq<nat>>, next: seq<nat>, prev: seq<nat>)
    requires Rings(cs, next, prev)
    ensures forall l, i :: 0 <= l < |cs| && 0 <= i < |cs[l]| ==> cs[l][i] < |next|
  {
    assert forall l :: 0 <= l < |cs| ==> Ring(cs[l], next, prev);
  }

  /** Writing the value of a node now in list k changes no other list, and puts the value at the end of that one. */
  lemma KeepsOthers(cs: seq<seq<nat>>, ds: seq<seq<nat>>, p0: seq<nat>, p1: seq<nat>, k: nat, x: nat)
    requires Layout(cs) && Layout(ds) && 0 < k < |cs| == |ds| && |p0| == |p1| == LIST_NUM + |cs| && x < LIST_NUM
    requires |cs[0]| > 1 && cs[0][|cs[0]| - 1] == x && ds[k] == WithNext(cs[k], x) && p1 == p0[x := p1[x]]
    requires forall l :: 0 < l < |cs| && l != k ==> ds[l] == cs[l]
    requires forall l, i :: 0 <= l < |cs| && 0 <= i < |cs[l]| ==> cs[l][i] < |p0|
    requires forall l, i :: 0 <= l < |ds| && 0 <= i < |ds[l]| ==> ds[l][i] < |p0|
    ensures QueueOf(ds[k], p1) == QueueOf(cs[k], p0) + [p1[x]]
    ensures forall l :: 0 < l < |cs| && l != k ==> QueueOf(ds[l], p1) == QueueOf(cs[l], p0)
  {
    forall l, i | 0 < l < |cs| && 0 <= i < |cs[l]|
      ensures p1[cs[l][i]] == p0[cs[l][i]]
    {
      assert cs[l][i] != cs[0][|cs[0]| - 1];
    }
  }
}
