/** malloc and free (user/ulib/stdlib.c) as they relink the headers in place. */
module Malloc {
  import opened Options
  import opened Heap

  /** The number of units that malloc looks for: the division of the C code, in 32 bits. */
  function Units(nbytes: nat): (n: nat)
    requires nbytes < 0x1_0000_0000
    ensures 1 <= n
  {
    (nbytes + UNIT - 1) % 0x1_0000_0000 / UNIT + 1
  }

  /** The block holds the bytes asked for, header apart, exactly if the request is not in the last seven below 2^32. */
  lemma UnitsSuffice(nbytes: nat)
    requires nbytes < 0x1_0000_0000
    ensures (Units(nbytes) - 1) * UNIT >= nbytes <==> nbytes + UNIT - 1 < 0x1_0000_0000
    ensures nbytes + UNIT - 1 < 0x1_0000_0000 ==> (Units(nbytes) - 1) * UNIT < nbytes + UNIT
  {
    var x := nbytes + UNIT - 1;
    if x < 0x1_0000_0000 {
      assert x % 0x1_0000_0000 == x;
    } else {
      assert x % 0x1_0000_0000 == x - 0x1_0000_0000;
    }
  }

  /** How far place t is ahead of place i, going round n places. */
  function Ahead(i: nat, t: nat, n: nat): nat
    requires i < n && t < n
  {
    if i <= t then t - i else t + n - i
  }

  ghost predicate StateOk(freep: Option<nat>, s: Lists, live: map<nat, nat>, got: set<nat>, brk: nat) {
    && 0 < brk <= |s.size|
    && match freep
       case None => live == map[] && got == {}
       case Some(f) =>
         ListOk(s.fl, s.ptr, s.size, brk) && f in s.fl && LiveOk(live, s.fl, s.size, brk) && Conserved(got, live, s.fl, s.size)
         && (forall u :: u in got ==> 0 < u < brk)
  }

  /** What a process keeps in its blocks stays, and so do their headers' sizes. */
  ghost predicate Kept(live: map<nat, nat>, s: Lists, r: Lists) {
    && |s.ptr| == |s.size| == |r.ptr| == |r.size|
    && forall b, u: nat :: b in live && Within(b, live[b], u) && u < |s.size| ==> r.ptr[u] == s.ptr[u] && r.size[u] == s.size[u]
  }

  // ---------------------------------------------------------------- free

  /** After free's joins: the state with block b no longer in use. */
  lemma FreeState(f: nat, s: Lists, live: map<nat, nat>, got: set<nat>, brk: nat, t: nat, b: nat)
    requires StateOk(Some(f), s, live, got, brk) && b in live && Before(s.fl, t, b)
    ensures Insertable(s, t, b, brk)
    ensures var h := JoinNext(s, t, b);
            var r := JoinPrev(h, s.fl[t], t, b);
            StateOk(Some(s.fl[t]), r, live - {b}, got, brk) && Kept(live - {b}, s, r)
  {
    hide InFree, Within, JoinNext, JoinPrev, ListOk, Conserved, LiveOk;
    FreeInsertable(f, s, live, got, brk, t, b);
    FreeListOk(s, t, b, brk);
    var h := JoinNext(s, t, b);
    var r := JoinPrev(h, s.fl[t], t, b);
    FreeKeeps(f, s, live, got, brk, t, b);
    FreeLive(f, s, r, live, got, brk, t, b);
    FreeConserves(f, s, r, live, got, brk, t, b);
    PlaceKept(s, t, b, brk);
  }

  lemma FreeInsertable(f: nat, s: Lists, live: map<nat, nat>, got: set<nat>, brk: nat, t: nat, b: nat)
    requires StateOk(Some(f), s, live, got, brk) && b in live && Before(s.fl, t, b)
    ensures Insertable(s, t, b, brk)
  {
    ListParts(s, brk);
  }

  /** The block before b is in the list afterwards, too: free leaves freep there. */
  lemma PlaceKept(s: Lists, t: nat, b: nat, brk: nat)
    requires Insertable(s, t, b, brk)
    ensures var r := JoinPrev(JoinNext(s, t, b), s.fl[t], t, b); t < |r.fl| && r.fl[t] == s.fl[t]
  {
  }

  /** The only headers that free changes are those of b and of the free block before it. */
  lemma FreeKeeps(f: nat, s: Lists, live: map<nat, nat>, got: set<nat>, brk: nat, t: nat, b: nat)
    requires StateOk(Some(f), s, live, got, brk) && b in live && Insertable(s, t, b, brk)
    ensures Kept(live - {b}, s, JoinPrev(JoinNext(s, t, b), s.fl[t], t, b))
  {
    var r := JoinPrev(JoinNext(s, t, b), s.fl[t], t, b);
    forall c, u | c in live - {b} && Within(c, live[c], u)
      ensures u != b && u != s.fl[t]
    {
      assert Clear(s.fl, s.size, c, live[c]);
      assert b + live[b] <= c || c + live[c] <= b;
    }
  }

  lemma FreeLive(f: nat, s: Lists, r: Lists, live: map<nat, nat>, got: set<nat>, brk: nat, t: nat, b: nat)
    requires StateOk(Some(f), s, live, got, brk) && b in live && Insertable(s, t, b, brk)
    requires r == JoinPrev(JoinNext(s, t, b), s.fl[t], t, b) && ListOk(r.fl, r.ptr, r.size, brk) && Kept(live - {b}, s, r)
    ensures LiveOk(live - {b}, r.fl, r.size, brk)
  {
    hide InFree, JoinNext, JoinPrev, Insertable, ListOk, Conserved;
    ListInRange(r, brk);
    forall c | c in live - {b}
      ensures r.size[c] == live[c] && Clear(r.fl, r.size, c, live[c])
    {
      assert Within(c, live[c], c);
      forall u | Within(c, live[c], u)
        ensures !InFree(r.fl, r.size, u)
      {
        FreeUnits(s, t, b, brk, u);
        ClearUnits(s, brk, c, live[c], u);
        assert b + live[b] <= c || c + live[c] <= b;
      }
      ClearByUnits(r, brk, c, live[c]);
    }
  }

  lemma FreeConserves(f: nat, s: Lists, r: Lists, live: map<nat, nat>, got: set<nat>, brk: nat, t: nat, b: nat)
    requires StateOk(Some(f), s, live, got, brk) && b in live && Insertable(s, t, b, brk)
    requires r == JoinPrev(JoinNext(s, t, b), s.fl[t], t, b) && ListOk(r.fl, r.ptr, r.size, brk)
    ensures InRange(r.fl, |r.size|) && Conserved(got, live - {b}, r.fl, r.size)
  {
    hide InFree, JoinNext, JoinPrev, Insertable;
    ListInRange(r, brk);
    forall u: nat
      ensures u in got <==> InFree(r.fl, r.size, u) || InLive(live - {b}, u)
    {
      FreeUnits(s, t, b, brk, u);
      LiveWithout(live, b, u);
      assert u in got <==> InFree(s.fl, s.size, u) || InLive(live, u);
    }
  }

  lemma LiveWithout(live: map<nat, nat>, b: nat, u: nat)
    requires b in live
    ensures InLive(live, u) <==> InLive(live - {b}, u) || Within(b, live[b], u)
  {
    if InLive(live, u) {
      var c :| c in live && Within(c, live[c], u);
      assert c != b ==> c in live - {b} && Within(c, (live - {b})[c], u);
    }
    if InLive(live - {b}, u) {
      var c :| c in live - {b} && Within(c, (live - {b})[c], u);
      assert Within(c, live[c], u);
    }
  }

  // ---------------------------------------------------------------- malloc

  /** What malloc takes from the free block of place k for n units, and what it leaves. */
  function Took(s: Lists, k: nat, n: nat): (nat, Lists)
    requires 0 < k < |s.fl| && |s.ptr| == |s.size| && InRange(s.fl, |s.size|) && 0 < n <= s.size[s.fl[k]]
    requires s.fl[k] + s.size[s.fl[k]] <= |s.size|
  {
    if s.size[s.fl[k]] == n then (s.fl[k], TakeWhole(s, k))
    else (s.fl[k] + s.size[s.fl[k]] - n, TakeTail(s, k, n))
  }

  lemma TookList(s: Lists, brk: nat, k: nat, n: nat)
    requires ListOk(s.fl, s.ptr, s.size, brk) && 0 < k < |s.fl| && 0 < n <= s.size[s.fl[k]]
    ensures s.fl[k] + s.size[s.fl[k]] <= brk
    ensures var (b, r) := Took(s, k, n);
            && ListOk(r.fl, r.ptr, r.size, brk) && 0 < b && b + n <= brk && r.size[b] == n
            && s.fl[k] <= b && b + n == s.fl[k] + s.size[s.fl[k]] && k - 1 < |r.fl| && r.fl[k - 1] == s.fl[k - 1]
            && |r.size| == |s.size|
            && (forall u :: 0 <= u < |s.size| && !Within(s.fl[k], s.size[s.fl[k]], u) && u != s.fl[k - 1] ==>
                  r.ptr[u] == s.ptr[u] && r.size[u] == s.size[u])
            && r.size[s.fl[k - 1]] == s.size[s.fl[k - 1]]
  {
    assert s.fl[0] < s.fl[k] && s.fl[k - 1] + s.size[s.fl[k - 1]] < s.fl[k];
    if s.size[s.fl[k]] == n {
      TakeWholeOk(s, k, brk);
    } else {
      TakeTailOk(s, k, n, brk);
    }
  }

  lemma TookUnits(s: Lists, brk: nat, k: nat, n: nat, u: nat)
    requires ListOk(s.fl, s.ptr, s.size, brk) && 0 < k < |s.fl| && 0 < n <= s.size[s.fl[k]]
    ensures s.fl[k] + s.size[s.fl[k]] <= brk
    ensures var (b, r) := Took(s, k, n);
            && InRange(r.fl, |r.size|)
            && (InFree(r.fl, r.size, u) <==> InFree(s.fl, s.size, u) && !Within(b, n, u))
            && (Within(b, n, u) ==> InFree(s.fl, s.size, u))
  {
    TookList(s, brk, k, n);
    if s.size[s.fl[k]] == n {
      TakeWholeUnits(s, k, brk, u);
    } else {
      TakeTailUnits(s, k, n, brk, u);
    }
    assert Within(Took(s, k, n).0, n, u) ==> Within(s.fl[k], s.size[s.fl[k]], u);
  }

  /** A block in use shares no unit with the free block of place k, and does not hold the header before it. */
  lemma LiveApart(s: Lists, brk: nat, live: map<nat, nat>, k: nat, c: nat)
    requires ListOk(s.fl, s.ptr, s.size, brk) && LiveOk(live, s.fl, s.size, brk) && 0 < k < |s.fl| && c in live
    ensures c + live[c] <= s.fl[k] || s.fl[k] + s.size[s.fl[k]] <= c
    ensures !Within(c, live[c], s.fl[k - 1])
  {
    assert Clear(s.fl, s.size, c, live[c]);
  }

  lemma TookLive(s: Lists, brk: nat, live: map<nat, nat>, k: nat, n: nat)
    requires ListOk(s.fl, s.ptr, s.size, brk) && LiveOk(live, s.fl, s.size, brk)
    requires 0 < k < |s.fl| && 0 < n <= s.size[s.fl[k]]
    ensures s.fl[k] + s.size[s.fl[k]] <= brk
    ensures var (b, r) := Took(s, k, n);
            b !in live && InRange(r.fl, |r.size|) && |r.size| == |s.size| && LiveOk(live[b := n], r.fl, r.size, brk)
            && Kept(live, s, r)
  {
    hide InFree, Took, ListOk, Clear;
    ListInRange(s, brk);
    TookList(s, brk, k, n);
    var (b, r) := Took(s, k, n);
    ListInRange(r, brk);
    if b in live {
      LiveApart(s, brk, live, k, b);
    }
    var live' := live[b := n];
    forall c | c in live'
      ensures 0 < c && live'[c] > 0 && c + live'[c] <= brk && r.size[c] == live'[c] && Clear(r.fl, r.size, c, live'[c])
      ensures c != b ==> c + live[c] <= b || b + n <= c
    {
      if c != b {
        LiveApart(s, brk, live, k, c);
      }
      forall u | Within(c, live'[c], u)
        ensures !InFree(r.fl, r.size, u)
      {
        TookUnits(s, brk, k, n, u);
        if c != b {
          ClearUnits(s, brk, c, live[c], u);
        }
      }
      ClearByUnits(r, brk, c, live'[c]);
    }
    TookKept(s, r, brk, live, k);
  }

  lemma TookKept(s: Lists, r: Lists, brk: nat, live: map<nat, nat>, k: nat)
    requires ListOk(s.fl, s.ptr, s.size, brk) && LiveOk(live, s.fl, s.size, brk) && 0 < k < |s.fl|
    requires |r.ptr| == |r.size| == |s.size|
    requires forall u :: 0 <= u < |s.size| && !Within(s.fl[k], s.size[s.fl[k]], u) && u != s.fl[k - 1] ==>
               r.ptr[u] == s.ptr[u] && r.size[u] == s.size[u]
    ensures Kept(live, s, r)
  {
    forall c, u: nat | c in live && Within(c, live[c], u) && u < |s.size|
      ensures !Within(s.fl[k], s.size[s.fl[k]], u) && u != s.fl[k - 1]
    {
      LiveApart(s, brk, live, k, c);
    }
  }

  lemma LiveWith(live: map<nat, nat>, b: nat, n: nat, u: nat)
    requires b !in live
    ensures InLive(live[b := n], u) <==> InLive(live, u) || Within(b, n, u)
  {
    var m := live[b := n];
    if InLive(live, u) {
      var c :| c in live && Within(c, live[c], u);
      assert c in m && Within(c, m[c], u);
    }
    if Within(b, n, u) {
      assert b in m && Within(b, m[b], u);
    }
    if InLive(m, u) {
      var c :| c in m && Within(c, m[c], u);
      assert c != b ==> c in live && Within(c, live[c], u);
    }
  }

  /** malloc's block is nobody else's, and only what was free has been taken. */
  lemma TookState(f: nat, s: Lists, live: map<nat, nat>, got: set<nat>, brk: nat, k: nat, n: nat)
    requires StateOk(Some(f), s, live, got, brk) && 0 < k < |s.fl| && 0 < n <= s.size[s.fl[k]]
    ensures s.fl[k] + s.size[s.fl[k]] <= brk
    ensures var (b, r) := Took(s, k, n);
            b !in live && StateOk(Some(s.fl[k - 1]), r, live[b := n], got, brk) && Kept(live, s, r)
  {
    hide InFree, Took, Within, ListOk, LiveOk;
    ListInRange(s, brk);
    TookList(s, brk, k, n);
    var (b, r) := Took(s, k, n);
    ListInRange(r, brk);
    TookLive(s, brk, live, k, n);
    forall u: nat
      ensures u in got <==> InFree(r.fl, r.size, u) || InLive(live[b := n], u)
    {
      TookUnits(s, brk, k, n, u);
      LiveWith(live, b, n, u);
      assert u in got <==> InFree(s.fl, s.size, u) || InLive(live, u);
    }
  }

  function UnitsOf(b: nat, n: nat): set<nat> {
    set u: nat | b <= u < b + n && Within(b, n, u)
  }

  /** Memory from sbrk, at or above the old end, as a block in use. */
  lemma GrownState(f: nat, s: Lists, live: map<nat, nat>, got: set<nat>, brk: nat, hp: nat, n: nat)
    requires StateOk(Some(f), s, live, got, brk) && brk <= hp && 0 < n && hp + n <= |s.size|
    ensures hp !in live
    ensures StateOk(Some(f), s.(size := s.size[hp := n]), live[hp := n], got + UnitsOf(hp, n), hp + n)
    ensures forall u :: u in got ==> u < brk
  {
    hide Within;
    var r := s.(size := s.size[hp := n]);
    GrownList(s, live, brk, hp, n);
    LiveBelow(s, live, brk);
    var got' := got + UnitsOf(hp, n);
    forall u: nat
      ensures u in got' <==> InFree(r.fl, r.size, u) || InLive(live[hp := n], u)
    {
      LiveWith(live, hp, n, u);
      GrownUnits(s, brk, hp, n, u);
      assert u in got <==> InFree(s.fl, s.size, u) || InLive(live, u);
    }
  }

  lemma LiveBelow(s: Lists, live: map<nat, nat>, brk: nat)
    requires ListOk(s.fl, s.ptr, s.size, brk) && LiveOk(live, s.fl, s.size, brk)
    ensures forall b :: b in live ==> b < brk
  {
  }

  lemma GrownUnits(s: Lists, brk: nat, hp: nat, n: nat, u: nat)
    requires ListOk(s.fl, s.ptr, s.size, brk) && 0 < brk <= hp < |s.size|
    ensures InRange(s.fl, |s.size|)
    ensures InFree(s.fl, s.size[hp := n], u) <==> InFree(s.fl, s.size, u)
    ensures Within(hp, n, u) <==> hp <= u < hp + n
  {
    assert forall i :: 0 <= i < |s.fl| ==> s.fl[i] < hp && s.size[hp := n][s.fl[i]] == s.size[s.fl[i]];
    if InFree(s.fl, s.size, u) {
      var i :| 0 <= i < |s.fl| && Within(s.fl[i], s.size[s.fl[i]], u);
      assert Within(s.fl[i], s.size[hp := n][s.fl[i]], u);
    }
    if InFree(s.fl, s.size[hp := n], u) {
      var i :| 0 <= i < |s.fl| && Within(s.fl[i], s.size[hp := n][s.fl[i]], u);
      assert Within(s.fl[i], s.size[s.fl[i]], u);
    }
  }

  lemma GrownList(s: Lists, live: map<nat, nat>, brk: nat, hp: nat, n: nat)
    requires ListOk(s.fl, s.ptr, s.size, brk) && LiveOk(live, s.fl, s.size, brk) && 0 < brk <= hp && 0 < n && hp + n <= |s.size|
    ensures hp !in live && ListOk(s.fl, s.ptr, s.size[hp := n], hp + n) && LiveOk(live[hp := n], s.fl, s.size[hp := n], hp + n)
  {
    assert forall i :: 0 <= i < |s.fl| ==> s.fl[i] < hp && s.size[hp := n][s.fl[i]] == s.size[s.fl[i]];
    forall b | b in live
      ensures Clear(s.fl, s.size[hp := n], b, live[b])
    {
      assert Clear(s.fl, s.size, b, live[b]);
    }
  }

  /** What a program writes into its own block, header apart, cannot upset the heap. */
  lemma UserStore(f: nat, s: Lists, live: map<nat, nat>, got: set<nat>, brk: nat, b: nat, u: nat, x: nat, y: nat)
    requires StateOk(Some(f), s, live, got, brk) && b in live && b < u < b + live[b]
    ensures u < |s.size| && StateOk(Some(f), s.(ptr := s.ptr[u := x], size := s.size[u := y]), live, got, brk)
  {
    var r := s.(ptr := s.ptr[u := x], size := s.size[u := y]);
    assert Clear(s.fl, s.size, b, live[b]);
    assert forall i :: 0 <= i < |s.fl| ==> s.fl[i] != u;
    assert forall c :: c in live ==> c != u && Clear(r.fl, r.size, c, live[c]) by {
      forall c | c in live
        ensures c != u && Clear(r.fl, r.size, c, live[c])
      {
        assert Clear(s.fl, s.size, c, live[c]);
      }
    }
    forall v: nat
      ensures InFree(r.fl, r.size, v) <==> InFree(s.fl, s.size, v)
    {
      SameFree(s.fl, s.size, r.size, v);
    }
  }

  lemma SameFree(fl: seq<nat>, a: seq<nat>, b: seq<nat>, v: nat)
    requires InRange(fl, |a|) && |a| == |b| && forall i :: 0 <= i < |fl| ==> a[fl[i]] == b[fl[i]]
    ensures InFree(fl, a, v) <==> InFree(fl, b, v)
  {
    if InFree(fl, a, v) {
      var i :| 0 <= i < |fl| && Within(fl[i], a[fl[i]], v);
      assert Within(fl[i], b[fl[i]], v);
    }
    if InFree(fl, b, v) {
      var i :| 0 <= i < |fl| && Within(fl[i], b[fl[i]], v);
      assert Within(fl[i], a[fl[i]], v);
    }
  }

  // ---------------------------------------------------------------- searching

  /** The search of free stops at the free block before b, and nowhere else. */
  lemma StopsBefore(s: Lists, brk: nat, i: nat, b: nat)
    requires ListOk(s.fl, s.ptr, s.size, brk) && i < |s.fl| && 0 < b && b !in s.fl
    ensures var p := s.fl[i];
            var q := s.ptr[p];
            (b > p && b < q) || (p >= q && (b > p || b < q)) <==> Before(s.fl, i, b)
  {
    var p := s.fl[i];
    assert s.ptr[p] == s.fl[After(i, |s.fl|)];
    if Before(s.fl, i, b) {
      assert i + 1 < |s.fl| ==> b < s.fl[i + 1];
      assert 0 < i ==> s.fl[0] < s.fl[i];
    } else if b > p {
      var j :| i < j < |s.fl| && b >= s.fl[j];
      assert i + 1 < j ==> s.fl[i + 1] < s.fl[j];
    }
  }

  /** There is such a block. */
  lemma {:induction false} PlaceBefore(fl: seq<nat>, b: nat, n: nat) returns (t: nat)
    requires 0 < n <= |fl| && fl[0] < b && b !in fl && forall i, j :: 0 <= i < j < |fl| ==> fl[i] < fl[j]
    requires forall i :: n <= i < |fl| ==> b < fl[i]
    ensures Before(fl, t, b)
  {
    if fl[n - 1] < b {
      t := n - 1;
    } else {
      t := PlaceBefore(fl, b, n - 1);
    }
  }

  // ---------------------------------------------------------------- the routines

  class UserHeap {
    const ptr: array<nat>
    const size: array<nat>
    var freep: Option<nat>
    var brk: nat
    ghost var fl: seq<nat>
    ghost var live: map<nat, nat>    // blocks in use: first unit and number of units
    ghost var got: set<nat>          // the units that sbrk gave to malloc

    /** A program starts with nothing allocated; `units` is how far its memory can grow. */
    constructor (end: nat, units: nat)
      requires 0 < end <= units
      ensures Valid() && live == map[] && got == {} && brk == end && fresh(ptr) && fresh(size)
    {
      ptr := new nat[units];
      size := new nat[units];
      freep, brk := None, end;
      fl, live, got := [], map[], {};
    }

    ghost function Now(): (s: Lists)
      reads this, ptr, size
    {
      Lists(fl, ptr[..], size[..])
    }

    ghost predicate Valid()
      reads this, ptr, size
    {
      ptr != size && ptr.Length == size.Length && StateOk(freep, Now(), live, got, brk)
    }

    /** The loop at the head of free. */
    method Find(bp: nat, ghost k: nat) returns (p: nat, ghost t: nat)
      requires Valid() && freep.Some? && bp in live && k < |fl| && fl[k] == freep.value
      ensures Before(fl, t, bp) && t < |fl| && p == fl[t]
    {
      assert Clear(fl, size[..], bp, live[bp]);
      assert bp !in fl;
      ghost var goal := PlaceBefore(fl, bp, |fl|);
      p, t := freep.value, k;
      while true
        invariant t < |fl| && p == fl[t]
        decreases Ahead(t, goal, |fl|)
      {
        StopsBefore(Now(), brk, t, bp);
        if bp > p && bp < ptr[p] {
          break;
        }
        if p >= ptr[p] && (bp > p || bp < ptr[p]) {
          break;
        }
        p, t := ptr[p], After(t, |fl|);
      }
    }

    /** free of the block whose header is at bp: it is no longer in use, its units are free, and nobody else notices. */
    method Free(bp: nat)
      requires Valid() && freep.Some? && bp in live
      modifies this`freep, this`fl, this`live, ptr, size
      ensures Valid() && freep.Some? && live == old(live) - {bp}
      ensures Kept(live, old(Now()), Now())
      ensures Fits(Now(), freep.value, old(live)[bp])
    {
      hide ListOk, LiveOk, Conserved, JoinNext, JoinPrev, Fits, Kept, HalfOk, Links, Gaps, Sizes, Clear;
      ghost var s := Now();
      SizeOfLive(freep.value, s, live, got, brk, bp);
      ghost var k :| 0 <= k < |fl| && fl[k] == freep.value;
      var p;
      ghost var t;
      p, t := Find(bp, k);
      FreeState(freep.value, s, live, got, brk, t, bp);
      FreedFits(s, t, bp, brk);
      FreeListOk(s, t, bp, brk);
      HalfInRange(JoinNext(s, t, bp), t, bp, brk);
      JoinUp(p, bp, t);
      JoinDown(p, bp, t);
      freep := Some(p);
      live := live - {bp};
    }

    /** The first join of free: with the free block after. */
    method JoinUp(p: nat, bp: nat, ghost t: nat)
      requires ptr != size && ptr.Length == size.Length && Insertable(Now(), t, bp, brk) && p == fl[t]
      modifies this`fl, ptr, size
      ensures Insertable(old(Now()), t, bp, brk) && Now() == JoinNext(old(Now()), t, bp)
    {
      hide Gaps, Clear, Sizes;
      ghost var s := Now();
      ghost var h := JoinNext(s, t, bp);
      assert ptr[p] == fl[After(t, |fl|)];
      assert t + 1 == |fl| ==> ptr[p] == 0;
      if bp + size[bp] == ptr[p] {
        size[bp], ptr[bp] := size[bp] + size[ptr[p]], ptr[ptr[p]];
      } else {
        ptr[bp] := ptr[p];
      }
      fl := h.fl;
    }

    /** The second: with the free block before. */
    method JoinDown(p: nat, bp: nat, ghost t: nat)
      requires ptr != size && ptr.Length == size.Length && t + 1 < |fl| && p < size.Length && bp < size.Length
      modifies this`fl, ptr, size
      ensures t + 1 < |old(fl)| && Now() == JoinPrev(old(Now()), p, t, bp)
    {
      ghost var r := JoinPrev(Now(), p, t, bp);
      if p + size[p] == bp {
        size[p], ptr[p] := size[p] + size[bp], ptr[bp];
      } else {
        ptr[p] := bp;
      }
      fl := r.fl;
    }

    /** sbrk, given a number of units; memory ends where the arrays do. */
    method Sbrk(n: nat) returns (r: Option<nat>)
      requires brk <= size.Length
      modifies this`brk
      ensures r == if old(brk) + n <= size.Length then Some(old(brk)) else None
      ensures brk == old(brk) + if r.Some? then n else 0
    {
      if brk + n <= size.Length {
        r := Some(brk);
        brk := brk + n;
      } else {
        r := None;
      }
    }

    /** A call of sbrk from elsewhere in the program: the memory it gets is none of malloc's. */
    method OtherSbrk(n: nat) returns (r: Option<nat>)
      requires Valid()
      modifies this`brk
      ensures Valid() && (r.Some? ==> forall u :: r.value <= u < r.value + n ==> u !in got)
    {
      hide Clear, InFree;
      r := Sbrk(n);
    }

    /** morecore: the new memory is freed into the list, where there is then room for n units. */
    method Morecore(n: nat) returns (r: Option<nat>)
      requires Valid() && freep.Some? && n > 0
      modifies this, ptr, size
      ensures Valid() && freep.Some? && live == old(live)
      ensures r.None? ==> old(brk) + Most(n) > size.Length && Now() == old(Now()) && freep == old(freep) && got == old(got)
      ensures r.Some? ==> r == freep && Fits(Now(), r.value, n) && got == old(got) + UnitsOf(old(brk), Most(n))
      ensures Kept(live, old(Now()), Now())
    {
      hide ListOk, LiveOk, Conserved, InFree, Within;
      var nu := if n < MORE then MORE else n;
      ghost var s, f, end := Now(), freep.value, brk;
      var p := Sbrk(nu);
      if p.None? {
        r := None;
      } else {
        var hp := p.value;
        GrownState(f, s, live, got, end, hp, nu);
        GrownKept(s, live, got, f, end, hp, nu);
        size[hp] := nu;
        live := live[hp := nu];
        got := got + UnitsOf(hp, nu);
        ghost var m := Now();
        assert m == s.(size := s.size[hp := nu]);
        Free(hp);
        assert live == old(live);
        KeptBoth(live, s, m, Now());
        r := freep;
      }
    }

    /** The block that malloc hands out: the whole free block p, or its end. */
    method Carve(prevp: nat, p: nat, n: nat, ghost k: nat) returns (b: nat)
      requires Valid() && freep.Some? && 0 < k < |fl| && prevp == fl[k - 1] && p == fl[k] && p < size.Length && 0 < n <= size[p]
      modifies this`freep, this`fl, this`live, ptr, size
      ensures Valid() && freep.Some? && b !in old(live) && live == old(live)[b := n] && Kept(old(live), old(Now()), Now())
    {
      hide ListOk, LiveOk, Conserved, InFree, Within, Kept;
      ghost var s := Now();
      ListInRange(s, brk);
      TookState(freep.value, s, live, got, brk, k, n);
      ghost var r := Took(s, k, n).1;
      b := p;
      if size[p] == n {
        ptr[prevp] := ptr[p];
      } else {
        size[p] := size[p] - n;
        b := p + size[p];
        size[b] := n;
      }
      fl := r.fl;
      assert Now() == r;
      freep := Some(prevp);
      live := live[b := n];
    }

    /** malloc: a block of the units asked for, apart from all others, which keep what they hold; none only if sbrk has
        no more to give and no free block is large enough. It asks sbrk at most once. The limit on nbytes is that of the
        signed argument of sbrk. */
    method Alloc(nbytes: nat) returns (r: Option<nat>)
      requires Valid() && nbytes + 2 * UNIT < 0x8000_0000
      modifies this, ptr, size
      ensures Valid() && freep.Some?
      ensures r.Some? ==>
                r.value > 0 && r.value - 1 !in old(live) && live == old(live)[r.value - 1 := Units(nbytes)]
      ensures r.None? ==> live == old(live) && got == old(got) && NoneFits(Now(), Units(nbytes))
      ensures r.None? ==> old(brk) + Most(Units(nbytes)) > size.Length
      ensures got == old(got) || (got == old(got) + UnitsOf(old(brk), Most(Units(nbytes))) && r.Some?)
      ensures Kept(old(live), old(Now()), Now())
    {
      hide ListOk, LiveOk, Conserved, InFree, Within, Kept, Fits, Unfit;
      var n := Units(nbytes);
      InitBase();
      ghost var start: nat := PlaceOf(fl, freep.value);
      ghost var k: nat := start;
      StepOn(Now(), brk, start, start, n);
      var prevp := freep.value;
      var p := ptr[prevp];
      ghost var more := false;
      while true
        invariant Valid() && freep.Some? && start < |fl| && fl[start] == freep.value
        invariant k < |fl| && prevp == fl[k] && p == fl[After(k, |fl|)] && p < size.Length
        invariant Unfit(Now(), start, k, n) && live == old(live) && Kept(old(live), old(Now()), Now())
        invariant !more ==> got == old(got) && brk == old(brk)
        invariant more ==> got == old(got) + UnitsOf(old(brk), Most(n)) && !NoneFits(Now(), n)
        decreases !more, Ahead(After(k, |fl|), start, |fl|)
      {
        if size[p] >= n {
          NotBase(Now(), brk, After(k, |fl|), n);
          ghost var before := Now();
          var b := Carve(prevp, p, n, k + 1);
          KeptBoth(old(live), old(Now()), before, Now());
          r := Some(b + 1);
          break;
        }
        if p == freep.value {
          SameStart(Now(), brk, start, After(k, |fl|));
          AllUnfit(Now(), brk, start, k, n);
          ghost var before := Now();
          var q := Morecore(n);
          KeptBoth(live, old(Now()), before, Now());
          if q.None? {
            r := None;
            break;
          }
          p := q.value;
          more := true;
          start := PlaceOf(fl, p);
          k := start;
          SomeFits(Now(), brk, start, n);
          StepOn(Now(), brk, start, start, n);
        } else {
          k := After(k, |fl|);
          StepUnfit(Now(), brk, start, k, n);
        }
        prevp := p;
        p := ptr[p];
      }
    }

    method InitBase()
      requires Valid()
      modifies this`freep, this`fl, ptr, size
      ensures Valid() && freep.Some? && Kept(live, old(Now()), Now())
      ensures old(freep).Some? ==> freep == old(freep) && Now() == old(Now())
      ensures old(freep).None? ==> Now().fl == [0] && live == map[] && got == {}
    {
      if freep.None? {
        ptr[0], size[0] := 0, 0;
        freep := Some(0);
        fl := [0];
        BaseAlone(Now(), brk);
      }
    }
  }

  /** At block p or at the one after it there is room for n units. */
  ghost predicate Fits(s: Lists, p: nat, n: nat) {
    p < |s.size| == |s.ptr| && (s.size[p] >= n || (s.ptr[p] < |s.size| && s.size[s.ptr[p]] >= n))
  }

  lemma SizeOfLive(f: nat, s: Lists, live: map<nat, nat>, got: set<nat>, brk: nat, b: nat)
    requires StateOk(Some(f), s, live, got, brk) && b in live
    ensures b < |s.size| && s.size[b] == live[b]
  {
  }

  lemma FreedFits(s: Lists, t: nat, b: nat, brk: nat)
    requires Insertable(s, t, b, brk)
    ensures Fits(JoinPrev(JoinNext(s, t, b), s.fl[t], t, b), s.fl[t], s.size[b])
  {
  }

  function Most(n: nat): nat {
    if n < MORE then MORE else n
  }

  lemma BaseAlone(s: Lists, brk: nat)
    requires 0 < brk <= |s.size| == |s.ptr| && s.fl == [0] && s.ptr[0] == 0 && s.size[0] == 0
    ensures StateOk(Some(0), s, map[], {}, brk)
  {
  }

  lemma GrownKept(s: Lists, live: map<nat, nat>, got: set<nat>, f: nat, brk: nat, hp: nat, n: nat)
    requires StateOk(Some(f), s, live, got, brk) && brk <= hp < |s.size|
    ensures Kept(live, s, s.(size := s.size[hp := n]))
  {
    forall b, u: nat | b in live && Within(b, live[b], u)
      ensures u < hp
    {
      assert b + live[b] <= brk;
    }
  }

  lemma KeptBoth(live: map<nat, nat>, s: Lists, m: Lists, r: Lists)
    requires Kept(live, s, m) && Kept(live, m, r)
    ensures Kept(live, s, r)
  {
  }

  // ---------------------------------------------------------------- how the search of malloc gets on

  ghost predicate NoneFits(s: Lists, n: nat) {
    InRange(s.fl, |s.size|) && forall i :: 0 <= i < |s.fl| ==> s.size[s.fl[i]] < n
  }

  /** The free blocks after place start, up to place k, are too small. */
  ghost predicate Unfit(s: Lists, start: nat, k: nat, n: nat) {
    && InRange(s.fl, |s.size|) && start < |s.fl| && k < |s.fl|
    && forall i :: 0 <= i < |s.fl| && Passed(start, k, i) ==> s.size[s.fl[i]] < n
  }

  /** Going round from the place after start to place k one passes place i. */
  predicate Passed(start: nat, k: nat, i: nat) {
    if start <= k then start < i <= k else i > start || i <= k
  }

  lemma PlaceOf(fl: seq<nat>, p: nat) returns (k: nat)
    requires p in fl
    ensures k < |fl| && fl[k] == p
  {
    k :| 0 <= k < |fl| && fl[k] == p;
  }

  lemma StepOn(s: Lists, brk: nat, start: nat, k: nat, n: nat)
    requires ListOk(s.fl, s.ptr, s.size, brk) && start == k < |s.fl|
    ensures s.fl[k] < |s.size| == |s.ptr| && s.ptr[s.fl[k]] == s.fl[After(k, |s.fl|)] && s.fl[After(k, |s.fl|)] < |s.size|
    ensures Unfit(s, start, k, n)
  {
  }

  lemma NotBase(s: Lists, brk: nat, k: nat, n: nat)
    requires ListOk(s.fl, s.ptr, s.size, brk) && k < |s.fl| && n > 0 && s.fl[k] < |s.size| && s.size[s.fl[k]] >= n
    ensures k > 0
  {
  }

  lemma SameStart(s: Lists, brk: nat, i: nat, j: nat)
    requires ListOk(s.fl, s.ptr, s.size, brk) && i < |s.fl| && j < |s.fl| && s.fl[i] == s.fl[j]
    ensures i == j
  {
  }

  lemma AllUnfit(s: Lists, brk: nat, start: nat, k: nat, n: nat)
    requires ListOk(s.fl, s.ptr, s.size, brk) && Unfit(s, start, k, n) && After(k, |s.fl|) == start && s.size[s.fl[start]] < n
    ensures NoneFits(s, n)
  {
    forall i | 0 <= i < |s.fl|
      ensures s.size[s.fl[i]] < n
    {
      assert i == start || Passed(start, k, i);
    }
  }

  lemma StepUnfit(s: Lists, brk: nat, start: nat, k: nat, n: nat)
    requires ListOk(s.fl, s.ptr, s.size, brk) && start < |s.fl| && k < |s.fl| && k != start && s.size[s.fl[k]] < n
    requires forall j :: 0 <= j < |s.fl| && After(j, |s.fl|) == k ==> Unfit(s, start, j, n)
    ensures Unfit(s, start, k, n)
    ensures s.fl[k] < |s.size| == |s.ptr| && s.ptr[s.fl[k]] == s.fl[After(k, |s.fl|)] && s.fl[After(k, |s.fl|)] < |s.size|
  {
    var j := if k == 0 then |s.fl| - 1 else k - 1;
    assert Unfit(s, start, j, n);
  }

  lemma SomeFits(s: Lists, brk: nat, k: nat, n: nat)
    requires ListOk(s.fl, s.ptr, s.size, brk) && k < |s.fl| && Fits(s, s.fl[k], n)
    ensures !NoneFits(s, n)
  {
    assert s.ptr[s.fl[k]] == s.fl[After(k, |s.fl|)];
  }
}
